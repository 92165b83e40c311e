# Booking oracle and booking-count parser of the rooming-list end-to-end tests

The repository is a Playwright suite for a "Rooming List Management" web
application. Nearly all of it drives a browser. Two pieces of it compute
something on their own, and this project models those pieces and proves
properties about them.

1. **The booking oracle** of the "View Bookings" detail test
   (`BookingDetailsVerify.spec.ts`). It works from three fixture
   collections: rooming lists, bookings, and join rows linking the two.
   Given the name shown on an event card, it:
   - normalises the name: one leading `[` and one trailing `]` are stripped,
     then whitespace is trimmed;
   - finds the first rooming list with exactly that `rfpName`, and fails if
     there is none;
   - collects, in join-row order, the `String` spelling of the `bookingId`
     of every join row whose `roomingListId` has the same `String`
     spelling as the list's id;
   - builds a map from `String(i + 1)` to the i-th booking (0-based);
   - resolves each linked id through that map, and throws on the first
     missing id;
   - formats each ISO date-time as `month/day/year`.
2. **The booking-count parser** of the event-card test
   (`EventCards.spec.ts`). It reads the first `(digits)` group of the
   "View Bookings" button label as a number, or 0 when there is no group
   or no label. The modal is compared only when that count is positive.

The fixtures are parameters, given as sequences of datatypes. Ids in them
are numbers or strings (`JsonId`) and are always compared through their
JavaScript `String` spelling. The JavaScript built-ins the code relies on
are modelled in their own modules, with their ECMAScript behaviour:
- `String(integer)`;
- `Number(digits)`;
- `split` on a single character;
- `trim`;
- `find`, `filter` and `map` on arrays.

Files:
- `wrappers.dfy`: `Option` and `Result`.
- `js_text.dfy`: integer spelling and parsing, `split`/join, `trim`.
- `js_array.dfy`: `find`, `filter`, `map`.
- `booking_oracle.dfy`: the oracle.
- `event_cards.dfy`: the count parser.

The positional map is built by a method with a loop, as the source builds
it with a `for` loop and `Map.set`. Name normalisation, lookup, the join
filter, resolution and date formatting are functions. Two methods compose
them: `ResolveBookings` for one rooming-list id, and `ExpectedBookings` for
one card.

The rule that decides which ids resolve is proved outright (`PositionalKeyIsSpelling`, `NumericIdIsPositional`):
- a string booking id resolves exactly when it is the canonical decimal spelling of a position `1..n`, so `"01"`, `"+1"` and `" 1"` do not resolve;
- a numeric id resolves exactly when it lies in `1..n`.

**Date format.** The helper's own comment says it formats "as MM/DD/YYYY"
(BookingDetailsVerify.spec.ts:66). The code copies the fields literally and
does not pad them, so `2025-1-5T…` gives `1/5/2025`. The model follows the
code, and `FormatDateFields` states that the fields are copied literally.

## Model

| member | source | states |
|---|---|---|
| BookingOracle.NormaliseName | qa-challenge-main/tests/BookingDetailsVerify.spec.ts:19-20 | A missing text content gives a missing name (the optional chain), and a present one gives a present name |
| BookingOracle.StripBrackets | qa-challenge-main/tests/BookingDetailsVerify.spec.ts:20 | The replace removes at most one character at each end: the result is the string itself, or it with its first, last, or first and last character dropped |
| BookingOracle.StripBracketsLaw | qa-challenge-main/tests/BookingDetailsVerify.spec.ts:20 | For any `x`, optionally preceded by `[` and followed by `]`, stripping gives back exactly `x`. Brackets inside `x` are untouched, and a `[` or `]` not at the very end is kept |
| BookingOracle.NormaliseNameLaw | qa-challenge-main/tests/BookingDetailsVerify.spec.ts:20 | A name `x` with an optional leading `[` and an optional trailing `]` normalises to `x.trim()`. This covers `[x]`, `[x`, `x]` and `x` |
| JsText.Trim | qa-challenge-main/tests/BookingDetailsVerify.spec.ts:20 | `trim` returns a contiguous slice with only ECMAScript whitespace cut off on either side, and it neither starts nor ends with whitespace |
| JsText.TrimStart | qa-challenge-main/tests/BookingDetailsVerify.spec.ts:20 | Removing leading whitespace leaves a suffix that does not start with whitespace, and only whitespace was removed |
| JsText.TrimEnd | qa-challenge-main/tests/BookingDetailsVerify.spec.ts:20 | Removing trailing whitespace leaves a prefix that does not end with whitespace, and only whitespace was removed |
| JsText.TrimIdempotent | qa-challenge-main/tests/BookingDetailsVerify.spec.ts:20 | Trimming twice gives the same as trimming once |
| JsArray.Find | qa-challenge-main/tests/BookingDetailsVerify.spec.ts:22 | `find` returns nothing exactly when no element satisfies the callback; otherwise it returns an element that satisfies it, and no element before that one does |
| BookingOracle.FindRoomingList | qa-challenge-main/tests/BookingDetailsVerify.spec.ts:22-23 | The lookup returns the first rooming list whose `rfpName` equals the normalised name exactly. It returns nothing exactly when no list has that name, and so always nothing when the name is missing |
| BookingOracle.ExpectedBookings | qa-challenge-main/tests/BookingDetailsVerify.spec.ts:19-39 | The per-card oracle fails with "rooming list not found" exactly when the lookup fails. Otherwise its result is that of `ResolveBookings` for the found list's id |
| BookingOracle.ResolveBookings | qa-challenge-main/tests/BookingDetailsVerify.spec.ts:26-39 | The result succeeds exactly when every linked id is a position `1..n`. It then has one booking per matching join row, in join-row order, and booking j is `bookings[id_j - 1]`. Otherwise it fails naming the first id that is not a position, and returns no bookings |
| JsArray.Filter | qa-challenge-main/tests/BookingDetailsVerify.spec.ts:26-27 | `filter` keeps only elements that satisfy the callback and is never longer than its input |
| JsArray.Map | qa-challenge-main/tests/BookingDetailsVerify.spec.ts:28 | `map` keeps the length, and element k of the result is the callback applied to element k |
| JsArray.FilterAppend | qa-challenge-main/tests/BookingDetailsVerify.spec.ts:26-27 | Filtering a concatenation is the concatenation of the filtered parts, so order is kept |
| JsArray.MapAppend | qa-challenge-main/tests/BookingDetailsVerify.spec.ts:28 | Mapping a concatenation is the concatenation of the mapped parts |
| JsArray.FilterMembers | qa-challenge-main/tests/BookingDetailsVerify.spec.ts:26-27 | An element survives `filter` exactly when it is in the input and satisfies the callback |
| JsArray.FilterCount | qa-challenge-main/tests/BookingDetailsVerify.spec.ts:26-27 | `filter` keeps exactly as many elements as there are positions satisfying the callback |
| BookingOracle.IdText | qa-challenge-main/tests/BookingDetailsVerify.spec.ts:27-28 | `String(id)` for a numeric or string id. Its meaning for comparisons is stated by `NumericIdsCompareByValue` and `MixedIdsCompareBySpelling` |
| BookingOracle.LinkedBookingIds | qa-challenge-main/tests/BookingDetailsVerify.spec.ts:26-28 | The filter/map chain. Its order, membership and length are stated by the four `LinkedBookingIds…` lemmas below |
| BookingOracle.LinkedBookingIdsAppend | qa-challenge-main/tests/BookingDetailsVerify.spec.ts:26-28 | The linked ids of two blocks of join rows come out block by block, so join-row order is preserved |
| BookingOracle.LinkedBookingIdsOfRow | qa-challenge-main/tests/BookingDetailsVerify.spec.ts:26-28 | A single join row contributes `String(bookingId)` when it matches, and nothing otherwise |
| BookingOracle.LinkedBookingIdsMembers | qa-challenge-main/tests/BookingDetailsVerify.spec.ts:26-28 | An id is linked exactly when some matching join row carries a booking id with that spelling |
| BookingOracle.LinkedBookingIdsCount | qa-challenge-main/tests/BookingDetailsVerify.spec.ts:26-28 | There are exactly as many linked ids as matching join rows |
| BookingOracle.NumericIdsCompareByValue | qa-challenge-main/tests/BookingDetailsVerify.spec.ts:27 | Two numeric ids compare equal as strings exactly when they are equal as numbers |
| BookingOracle.MixedIdsCompareBySpelling | qa-challenge-main/tests/BookingDetailsVerify.spec.ts:27 | A numeric id n and a string id s compare equal exactly when s is the canonical decimal spelling of n |
| JsText.NumberToString | qa-challenge-main/tests/BookingDetailsVerify.spec.ts:32 | `String` of an integer. Its round trips and injectivity are stated by `DecimalRoundTrip`, `CanonicalRoundTrip`, `ParseNumberToString` and `NumberToStringInjective` |
| JsText.NumberToStringInjective | qa-challenge-main/tests/BookingDetailsVerify.spec.ts:27 | `String` on integers is injective: equal spellings mean equal numbers |
| JsText.ParseNumberToString | qa-challenge-main/tests/BookingDetailsVerify.spec.ts:27 | The spelling of a non-negative integer reads back as that integer, and a negative one is not a canonical digit string |
| JsText.DecimalInjective | qa-challenge-main/tests/BookingDetailsVerify.spec.ts:32 | Distinct positions get distinct map keys |
| JsText.DecimalRoundTrip | qa-challenge-main/tests/BookingDetailsVerify.spec.ts:32 | `String(k)` for k ≥ 0 is a canonical digit string (no leading zero) whose value is k |
| JsText.CanonicalRoundTrip | qa-challenge-main/tests/BookingDetailsVerify.spec.ts:32 | Every canonical digit string is `String` of its own value |
| JsText.ParseCanonicalIff | qa-challenge-main/tests/BookingDetailsVerify.spec.ts:32 | A string reads as the number k exactly when it is `String(k)` |
| BookingOracle.BuildBookingIdMap | qa-challenge-main/tests/BookingDetailsVerify.spec.ts:30-33 | The map sends `String(k)` to `bookings[k - 1]` for every k in `1..n`, and has no other keys. The loop invariant holds this for the first i bookings |
| BookingOracle.PositionalKeyIsSpelling | qa-challenge-main/tests/BookingDetailsVerify.spec.ts:30-33 | A key is in the map exactly when it is `String(k)` for some k in `1..n` |
| BookingOracle.NumericIdIsPositional | qa-challenge-main/tests/BookingDetailsVerify.spec.ts:28-36 | A numeric booking id resolves exactly when it lies in `1..n` |
| BookingOracle.ResolveIds | qa-challenge-main/tests/BookingDetailsVerify.spec.ts:35-39 | Resolution succeeds exactly when every id is in the map, keeping length and order, with element j being the map's value for id j. Otherwise it fails with the error naming the first missing id, and no partial result |
| BookingOracle.ResolveByPosition | qa-challenge-main/tests/BookingDetailsVerify.spec.ts:30-39 | Through the positional map, resolution succeeds exactly when every id is a position `1..n`, and element j is `bookings[id_j - 1]`. The error names the first id that is not a position |
| JsText.Split | qa-challenge-main/tests/BookingDetailsVerify.spec.ts:68 | `split` on one character returns at least one piece, and no piece contains the separator |
| JsText.JoinSplit | qa-challenge-main/tests/BookingDetailsVerify.spec.ts:68 | Rejoining the pieces of a `split` with the separator gives back the string |
| JsText.SplitJoin | qa-challenge-main/tests/BookingDetailsVerify.spec.ts:68 | Splitting a join of separator-free pieces gives back the pieces |
| JsText.SplitNoSeparator | qa-challenge-main/tests/BookingDetailsVerify.spec.ts:68 | A string without the separator splits into itself alone |
| JsText.SplitAtSeparator | qa-challenge-main/tests/BookingDetailsVerify.spec.ts:68 | Splitting `a + sep + b`, where `a` has no separator, gives `a` followed by the pieces of `b` |
| JsText.SplitThree | qa-challenge-main/tests/BookingDetailsVerify.spec.ts:68 | `a-b-c` with separator-free fields splits into `[a, b, c]` |
| BookingOracle.FormatDate | qa-challenge-main/tests/BookingDetailsVerify.spec.ts:67-70 | `formatDate`. Its result is stated by `FormatDateFields`, `FormatDateIgnoresTime`, `FormatDateRoundTrip` and `FormatDateMissingDay` |
| BookingOracle.SplitDateFields | qa-challenge-main/tests/BookingDetailsVerify.spec.ts:68 | A date `y-m-d` with dash-free fields destructures into year, month and day |
| BookingOracle.FormatDateFields | qa-challenge-main/tests/BookingDetailsVerify.spec.ts:67-70 | `y-m-dT…` formats as `m/d/y` with the fields copied literally: no padding, no time-zone conversion |
| BookingOracle.FormatDateIgnoresTime | qa-challenge-main/tests/BookingDetailsVerify.spec.ts:68 | Everything from the first `T` on has no effect on the result |
| BookingOracle.FormatDateRoundTrip | qa-challenge-main/tests/BookingDetailsVerify.spec.ts:67-70 | For fields without `-`, `T` or `/`, splitting the formatted date on `/` gives back `[m, d, y]` |
| BookingOracle.FormatDateMissingDay | qa-challenge-main/tests/BookingDetailsVerify.spec.ts:68-69 | A date with only two fields prints the missing day as `undefined`, as array destructuring into a template literal does |
| EventCards.DigitRunEnd | qa-challenge-main/tests/EventCards.spec.ts:62 | `\d+` is greedy: the run of digits from a position extends up to the first non-digit |
| EventCards.GroupAtUnique | qa-challenge-main/tests/EventCards.spec.ts:62 | At a given `(` the pattern `\((\d+)\)` matches in at most one way |
| EventCards.GroupEndsDigitRun | qa-challenge-main/tests/EventCards.spec.ts:62 | A match opening at `(` closes exactly where the digits after it end |
| EventCards.FirstGroup | qa-challenge-main/tests/EventCards.spec.ts:62 | The search returns a match of `\((\d+)\)` with no match starting earlier, and returns nothing only when there is no match at all |
| EventCards.BookingCount | qa-challenge-main/tests/EventCards.spec.ts:61-63 | A missing label counts 0. The count is a natural number |
| EventCards.BookingCountFirstGroup | qa-challenge-main/tests/EventCards.spec.ts:62-63 | The count is the value of the digits of the leftmost `(digits)` group, even when later groups exist |
| EventCards.BookingCountNoGroup | qa-challenge-main/tests/EventCards.spec.ts:62-63 | A label with no `(digits)` group counts 0 |
| EventCards.BookingCountOfLabel | qa-challenge-main/tests/EventCards.spec.ts:60-63 | For a label `prefix(digits)rest` whose prefix has no `(`, the count is the value of the digits, whatever `rest` holds |
| EventCards.ViewBookingsTwo | qa-challenge-main/tests/EventCards.spec.ts:60-63 | The label "View Bookings (2)" counts 2 |
| EventCards.ComparesModal | qa-challenge-main/tests/EventCards.spec.ts:65 | The `expectedCount > 0` guard. When it holds is stated by `ComparesModalIff` |
| EventCards.ComparesModalIff | qa-challenge-main/tests/EventCards.spec.ts:63-65 | The modal is opened and compared exactly when the first group contains a non-zero digit, so `(0)` and `(00)` skip it |
| JsText.DigitsValue | qa-challenge-main/tests/EventCards.spec.ts:63 | `Number(match[1])` for a run of ASCII digits, leading zeros allowed. `DecimalRoundTrip` and `CanonicalRoundTrip` tie it to `String`, and `DigitsValuePositive` says when it is positive |
| JsText.DigitsValuePositive | qa-challenge-main/tests/EventCards.spec.ts:63-65 | `Number(digits)` is positive exactly when some digit is not `0` |

## Left out

- Browser I/O is not part of this model: navigation, locators, clicks, waits, modal opening and closing, and the `toContainText`, visibility and count assertions against the page. These include the comparison of the modal's entry count with the oracle's length (BookingDetailsVerify.spec.ts:48 and the count comparison after EventCards.spec.ts:65). The model supplies the expected side of those comparisons.
- Loading the fixtures with `require` is not modelled. The three collections are parameters.
- Only the booking fields the test reads are modelled. The other fields of rooming lists (agreement type, cut-off date, status) are not.
- Every rooming list is assumed to carry a string `rfpName`, and every booking record is assumed to be a truthy object. So `!booking` fails only for a missing key.
- BookingOracle.JsonId: numeric ids are integers of magnitude at most 2^53. Above 2^53, JavaScript's `String` prints the shortest digits that round-trip the double and pads them with zeros, while the model spells the exact integer. For such ids, comparison against a string id and the text of the not-found error can therefore differ. The spelling of fractional, exponent-form or non-finite numbers is not modelled either.
- JsText.DigitsValue: `Number(digits)` is exact. The rounding of IEEE-754 doubles for runs of more than 15 digits is not modelled.
- Strings are sequences of characters. UTF-16 surrogate pairs are not modelled.
- The other test files are not part of this model: layout responsiveness, visual edge cases, filters and search. They measure pixel geometry or observe filter and search behaviour that lives in the application under test, which is not among these sources.
- Debounce and settling delays are timing and are left out.
