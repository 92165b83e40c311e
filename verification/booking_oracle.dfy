/**
 * The booking oracle of the "View Bookings" detail test: from the three
 * fixture collections (rooming lists, bookings and the join rows between
 * them) it works out which bookings a rooming-list card must show, in which
 * order, and how their dates are displayed.
 *
 * The fixtures are passed in as sequences. Every booking is identified by its
 * 1-based position in the bookings collection; ids in the fixtures may be
 * numbers or strings and are always compared through their `String` spelling.
 */
module BookingOracle {
  import opened Wrappers
  import opened JsText
  import opened JsArray

  /** A JSON id field: a number or a string. */
  datatype JsonId = Num(n: int) | Text(s: string)

  datatype RoomingList = RoomingList(roomingListId: JsonId, rfpName: string)

  datatype Booking = Booking(guestName: string, guestPhoneNumber: string, checkInDate: string, checkOutDate: string)

  /** A row of the rooming-list/booking join collection. */
  datatype JoinRow = JoinRow(roomingListId: JsonId, bookingId: JsonId)

  /** The two ways the oracle fails: the failed expectation on the lookup, and the thrown error on a dangling id. */
  datatype OracleError =
    | RoomingListNotFound(rfpName: Option<string>)
    | BookingIdNotFound(bookingId: string)

  /** `String(id)`. */
  function IdText(id: JsonId): string
  {
    match id
    case Num(n) => NumberToString(n)
    case Text(s) => s
  }

  /** Two numeric ids are equal as strings exactly when they are equal as numbers. */
  lemma NumericIdsCompareByValue(a: int, b: int)
    ensures IdText(Num(a)) == IdText(Num(b)) <==> a == b
  {
    NumberToStringInjective(a, b);
  }

  /** A numeric id and a string id are equal as strings exactly when the string spells the number. */
  lemma MixedIdsCompareBySpelling(n: nat, s: string)
    ensures IdText(Num(n)) == IdText(Text(s)) <==> ParseCanonical(s) == Some(n)
  {
    ParseCanonicalIff(s, n);
  }

  // ---------------------------------------------------------------------------
  // Name normalisation: rawName?.replace(/^[\[]|[\]]$/g, '').trim()
  // ---------------------------------------------------------------------------

  /** Removes one '[' at the very start and one ']' at the very end, if present. */
  function StripBrackets(s: string): (r: string)
    ensures r == s || (|s| >= 1 && (r == s[1..] || r == s[..|s| - 1])) || (|s| >= 2 && r == s[1..|s| - 1])
  {
    var t := if s != [] && s[0] == '[' then s[1..] else s;
    if t != [] && t[|t| - 1] == ']' then t[..|t| - 1] else t
  }

  /**
   * Every string is `lead + x + trail` with `lead` the optional opening bracket
   * and `trail` the optional closing one; stripping gives back `x`, whatever
   * brackets `x` holds inside.
   */
  lemma StripBracketsLaw(lead: string, x: string, trail: string)
    requires lead == "" || lead == "["
    requires trail == "" || trail == "]"
    requires lead == "" && x != [] ==> x[0] != '['
    requires trail == "" && x != [] ==> x[|x| - 1] != ']'
    ensures StripBrackets(lead + x + trail) == x
  {
    var s := lead + x + trail;
    var t := if s != [] && s[0] == '[' then s[1..] else s;
    assert t == x + trail;
  }

  /** The displayed name as the test looks it up; a missing text content stays missing. */
  function NormaliseName(raw: Option<string>): (r: Option<string>)
    ensures r.None? <==> raw.None?
  {
    match raw
    case None => None
    case Some(s) => Some(Trim(StripBrackets(s)))
  }

  /**
   * A name with an optional opening and an optional closing bracket loses
   * exactly those brackets and then its surrounding whitespace.
   */
  lemma NormaliseNameLaw(lead: string, x: string, trail: string)
    requires lead == "" || lead == "["
    requires trail == "" || trail == "]"
    requires lead == "" && x != [] ==> x[0] != '['
    requires trail == "" && x != [] ==> x[|x| - 1] != ']'
    ensures NormaliseName(Some(lead + x + trail)) == Some(Trim(x))
  {
    StripBracketsLaw(lead, x, trail);
  }

  // ---------------------------------------------------------------------------
  // Lookup: roomingLists.find((rl) => rl.rfpName === rfpName)
  // ---------------------------------------------------------------------------

  predicate NameMatches(rl: RoomingList, name: Option<string>) {
    name == Some(rl.rfpName)
  }

  /** The first rooming list whose name is exactly `name`; none when there is no such list or no name. */
  function FindRoomingList(lists: seq<RoomingList>, name: Option<string>): (r: Option<RoomingList>)
    ensures r.None? <==> forall i :: 0 <= i < |lists| ==> !NameMatches(lists[i], name)
    ensures r.Some? ==> exists i :: 0 <= i < |lists| && lists[i] == r.value && NameMatches(r.value, name)
                          && forall j :: 0 <= j < i ==> !NameMatches(lists[j], name)
  {
    Find(lists, rl => NameMatches(rl, name))
  }

  // ---------------------------------------------------------------------------
  // Join filtering: rows with a matching roomingListId, mapped to String(bookingId)
  // ---------------------------------------------------------------------------

  predicate JoinMatches(row: JoinRow, target: JsonId) {
    IdText(row.roomingListId) == IdText(target)
  }

  /** The filter callback: `(r) => String(r.roomingListId) === String(roomingListId)`. */
  function LinkedTo(target: JsonId): (p: JoinRow -> bool)
    ensures forall row :: p(row) == JoinMatches(row, target)
  {
    row => JoinMatches(row, target)
  }

  /** The map callback: `(r) => String(r.bookingId)`. */
  function BookingIdText(row: JoinRow): string
  {
    IdText(row.bookingId)
  }

  /** The `String` spellings of the booking ids linked to `target`, in join-row order. */
  function LinkedBookingIds(rows: seq<JoinRow>, target: JsonId): seq<string>
  {
    Map(Filter(rows, LinkedTo(target)), BookingIdText)
  }

  /** The number of join rows linked to `target`. */
  function MatchCount(rows: seq<JoinRow>, target: JsonId): nat
  {
    |PositionsWhere(rows, LinkedTo(target))|
  }

  /** The ids of two blocks of rows come out block by block: join-row order is kept. */
  lemma LinkedBookingIdsAppend(a: seq<JoinRow>, b: seq<JoinRow>, target: JsonId)
    ensures LinkedBookingIds(a + b, target) == LinkedBookingIds(a, target) + LinkedBookingIds(b, target)
  {
    FilterAppend(a, b, LinkedTo(target));
    MapAppend(Filter(a, LinkedTo(target)), Filter(b, LinkedTo(target)), BookingIdText);
  }

  /** A single row contributes its booking id exactly when it matches. */
  lemma LinkedBookingIdsOfRow(row: JoinRow, target: JsonId)
    ensures LinkedBookingIds([row], target) == if JoinMatches(row, target) then [IdText(row.bookingId)] else []
  {
    assert [row][1..] == [];
  }

  /** An id is linked exactly when some matching row carries it. */
  lemma LinkedBookingIdsMembers(rows: seq<JoinRow>, target: JsonId, id: string)
    ensures id in LinkedBookingIds(rows, target) <==>
            exists row :: row in rows && JoinMatches(row, target) && IdText(row.bookingId) == id
  {
    var p := LinkedTo(target);
    var kept := Filter(rows, p);
    if id in LinkedBookingIds(rows, target) {
      var k :| 0 <= k < |kept| && LinkedBookingIds(rows, target)[k] == id;
      FilterMembers(rows, p, kept[k]);
    }
    if exists row :: row in rows && JoinMatches(row, target) && IdText(row.bookingId) == id {
      var row :| row in rows && JoinMatches(row, target) && IdText(row.bookingId) == id;
      FilterMembers(rows, p, row);
      var k :| 0 <= k < |kept| && kept[k] == row;
      assert LinkedBookingIds(rows, target)[k] == id;
    }
  }

  /** There are as many linked ids as there are matching join rows. */
  lemma LinkedBookingIdsCount(rows: seq<JoinRow>, target: JsonId)
    ensures |LinkedBookingIds(rows, target)| == MatchCount(rows, target)
  {
    FilterCount(rows, LinkedTo(target));
  }

  // ---------------------------------------------------------------------------
  // The positional id map: bookingIdMap.set(String(i + 1), bookings[i])
  // ---------------------------------------------------------------------------

  /** `key` is the spelling of a position 1..n. */
  predicate IsPositionalKey(key: string, n: nat) {
    ParseCanonical(key).Some? && 1 <= ParseCanonical(key).value <= n
  }

  /** A string id resolves exactly when it spells a position 1..n: "01" or "+1" or " 1" never do. */
  lemma PositionalKeyIsSpelling(key: string, n: nat)
    ensures IsPositionalKey(key, n) <==> exists k :: 1 <= k <= n && key == Decimal(k)
  {
    if IsPositionalKey(key, n) {
      ParseCanonicalIff(key, ParseCanonical(key).value);
    }
    if exists k :: 1 <= k <= n && key == Decimal(k) {
      var k :| 1 <= k <= n && key == Decimal(k);
      DecimalRoundTrip(k);
    }
  }

  /** A numeric booking id resolves exactly when it lies in 1..n. */
  lemma NumericIdIsPositional(id: int, n: nat)
    ensures IsPositionalKey(IdText(Num(id)), n) <==> 1 <= id <= n
  {
    ParseNumberToString(id);
  }

  /** Builds the map from `String(k)` to `bookings[k - 1]`, for every position k. */
  method BuildBookingIdMap(bookings: seq<Booking>) returns (byId: map<string, Booking>)
    ensures forall k :: 1 <= k <= |bookings| ==> Decimal(k) in byId && byId[Decimal(k)] == bookings[k - 1]
    ensures forall key :: key in byId ==> IsPositionalKey(key, |bookings|) && byId[key] == bookings[ParseCanonical(key).value - 1]
    ensures forall key :: IsPositionalKey(key, |bookings|) ==> key in byId
  {
    byId := map[];
    var i := 0;
    while i < |bookings|
      invariant 0 <= i <= |bookings|
      invariant forall k :: 1 <= k <= i ==> Decimal(k) in byId && byId[Decimal(k)] == bookings[k - 1]
      invariant forall key :: key in byId ==> IsPositionalKey(key, i) && byId[key] == bookings[ParseCanonical(key).value - 1]
    {
      DecimalRoundTrip(i + 1);
      byId := byId[NumberToString(i + 1) := bookings[i]];
      i := i + 1;
    }
    forall key | IsPositionalKey(key, |bookings|) ensures key in byId {
      CanonicalRoundTrip(key);
    }
  }

  // ---------------------------------------------------------------------------
  // Resolution: linkedBookingIds.map(id => bookingIdMap.get(id) or throw)
  // ---------------------------------------------------------------------------

  /**
   * Looks every id up in order. Succeeds with one booking per id, in the same
   * order, when all are present; otherwise fails naming the first missing id
   * and returns no bookings at all.
   */
  function ResolveIds(ids: seq<string>, byId: map<string, Booking>): (r: Result<seq<Booking>, OracleError>)
    ensures r.Ok? <==> forall j :: 0 <= j < |ids| ==> ids[j] in byId
    ensures r.Ok? ==> |r.value| == |ids| && forall j :: 0 <= j < |ids| ==> r.value[j] == byId[ids[j]]
    ensures r.Err? ==> exists j :: 0 <= j < |ids| && r.error == BookingIdNotFound(ids[j]) && ids[j] !in byId
                          && forall k :: 0 <= k < j ==> ids[k] in byId
  {
    if ids == [] then Ok([])
    else if ids[0] !in byId then Err(BookingIdNotFound(ids[0]))
    else
      var rest := ResolveIds(ids[1..], byId);
      assert forall j :: 1 <= j < |ids| ==> ids[j] == ids[1..][j - 1];
      match rest
      case Ok(bs) => Ok([byId[ids[0]]] + bs)
      case Err(e) => Err(e)
  }

  /** Resolution through the positional map, stated in terms of positions in the bookings collection. */
  lemma ResolveByPosition(ids: seq<string>, byId: map<string, Booking>, bookings: seq<Booking>)
    requires forall key :: key in byId ==> IsPositionalKey(key, |bookings|) && byId[key] == bookings[ParseCanonical(key).value - 1]
    requires forall key :: IsPositionalKey(key, |bookings|) ==> key in byId
    ensures var r := ResolveIds(ids, byId);
            && (r.Ok? <==> forall j :: 0 <= j < |ids| ==> IsPositionalKey(ids[j], |bookings|))
            && (r.Ok? ==> |r.value| == |ids|)
            && (r.Ok? ==> forall j :: 0 <= j < |ids| ==> r.value[j] == bookings[ParseCanonical(ids[j]).value - 1])
            && (r.Err? ==> exists j :: 0 <= j < |ids| && r.error == BookingIdNotFound(ids[j])
                             && !IsPositionalKey(ids[j], |bookings|)
                             && forall k :: 0 <= k < j ==> IsPositionalKey(ids[k], |bookings|))
  {
  }

  // ---------------------------------------------------------------------------
  // The whole oracle for one card
  // ---------------------------------------------------------------------------

  /**
   * The bookings the card named `rawName` must show: the rooming list is the
   * first one with that normalised name; its bookings are those of the
   * matching join rows, in join-row order, each resolved by position.
   */
  method ExpectedBookings(rawName: Option<string>, roomingLists: seq<RoomingList>, joins: seq<JoinRow>, bookings: seq<Booking>)
    returns (r: Result<seq<Booking>, OracleError>)
    ensures FindRoomingList(roomingLists, NormaliseName(rawName)).None? <==> r == Err(RoomingListNotFound(NormaliseName(rawName)))
    ensures FindRoomingList(roomingLists, NormaliseName(rawName)).Some? ==>
              var target := FindRoomingList(roomingLists, NormaliseName(rawName)).value.roomingListId;
              var ids := LinkedBookingIds(joins, target);
              && (r.Ok? <==> forall j :: 0 <= j < |ids| ==> IsPositionalKey(ids[j], |bookings|))
              && (r.Ok? ==> |r.value| == |ids| == MatchCount(joins, target))
              && (r.Ok? ==> forall j :: 0 <= j < |ids| ==> r.value[j] == bookings[ParseCanonical(ids[j]).value - 1])
              && (r.Err? ==> exists j :: 0 <= j < |ids| && r.error == BookingIdNotFound(ids[j])
                               && !IsPositionalKey(ids[j], |bookings|)
                               && forall k :: 0 <= k < j ==> IsPositionalKey(ids[k], |bookings|))
  {
    var rfpName := NormaliseName(rawName);
    var found := FindRoomingList(roomingLists, rfpName);
    if found.None? {
      return Err(RoomingListNotFound(rfpName));
    }
    r := ResolveBookings(found.value.roomingListId, joins, bookings);
  }

  /**
   * The bookings linked to one rooming list: the join rows for its id, in
   * order, each resolved by position; the first dangling id is an error.
   */
  method ResolveBookings(roomingListId: JsonId, joins: seq<JoinRow>, bookings: seq<Booking>)
    returns (r: Result<seq<Booking>, OracleError>)
    ensures var ids := LinkedBookingIds(joins, roomingListId);
            && (r.Ok? <==> forall j :: 0 <= j < |ids| ==> IsPositionalKey(ids[j], |bookings|))
            && (r.Ok? ==> |r.value| == |ids| == MatchCount(joins, roomingListId))
            && (r.Ok? ==> forall j :: 0 <= j < |ids| ==> r.value[j] == bookings[ParseCanonical(ids[j]).value - 1])
            && (r.Err? ==> exists j :: 0 <= j < |ids| && r.error == BookingIdNotFound(ids[j])
                             && !IsPositionalKey(ids[j], |bookings|)
                             && forall k :: 0 <= k < j ==> IsPositionalKey(ids[k], |bookings|))
  {
    var linked := LinkedBookingIds(joins, roomingListId);
    var byId := BuildBookingIdMap(bookings);
    r := ResolveIds(linked, byId);
    ResolveByPosition(linked, byId, bookings);
    LinkedBookingIdsCount(joins, roomingListId);
  }

  // ---------------------------------------------------------------------------
  // formatDate: const [year, month, day] = dateStr.split('T')[0].split('-')
  // ---------------------------------------------------------------------------

  /** An element of an array destructuring; a missing element prints as "undefined" in a template literal. */
  function Field(parts: seq<string>, i: nat): string
  {
    if i < |parts| then parts[i] else "undefined"
  }

  /** `month/day/year` from the text before the first 'T', fields taken literally. */
  function FormatDate(dateStr: string): string
  {
    var fields := Split(Split(dateStr, 'T')[0], '-');
    Field(fields, 1) + "/" + Field(fields, 2) + "/" + Field(fields, 0)
  }

  lemma SplitDateFields(y: string, m: string, d: string)
    requires '-' !in y && '-' !in m && '-' !in d
    ensures Split(y + "-" + m + "-" + d, '-') == [y, m, d]
  {
    SplitThree(y, m, d, '-');
  }

  /** The time part, everything from the first 'T' on, has no effect on the result. */
  lemma FormatDateIgnoresTime(date: string, time: string)
    requires 'T' !in date
    ensures FormatDate(date + "T" + time) == FormatDate(date)
  {
    SplitAtSeparator(date, time, 'T');
    SplitNoSeparator(date, 'T');
  }

  /** `Y-M-DT...` becomes `M/D/Y` with the fields exactly as written: no padding, no time-zone shift. */
  lemma FormatDateFields(y: string, m: string, d: string, time: string)
    requires '-' !in y && '-' !in m && '-' !in d
    requires 'T' !in y && 'T' !in m && 'T' !in d
    ensures FormatDate(y + "-" + m + "-" + d + "T" + time) == m + "/" + d + "/" + y
  {
    var date := y + "-" + m + "-" + d;
    assert 'T' !in date;
    FormatDateIgnoresTime(date, time);
    SplitNoSeparator(date, 'T');
    SplitDateFields(y, m, d);
  }

  /** Splitting the formatted date on '/' gives back month, day and year. */
  lemma FormatDateRoundTrip(y: string, m: string, d: string, time: string)
    requires '-' !in y && '-' !in m && '-' !in d
    requires 'T' !in y && 'T' !in m && 'T' !in d
    requires '/' !in y && '/' !in m && '/' !in d
    ensures Split(FormatDate(y + "-" + m + "-" + d + "T" + time), '/') == [m, d, y]
  {
    FormatDateFields(y, m, d, time);
    SplitThree(m, d, y, '/');
  }

  /** A date with fewer than three fields prints the missing ones as "undefined". */
  lemma FormatDateMissingDay(y: string, m: string, time: string)
    requires '-' !in y && '-' !in m && 'T' !in y && 'T' !in m
    ensures FormatDate(y + "-" + m + "T" + time) == m + "/" + "undefined" + "/" + y
  {
    var date := y + "-" + m;
    assert 'T' !in date;
    FormatDateIgnoresTime(date, time);
    SplitNoSeparator(date, 'T');
    SplitAtSeparator(y, m, '-');
    SplitNoSeparator(m, '-');
    var fields := Split(Split(date, 'T')[0], '-');
    assert fields == [y, m];
  }
}
