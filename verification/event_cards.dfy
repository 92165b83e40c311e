/**
 * The booking count of an event card: the first `(digits)` group of the
 * "View Bookings" button label, as `label?.match(/\((\d+)\)/)` finds it,
 * read as a number; 0 when the label is missing or has no such group. The
 * modal is compared against the count only when the count is positive.
 */
module EventCards {
  import opened Wrappers
  import opened JsText

  /** The end of the longest run of digits starting at `i`. */
  function DigitRunEnd(s: string, i: nat): (j: nat)
    requires i <= |s|
    ensures i <= j <= |s|
    ensures AllDigits(s[i..j])
    ensures j < |s| ==> !IsDigit(s[j])
    decreases |s| - i
  {
    if i < |s| && IsDigit(s[i]) then
      var j := DigitRunEnd(s, i + 1);
      assert s[i..j] == [s[i]] + s[i + 1..j];
      j
    else
      i
  }

  /** A match of `\((\d+)\)` with '(' at `i` and ')' at `j`; the captured digits are `s[i + 1..j]`. */
  predicate GroupAt(s: string, i: nat, j: nat) {
    i + 1 < j < |s| && s[i] == '(' && AllDigits(s[i + 1..j]) && s[j] == ')'
  }

  /** At a given '(' there is at most one match: the digits run up to the first non-digit. */
  lemma GroupAtUnique(s: string, i: nat, j: nat, j': nat)
    requires GroupAt(s, i, j) && GroupAt(s, i, j')
    ensures j == j'
  {
  }

  /** A match that opens at `i` closes exactly where the run of digits after `i` ends. */
  lemma GroupEndsDigitRun(s: string, i: nat)
    requires i < |s|
    ensures forall j: nat :: GroupAt(s, i, j) ==> j == DigitRunEnd(s, i + 1)
  {
    forall j: nat | GroupAt(s, i, j) ensures j == DigitRunEnd(s, i + 1) {
      var e := DigitRunEnd(s, i + 1);
      assert !IsDigit(s[j]);
      assert forall k :: i + 1 <= k < j ==> IsDigit(s[k]) by {
        forall k | i + 1 <= k < j ensures IsDigit(s[k]) { assert s[i + 1..j][k - i - 1] == s[k]; }
      }
      assert forall k :: i + 1 <= k < e ==> IsDigit(s[k]) by {
        forall k | i + 1 <= k < e ensures IsDigit(s[k]) { assert s[i + 1..e][k - i - 1] == s[k]; }
      }
    }
  }

  /** The leftmost match starting at or after `from`, as the regular expression engine finds it. */
  function FirstGroup(s: string, from: nat): (r: Option<(nat, nat)>)
    requires from <= |s|
    ensures r.Some? ==> from <= r.value.0 && GroupAt(s, r.value.0, r.value.1)
    ensures forall i, j :: from <= i && (r.Some? ==> i < r.value.0) ==> !GroupAt(s, i, j)
    decreases |s| - from
  {
    if from == |s| then None
    else
      var j := if s[from] == '(' then DigitRunEnd(s, from + 1) else from;
      if s[from] == '(' && from + 1 < j < |s| && s[j] == ')' then
        Some((from, j))
      else
        var r := FirstGroup(s, from + 1);
        GroupEndsDigitRun(s, from);
        r
  }

  /** `match ? Number(match[1]) : 0` for the label's text content; a missing label counts 0. */
  function BookingCount(text: Option<string>): (count: nat)
    ensures text.None? ==> count == 0
  {
    match text
    case None => 0
    case Some(s) =>
      match FirstGroup(s, 0)
      case None => 0
      case Some((i, j)) => DigitsValue(s[i + 1..j])
  }

  /** The leftmost `(digits)` group decides the count: its digits read as a number. */
  lemma BookingCountFirstGroup(s: string, i: nat, j: nat)
    requires GroupAt(s, i, j)
    requires forall i': nat, j': nat :: i' < i ==> !GroupAt(s, i', j')
    ensures BookingCount(Some(s)) == DigitsValue(s[i + 1..j])
  {
    var r := FirstGroup(s, 0);
    assert r.Some?;
    assert r.value.0 == i;
    GroupAtUnique(s, i, j, r.value.1);
  }

  /** A label without a `(digits)` group counts 0. */
  lemma BookingCountNoGroup(s: string)
    requires forall i, j :: !GroupAt(s, i, j)
    ensures BookingCount(Some(s)) == 0
  {
    assert FirstGroup(s, 0).None?;
  }

  /** `expectedCount > 0`: whether the test opens the modal and compares counts. */
  predicate ComparesModal(text: Option<string>) {
    BookingCount(text) > 0
  }

  /** Where the parts of `prefix(digits)rest` sit: the group right after `prefix` is the leftmost one. */
  lemma LabelLayout(prefix: string, digits: string, rest: string, s: string)
    requires '(' !in prefix
    requires |digits| >= 1 && AllDigits(digits)
    requires s == prefix + ['('] + digits + [')'] + rest
    ensures GroupAt(s, |prefix|, |prefix| + 1 + |digits|)
    ensures s[|prefix| + 1..|prefix| + 1 + |digits|] == digits
    ensures forall i: nat, j: nat :: i < |prefix| ==> !GroupAt(s, i, j)
  {
    var tail := ['('] + digits + [')'] + rest;
    assert s == prefix + tail;
    var i := |prefix|;
    var j := |prefix| + 1 + |digits|;
    assert s[i..] == tail;
    assert tail[1..1 + |digits|] == digits;
    assert s[i + 1..j] == tail[1..1 + |digits|];
    assert forall k :: 0 <= k < i ==> s[k] == prefix[k];
  }

  /**
   * A label whose first '(' opens a group of digits yields the value of those
   * digits, whatever follows (later groups included).
   */
  lemma BookingCountOfLabel(prefix: string, digits: string, rest: string)
    requires '(' !in prefix
    requires |digits| >= 1 && AllDigits(digits)
    ensures BookingCount(Some(prefix + ['('] + digits + [')'] + rest)) == DigitsValue(digits)
  {
    var s := prefix + ['('] + digits + [')'] + rest;
    LabelLayout(prefix, digits, rest, s);
    var i, j := |prefix|, |prefix| + 1 + |digits|;
    BookingCountFirstGroup(s, i, j);
    assert BookingCount(Some(s)) == DigitsValue(s[i + 1..j]);
    assert s[i + 1..j] == digits;
  }

  /** The example from the test's own comment. */
  lemma ViewBookingsTwo()
    ensures BookingCount(Some("View Bookings (2)")) == 2
  {
    BookingCountOfLabel("View Bookings ", "2", "");
    assert "View Bookings " + ['('] + "2" + [')'] + "" == "View Bookings (2)";
    assert DigitsValue("2") == DigitsValue("") * 10 + 2;
  }

  /** The modal is compared exactly when the first group exists and has a non-zero digit. */
  lemma ComparesModalIff(s: string, i: nat, j: nat)
    requires GroupAt(s, i, j)
    requires forall i': nat, j': nat :: i' < i ==> !GroupAt(s, i', j')
    ensures ComparesModal(Some(s)) <==> exists k :: i + 1 <= k < j && s[k] != '0'
  {
    BookingCountFirstGroup(s, i, j);
    var d := s[i + 1..j];
    DigitsValuePositive(d);
    if exists k :: i + 1 <= k < j && s[k] != '0' {
      var k :| i + 1 <= k < j && s[k] != '0';
      assert d[k - i - 1] == s[k];
    }
    if exists k :: 0 <= k < |d| && d[k] != '0' {
      var k :| 0 <= k < |d| && d[k] != '0';
      assert s[k + i + 1] == d[k];
    }
  }
}
