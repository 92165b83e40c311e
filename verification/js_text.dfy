/**
 * The JavaScript string built-ins that the test scripts rely on, stated over
 * `string` (a sequence of characters):
 *  - `String(n)` for an integer `n` (decimal spelling),
 *  - `Number(d)` for a run of ASCII digits `d`,
 *  - `s.split(c)` for a one-character separator, and its inverse `join`,
 *  - `s.trim()`.
 */
module JsText {
  import opened Wrappers

  // ---------------------------------------------------------------------------
  // Digits and decimal numerals
  // ---------------------------------------------------------------------------

  /** The ASCII digits, which is what `\d` matches in a regular expression. */
  predicate IsDigit(c: char) {
    '0' <= c <= '9'
  }

  predicate AllDigits(s: string) {
    forall k :: 0 <= k < |s| ==> IsDigit(s[k])
  }

  function DigitChar(d: nat): (c: char)
    requires d < 10
    ensures IsDigit(c)
  {
    (48 + d) as char
  }

  function DigitValue(c: char): (d: nat)
    requires IsDigit(c)
    ensures d < 10
  {
    c as int - 48
  }

  /** The value of a run of digits, leading zeros allowed: `Number("007") == 7`. */
  function DigitsValue(s: string): nat
    requires AllDigits(s)
  {
    if s == [] then 0 else DigitsValue(s[..|s| - 1]) * 10 + DigitValue(s[|s| - 1])
  }

  /** `String(n)` for a natural number up to 2^53: its decimal spelling, without leading zeros. */
  function Decimal(n: nat): string
  {
    if n < 10 then [DigitChar(n)] else Decimal(n / 10) + [DigitChar(n % 10)]
  }

  /** `String(n)` for an integer up to 2^53 in magnitude. */
  function NumberToString(n: int): string
  {
    if n < 0 then "-" + Decimal(-n) else Decimal(n)
  }

  /** A decimal spelling as `String` produces it: digits only, no leading zero unless it is "0". */
  predicate IsCanonical(s: string) {
    |s| >= 1 && AllDigits(s) && (|s| == 1 || s[0] != '0')
  }

  /** The natural number whose `String` spelling is `s`, if there is one. */
  function ParseCanonical(s: string): Option<nat>
  {
    if IsCanonical(s) then Some(DigitsValue(s)) else None
  }

  /** Every decimal spelling is canonical and denotes the number spelled. */
  lemma {:induction false} DecimalRoundTrip(n: nat)
    ensures IsCanonical(Decimal(n))
    ensures DigitsValue(Decimal(n)) == n
    ensures ParseCanonical(Decimal(n)) == Some(n)
  {
    var s := Decimal(n);
    if n < 10 {
      assert s[..|s| - 1] == [];
    } else {
      DecimalRoundTrip(n / 10);
      var p := Decimal(n / 10);
      assert s == p + [DigitChar(n % 10)];
      assert s[..|s| - 1] == p;
      assert s[0] == p[0];
      if |p| == 1 {
        assert p[0] == DigitChar(n / 10);
      }
    }
  }

  /** A run of digits that does not start with '0' denotes a positive number. */
  lemma {:induction false} LeadingNonZeroIsPositive(s: string)
    requires |s| >= 1 && AllDigits(s) && s[0] != '0'
    ensures DigitsValue(s) >= 1
  {
    if |s| > 1 {
      var p := s[..|s| - 1];
      assert p[0] == s[0];
      LeadingNonZeroIsPositive(p);
    }
  }

  /** Every canonical spelling is the decimal spelling of the number it denotes. */
  lemma {:induction false} CanonicalRoundTrip(s: string)
    requires IsCanonical(s)
    ensures Decimal(DigitsValue(s)) == s
  {
    var p := s[..|s| - 1];
    var d := DigitValue(s[|s| - 1]);
    assert DigitChar(d) == s[|s| - 1];
    if |s| == 1 {
      assert p == [];
    } else {
      assert p[0] == s[0];
      LeadingNonZeroIsPositive(p);
      CanonicalRoundTrip(p);
      var v := DigitsValue(s);
      assert v == DigitsValue(p) * 10 + d;
      assert v / 10 == DigitsValue(p) && v % 10 == d;
      assert s == p + [s[|s| - 1]];
    }
  }

  /** Different natural numbers have different decimal spellings. */
  lemma DecimalInjective(x: nat, y: nat)
    ensures Decimal(x) == Decimal(y) ==> x == y
  {
    DecimalRoundTrip(x);
    DecimalRoundTrip(y);
  }

  /** `String` is injective on integers: two integers compare equal as strings only if they are equal. */
  lemma NumberToStringInjective(a: int, b: int)
    ensures NumberToString(a) == NumberToString(b) <==> a == b
  {
    if a >= 0 && b >= 0 {
      DecimalInjective(a, b);
    } else if a < 0 && b < 0 {
      NegativeSpelling(a);
      NegativeSpelling(b);
      DecimalInjective(-a, -b);
    } else {
      ParseNumberToString(a);
      ParseNumberToString(b);
    }
  }

  lemma NegativeSpelling(n: int)
    requires n < 0
    ensures NumberToString(n)[1..] == Decimal(-n)
  {
    assert NumberToString(n) == "-" + Decimal(-n);
  }

  /** Reading back `String(n)` gives `n` for non-negative `n`; a negative spelling starts with '-' and reads as nothing. */
  lemma ParseNumberToString(n: int)
    ensures ParseCanonical(NumberToString(n)) == if n >= 0 then Some(n) else None
  {
    if n >= 0 {
      DecimalRoundTrip(n);
    } else {
      assert NumberToString(n)[0] == '-';
    }
  }

  /** A string reads as `k` exactly when it is the decimal spelling of `k`. */
  lemma ParseCanonicalIff(s: string, k: nat)
    ensures ParseCanonical(s) == Some(k) <==> s == Decimal(k)
  {
    DecimalRoundTrip(k);
    if ParseCanonical(s) == Some(k) {
      CanonicalRoundTrip(s);
    }
  }

  /** A run of digits has a positive value exactly when one of its digits is not '0'. */
  lemma {:induction false} DigitsValuePositive(s: string)
    requires AllDigits(s)
    ensures DigitsValue(s) > 0 <==> exists k :: 0 <= k < |s| && s[k] != '0'
  {
    if s != [] {
      var p := s[..|s| - 1];
      DigitsValuePositive(p);
      if DigitsValue(s) > 0 {
        if DigitsValue(p) > 0 {
          var k :| 0 <= k < |p| && p[k] != '0';
          assert s[k] == p[k];
        } else {
          assert s[|s| - 1] != '0';
        }
      } else {
        forall k | 0 <= k < |s| ensures s[k] == '0' {
          if k < |p| {
            assert s[k] == p[k];
          }
        }
      }
    }
  }

  // ---------------------------------------------------------------------------
  // split and join on a one-character separator
  // ---------------------------------------------------------------------------

  /**
   * `s.split(sep)` for a one-character separator: the pieces between
   * consecutive separators, in order; `"".split(sep)` is `[""]`.
   */
  function Split(s: string, sep: char): (parts: seq<string>)
    ensures |parts| >= 1
    ensures forall k :: 0 <= k < |parts| ==> sep !in parts[k]
  {
    if s == [] then [[]]
    else
      var rest := Split(s[1..], sep);
      if s[0] == sep then [[]] + rest
      else [[s[0]] + rest[0]] + rest[1..]
  }

  /** `parts.join(sep)`. */
  function Join(parts: seq<string>, sep: char): string
    requires |parts| >= 1
  {
    if |parts| == 1 then parts[0] else parts[0] + [sep] + Join(parts[1..], sep)
  }

  /** Joining the pieces of a split gives back the string. */
  lemma {:induction false} JoinSplit(s: string, sep: char)
    ensures Join(Split(s, sep), sep) == s
  {
    if s != [] {
      var rest := Split(s[1..], sep);
      JoinSplit(s[1..], sep);
      if s[0] == sep {
        assert ([[]] + rest)[1..] == rest;
        assert s == [sep] + s[1..];
      } else {
        var parts := [[s[0]] + rest[0]] + rest[1..];
        if |rest| == 1 {
          assert s == [s[0]] + rest[0];
        } else {
          assert parts[1..] == rest[1..];
          assert Join(rest, sep) == rest[0] + [sep] + Join(rest[1..], sep);
          assert s == [s[0]] + s[1..];
        }
      }
    }
  }

  /** Splitting a string that starts with a separator-free prefix `a` glues `a` onto the first piece. */
  lemma {:induction false} SplitPrefix(a: string, t: string, sep: char)
    requires sep !in a
    ensures Split(a + t, sep) == [a + Split(t, sep)[0]] + Split(t, sep)[1..]
  {
    if a == [] {
      assert a + t == t;
      assert a + Split(t, sep)[0] == Split(t, sep)[0];
      assert Split(t, sep) == [Split(t, sep)[0]] + Split(t, sep)[1..];
    } else {
      assert (a + t)[1..] == a[1..] + t;
      assert sep !in a[1..] by {
        forall k | 0 <= k < |a[1..]| ensures a[1..][k] != sep { assert a[1..][k] == a[k + 1]; }
      }
      SplitPrefix(a[1..], t, sep);
      assert a[0] != sep;
      assert [a[0]] + (a[1..] + Split(t, sep)[0]) == a + Split(t, sep)[0];
    }
  }

  /** A separator-free string splits into itself. */
  lemma SplitNoSeparator(a: string, sep: char)
    requires sep !in a
    ensures Split(a, sep) == [a]
  {
    SplitPrefix(a, [], sep);
    assert a + [] == a;
  }

  /** A separator-free prefix followed by a separator becomes the first piece. */
  lemma SplitAtSeparator(a: string, b: string, sep: char)
    requires sep !in a
    ensures Split(a + [sep] + b, sep) == [a] + Split(b, sep)
  {
    assert a + [sep] + b == a + ([sep] + b);
    SplitPrefix(a, [sep] + b, sep);
    assert ([sep] + b)[1..] == b;
    assert Split([sep] + b, sep) == [[]] + Split(b, sep);
    assert a + [] == a;
  }

  /** Three separator-free fields joined by the separator split back into those fields. */
  lemma SplitThree(a: string, b: string, c: string, sep: char)
    requires sep !in a && sep !in b && sep !in c
    ensures Split(a + [sep] + b + [sep] + c, sep) == [a, b, c]
  {
    SplitNoSeparator(c, sep);
    SplitAtSeparator(b, c, sep);
    assert a + [sep] + b + [sep] + c == a + [sep] + (b + [sep] + c);
    SplitAtSeparator(a, b + [sep] + c, sep);
  }

  /** Splitting a join of separator-free pieces gives back the pieces. */
  lemma {:induction false} SplitJoin(parts: seq<string>, sep: char)
    requires |parts| >= 1
    requires forall k :: 0 <= k < |parts| ==> sep !in parts[k]
    ensures Split(Join(parts, sep), sep) == parts
  {
    if |parts| == 1 {
      SplitNoSeparator(parts[0], sep);
    } else {
      SplitJoin(parts[1..], sep);
      SplitAtSeparator(parts[0], Join(parts[1..], sep), sep);
      assert parts == [parts[0]] + parts[1..];
    }
  }

  // ---------------------------------------------------------------------------
  // trim
  // ---------------------------------------------------------------------------

  /**
   * The characters `trim` removes: ECMAScript WhiteSpace (tab, vertical tab,
   * form feed, space, no-break space, byte order mark and the other Unicode
   * space separators) and LineTerminator (line feed, carriage return, line
   * and paragraph separators).
   */
  predicate IsJsWhitespace(c: char) {
    || c == '\t' || c == '\n' || c == '\U{000B}' || c == '\U{000C}' || c == '\r' || c == ' '
    || c == '\U{00A0}' || c == '\U{1680}' || ('\U{2000}' <= c <= '\U{200A}')
    || c == '\U{2028}' || c == '\U{2029}' || c == '\U{202F}' || c == '\U{205F}'
    || c == '\U{3000}' || c == '\U{FEFF}'
  }

  predicate AllWhitespace(s: string) {
    forall k :: 0 <= k < |s| ==> IsJsWhitespace(s[k])
  }

  /** `trimStart`: the suffix left after dropping leading whitespace. */
  function TrimStart(s: string): (r: string)
    ensures |r| <= |s| && r == s[|s| - |r|..]
    ensures AllWhitespace(s[..|s| - |r|])
    ensures r == [] || !IsJsWhitespace(r[0])
  {
    if s != [] && IsJsWhitespace(s[0]) then
      var r := TrimStart(s[1..]);
      assert s[..|s| - |r|] == [s[0]] + s[1..][..|s[1..]| - |r|];
      r
    else
      s
  }

  /** `trimEnd`: the prefix left after dropping trailing whitespace. */
  function TrimEnd(s: string): (r: string)
    ensures |r| <= |s| && r == s[..|r|]
    ensures AllWhitespace(s[|r|..])
    ensures r == [] || !IsJsWhitespace(r[|r| - 1])
  {
    if s != [] && IsJsWhitespace(s[|s| - 1]) then
      var r := TrimEnd(s[..|s| - 1]);
      assert s[|r|..] == s[..|s| - 1][|r|..] + [s[|s| - 1]];
      r
    else
      s
  }

  /** `trim`: the middle of `s`, with whitespace removed from both ends and nothing else changed. */
  function Trim(s: string): (r: string)
    ensures exists i :: 0 <= i <= |s| - |r| && r == s[i..i + |r|] && AllWhitespace(s[..i]) && AllWhitespace(s[i + |r|..])
    ensures r == [] || (!IsJsWhitespace(r[0]) && !IsJsWhitespace(r[|r| - 1]))
  {
    var t := TrimStart(s);
    var r := TrimEnd(t);
    TrimSlices(s, t, r);
    r
  }

  lemma TrimSlices(s: string, t: string, r: string)
    requires |t| <= |s| && t == s[|s| - |t|..] && AllWhitespace(s[..|s| - |t|])
    requires |r| <= |t| && r == t[..|r|] && AllWhitespace(t[|r|..])
    ensures var i := |s| - |t|;
            0 <= i <= |s| - |r| && r == s[i..i + |r|] && AllWhitespace(s[..i]) && AllWhitespace(s[i + |r|..])
  {
    var i := |s| - |t|;
    assert s[i + |r|..] == t[|r|..];
  }

  /** Trimming twice is trimming once. */
  lemma TrimIdempotent(s: string)
    ensures Trim(Trim(s)) == Trim(s)
  {
    var r := Trim(s);
    assert TrimStart(r) == r;
    assert TrimEnd(r) == r;
  }
}
