/**
 Text utilities the scraper relies on implicitly through Python: decimal
 rendering of integers (`str`, `'%02d'`), the lexicographic string order used
 by `cmp`, and left-to-right joining with a separator.
 */
module Strings {

  predicate IsDigit(c: char) {
    '0' <= c <= '9'
  }

  predicate AllDigits(s: string) {
    forall i :: 0 <= i < |s| ==> IsDigit(s[i])
  }

  function DigitValue(c: char): nat
    requires IsDigit(c)
  {
    c as int - '0' as int
  }

  function DigitChar(d: nat): (c: char)
    requires d < 10
    ensures IsDigit(c) && DigitValue(c) == d
  {
    ('0' as int + d) as char
  }

  /** Decimal rendering of a natural number, most significant digit first. */
  function NatToString(n: nat): (s: string)
    ensures 1 <= |s|
    ensures AllDigits(s)
    ensures n < 10 <==> |s| == 1
    decreases n
  {
    if n < 10 then [DigitChar(n)] else NatToString(n / 10) + [DigitChar(n % 10)]
  }

  /** The number denoted by a string of decimal digits (the inverse of `NatToString`). */
  function DigitsValue(s: string): nat
    requires AllDigits(s)
  {
    if |s| == 0 then 0 else 10 * DigitsValue(s[..|s| - 1]) + DigitValue(s[|s| - 1])
  }

  lemma {:induction false} NatToStringRoundTrip(n: nat)
    ensures DigitsValue(NatToString(n)) == n
    decreases n
  {
    if n >= 10 {
      NatToStringRoundTrip(n / 10);
      var s := NatToString(n);
      assert s[..|s| - 1] == NatToString(n / 10);
    }
  }

  /** Python's `str` of an integer: an optional minus sign, then the digits. */
  function IntToString(i: int): (s: string)
    ensures IsIntText(s)
  {
    if i < 0 then "-" + NatToString(-i) else NatToString(i)
  }

  predicate IsIntText(s: string) {
    || (1 <= |s| && AllDigits(s))
    || (2 <= |s| && s[0] == '-' && AllDigits(s[1..]))
  }

  function ParseInt(s: string): int
    requires IsIntText(s)
  {
    if s[0] == '-' then -(DigitsValue(s[1..]) as int) else DigitsValue(s)
  }

  lemma IntToStringRoundTrip(i: int)
    ensures ParseInt(IntToString(i)) == i
  {
    if i < 0 {
      NatToStringRoundTrip(-i);
      assert IntToString(i)[1..] == NatToString(-i);
    } else {
      NatToStringRoundTrip(i);
    }
  }

  /** Python's `'%02d' % m`: the decimal rendering, zero-padded on the left to two characters. */
  function Pad2(m: int): (s: string)
    ensures 0 <= m < 100 ==> |s| == 2 && AllDigits(s) && DigitsValue(s) == m
  {
    if 0 <= m < 10 then
      NatToStringRoundTrip(m);
      "0" + NatToString(m)
    else
      NatToStringRoundTrip(if m < 0 then -m else m);
      IntToString(m)
  }

  /** Left-to-right join: the first part, then `sep` and the next part, and so on. */
  function Join(parts: seq<string>, sep: string): (r: string)
    ensures |parts| == 1 ==> r == parts[0]
  {
    if |parts| == 0 then ""
    else if |parts| == 1 then parts[0]
    else Join(parts[..|parts| - 1], sep) + sep + parts[|parts| - 1]
  }

  /** The textbook right-recursive join, an independent definition of the same string. */
  function JoinFromHead(parts: seq<string>, sep: string): string {
    if |parts| == 0 then ""
    else if |parts| == 1 then parts[0]
    else parts[0] + sep + JoinFromHead(parts[1..], sep)
  }

  lemma {:induction false} JoinAgreesWithHead(parts: seq<string>, sep: string)
    ensures Join(parts, sep) == JoinFromHead(parts, sep)
    decreases |parts|
  {
    if |parts| > 2 {
      var init := parts[..|parts| - 1];
      JoinAgreesWithHead(init, sep);
      JoinAgreesWithHead(parts[1..], sep);
      JoinAgreesWithHead(parts[1..][..|parts| - 2], sep);
      assert init[1..] == parts[1..][..|parts| - 2];
      assert init[0] == parts[0];
      assert parts[1..][|parts| - 2] == parts[|parts| - 1];
    }
  }

  lemma JoinPair(x: string, y: string, sep: string)
    ensures Join([x, y], sep) == x + sep + y
  {
    assert [x, y][..1] == [x];
  }

  /** Appending one part extends the joined string by the separator and that part. */
  lemma JoinSnoc(parts: seq<string>, sep: string, last: string)
    requires 0 < |parts|
    ensures Join(parts + [last], sep) == Join(parts, sep) + sep + last
  {
    assert (parts + [last])[..|parts|] == parts;
  }

  /**
   Python's ordering of strings: character by character by code point, a
   proper prefix sorting before the longer string.
   */
  predicate LexLe(a: string, b: string)
    decreases |a|
  {
    |a| == 0 || (0 < |b| && (a[0] < b[0] || (a[0] == b[0] && LexLe(a[1..], b[1..]))))
  }

  lemma {:induction false} LexLeReflexive(a: string)
    ensures LexLe(a, a)
    decreases |a|
  {
    if 0 < |a| {
      LexLeReflexive(a[1..]);
    }
  }

  lemma {:induction false} LexLeTotal(a: string, b: string)
    ensures LexLe(a, b) || LexLe(b, a)
    decreases |a|
  {
    if 0 < |a| && 0 < |b| && a[0] == b[0] {
      LexLeTotal(a[1..], b[1..]);
    }
  }

  lemma {:induction false} LexLeAntisymmetric(a: string, b: string)
    requires LexLe(a, b) && LexLe(b, a)
    ensures a == b
    decreases |a|
  {
    if 0 < |a| {
      LexLeAntisymmetric(a[1..], b[1..]);
      assert a == [a[0]] + a[1..];
      assert b == [b[0]] + b[1..];
    }
  }

  lemma {:induction false} LexLeTransitive(a: string, b: string, c: string)
    requires LexLe(a, b) && LexLe(b, c)
    ensures LexLe(a, c)
    decreases |a|
  {
    if 0 < |a| && a[0] == b[0] && b[0] == c[0] {
      LexLeTransitive(a[1..], b[1..], c[1..]);
    }
  }
}
