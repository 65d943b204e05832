/** The JavaScript string operations the service relies on, over `seq<char>`:
    `lastIndexOf`, `split(sep).pop()`, `substr(0, lastIndexOf(sep))` and the
    decimal rendering of an integer inside a template literal. */
module Strings {

  /** `s.lastIndexOf(c)`: the greatest index holding `c`, or -1 when `c` does not occur. */
  function LastIndexOf(s: string, c: char): (i: int)
    ensures -1 <= i < |s|
    ensures i >= 0 ==> s[i] == c
    ensures forall j :: i < j < |s| ==> s[j] != c
    ensures i == -1 <==> c !in s
    decreases |s|
  {
    if |s| == 0 then -1
    else if s[|s| - 1] == c then |s| - 1
    else LastIndexOf(s[..|s| - 1], c)
  }

  /** `s.split(sep).pop()`: the text after the last `sep`, or all of `s` when
      `sep` does not occur (the split then has a single piece). */
  function LastSegment(s: string, sep: char): (r: string)
    ensures sep !in r
    ensures |r| <= |s| && s[|s| - |r|..] == r
    ensures |r| < |s| ==> s[|s| - |r| - 1] == sep
    ensures |r| == |s| <==> sep !in s
  {
    s[LastIndexOf(s, sep) + 1..]
  }

  /** `s.substr(0, s.lastIndexOf(sep))`: the text before the last `sep`. When
      `sep` does not occur the length argument is -1, which `substr` treats
      as 0, so the result is empty. */
  function BeforeLast(s: string, sep: char): (r: string)
    ensures sep in s ==> s == r + [sep] + LastSegment(s, sep)
    ensures sep !in s ==> r == ""
  {
    var i := LastIndexOf(s, sep);
    if i < 0 then "" else s[..i]
  }

  /** The last segment of a text that ends with `sep` followed by a piece
      free of `sep` is that piece. */
  lemma LastSegmentOfSuffix(p: string, sep: char, t: string)
    requires sep !in t
    ensures LastSegment(p + [sep] + t, sep) == t
  {
    var s := p + [sep] + t;
    assert s[|p|] == sep;
    assert forall j :: |p| < j < |s| ==> s[j] == t[j - |p| - 1];
  }

  /** The text before the last `sep` of `p + [sep] + t`, where `t` is free of `sep`, is `p`. */
  lemma BeforeLastOfSuffix(p: string, sep: char, t: string)
    requires sep !in t
    ensures BeforeLast(p + [sep] + t, sep) == p
  {
    var s := p + [sep] + t;
    LastSegmentOfSuffix(p, sep, t);
    var r := BeforeLast(s, sep);
    assert s == r + [sep] + t;
    assert |r| == |p|;
    assert r == s[..|p|] == p;
  }

  function DigitChar(d: nat): (c: char)
    requires d < 10
    ensures '0' <= c <= '9'
    ensures c as int - '0' as int == d
  {
    ('0' as int + d) as char
  }

  predicate IsDigits(s: string) {
    forall k :: 0 <= k < |s| ==> '0' <= s[k] <= '9'
  }

  /** The decimal digits of `n`, most significant first, without leading zeros. */
  function NatToDecimal(n: nat): (r: string)
    ensures |r| >= 1 && IsDigits(r)
    ensures r[0] == '0' ==> n == 0
    decreases n
  {
    if n < 10 then [DigitChar(n)]
    else NatToDecimal(n / 10) + [DigitChar(n % 10)]
  }

  /** `String(i)` for an integer-valued number: a `-` sign, then the digits
      of the magnitude. */
  function IntToDecimal(i: int): (r: string)
    ensures |r| >= 1
    ensures '.' !in r
    ensures i < 0 <==> r[0] == '-'
  {
    if i < 0 then "-" + NatToDecimal(-i) else NatToDecimal(i)
  }

  /** The rendering of `i` reads back as `i`: the digits of a non-negative
      number denote it, and after the `-` of a negative one the digits
      denote its magnitude. */
  lemma IntToDecimalValue(i: int)
    ensures i >= 0 ==> IsDigits(IntToDecimal(i)) && DecimalValue(IntToDecimal(i)) == i
    ensures i < 0 ==> IsDigits(IntToDecimal(i)[1..]) && DecimalValue(IntToDecimal(i)[1..]) == -i
  {
    if i < 0 {
      DecimalRoundTrip(-i);
      assert IntToDecimal(i)[1..] == NatToDecimal(-i);
    } else {
      DecimalRoundTrip(i);
    }
  }

  /** The number a string of decimal digits denotes; the inverse of the rendering. */
  function DecimalValue(s: string): nat
    requires IsDigits(s)
    decreases |s|
  {
    if |s| == 0 then 0
    else 10 * DecimalValue(s[..|s| - 1]) + (s[|s| - 1] as int - '0' as int)
  }

  /** Rendering a natural number in decimal and reading it back yields it. */
  lemma {:induction false} DecimalRoundTrip(n: nat)
    ensures DecimalValue(NatToDecimal(n)) == n
    decreases n
  {
    if n >= 10 {
      DecimalRoundTrip(n / 10);
      var r := NatToDecimal(n);
      assert r[..|r| - 1] == NatToDecimal(n / 10);
    }
  }
}
