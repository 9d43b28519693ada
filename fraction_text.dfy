/** str(): the text "<numerator>/<denominator>" in decimal, with a leading
    '-' on a negative numerator. A parser for the same format is its
    partner: parsing what str() prints gives the fraction back, so two
    different fractions never print alike. */
module FractionText {
  import opened Fractions

  datatype Option<T> = None | Some(value: T)

  predicate IsDigit(c: char) {
    '0' <= c <= '9'
  }

  function DigitChar(d: nat): (c: char)
    requires d < 10
    ensures IsDigit(c) && c as int - '0' as int == d
  {
    "0123456789"[d]
  }

  /** The decimal digits of n, most significant first, without leading zeros. */
  function NatToString(n: nat): (s: string)
    ensures |s| > 0 && forall i :: 0 <= i < |s| ==> IsDigit(s[i])
    ensures n > 0 <==> s[0] != '0'
    ensures n < 10 <==> |s| == 1
  {
    if n < 10 then [DigitChar(n)] else NatToString(n / 10) + [DigitChar(n % 10)]
  }

  function IntToString(i: int): (s: string)
    ensures |s| > 0 && (i < 0 <==> s[0] == '-')
  {
    if i < 0 then "-" + NatToString(-i) else NatToString(i)
  }

  /** str() */
  function Str(f: Fraction): string {
    IntToString(f.num) + "/" + IntToString(f.den)
  }

  // ----- the parser ------------------------------------------------------------

  /** The number a string of decimal digits denotes. */
  function DigitsValue(s: string): nat
    requires forall i :: 0 <= i < |s| ==> IsDigit(s[i])
  {
    if |s| == 0 then 0
    else
      assert IsDigit(s[|s| - 1]);
      DigitsValue(s[..|s| - 1]) * 10 + (s[|s| - 1] as int - '0' as int)
  }

  function ParseNat(s: string): Option<nat> {
    if |s| > 0 && forall i :: 0 <= i < |s| ==> IsDigit(s[i]) then Some(DigitsValue(s)) else None
  }

  function ParseInt(s: string): Option<int> {
    if |s| > 0 && s[0] == '-' then
      match ParseNat(s[1..])
      case Some(n) => Some(-(n as int))
      case None => None
    else
      match ParseNat(s)
      case Some(n) => Some(n as int)
      case None => None
  }

  /** The position of the first c in s, if any. */
  function Find(s: string, c: char): (r: Option<nat>)
    ensures r.Some? ==> r.value < |s| && s[r.value] == c && forall i :: 0 <= i < r.value ==> s[i] != c
    ensures r.None? ==> forall i :: 0 <= i < |s| ==> s[i] != c
  {
    if |s| == 0 then None
    else if s[0] == c then Some(0)
    else
      match Find(s[1..], c)
      case Some(k) => Some(k + 1)
      case None => None
  }

  /** Reads "<int>/<int>" back into a fraction. */
  function ParseFraction(s: string): Option<Fraction> {
    match Find(s, '/')
    case None => None
    case Some(k) =>
      match (ParseInt(s[..k]), ParseInt(s[k + 1..]))
      case (Some(n), Some(d)) => Some(Fraction(n, d))
      case _ => None
  }

  // ----- round trips -------------------------------------------------------------

  lemma {:induction false} NatRoundTrip(n: nat)
    ensures ParseNat(NatToString(n)) == Some(n)
  {
    var s := NatToString(n);
    if n >= 10 {
      NatRoundTrip(n / 10);
      var p := NatToString(n / 10);
      assert s[..|s| - 1] == p;
      assert DigitsValue(s) == DigitsValue(p) * 10 + n % 10;
    }
  }

  lemma IntRoundTrip(i: int)
    ensures ParseInt(IntToString(i)) == Some(i)
  {
    if i < 0 {
      NegRoundTrip(i);
    } else {
      PosRoundTrip(i);
    }
  }

  lemma NegRoundTrip(i: int)
    requires i < 0
    ensures ParseInt(IntToString(i)) == Some(i)
  {
    var s := NatToString(-i);
    NatRoundTrip(-i);
    assert ("-" + s)[1..] == s;
  }

  lemma PosRoundTrip(i: int)
    requires i >= 0
    ensures ParseInt(IntToString(i)) == Some(i)
  {
    var s := NatToString(i);
    NatRoundTrip(i);
    assert IsDigit(s[0]);
  }

  /** No '/' occurs in the text of an integer. */
  lemma NoSlash(i: int)
    ensures forall k :: 0 <= k < |IntToString(i)| ==> IntToString(i)[k] != '/'
  {
    if i < 0 {
      var t := NatToString(-i);
      assert forall k :: 1 <= k < |IntToString(i)| ==> IntToString(i)[k] == t[k - 1];
    }
  }

  /** Parsing the text str() prints gives the fraction back. */
  lemma StrRoundTrip(f: Fraction)
    ensures ParseFraction(Str(f)) == Some(f)
  {
    var a, b := IntToString(f.num), IntToString(f.den);
    var s := Str(f);
    NoSlash(f.num);
    assert s[|a|] == '/';
    assert forall i :: 0 <= i < |a| ==> s[i] == a[i];
    assert Find(s, '/') == Some(|a|);
    assert s[..|a|] == a;
    assert s[|a| + 1..] == b;
    IntRoundTrip(f.num);
    IntRoundTrip(f.den);
  }

  /** Different fractions print differently. */
  lemma StrInjective(x: Fraction, y: Fraction)
    requires Str(x) == Str(y)
    ensures x == y
  {
    StrRoundTrip(x);
    StrRoundTrip(y);
  }
}
