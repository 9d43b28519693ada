/** The 64-bit representation. A Fraction object is taken to hold two
    signed 64-bit integers, numerator and denominator: an inference from
    its size, that of two doubles, not a layout the tests state. The
    compound assignments +=, -=, *= and /= update such an object in place;
    they cross-reduce before multiplying, so that values such as
    1/MAX_INT64 + 2/MAX_INT64 are computed although the plain cross product
    of the denominators does not fit in 64 bits. Every arithmetic step below
    is on int64, so Dafny checks that none of them overflows. */
module FixedWidth {
  import opened NumberTheory
  import opened Fractions
  import opened FractionLaws
  import opened CrossReduction

  const MIN_INT64: int := -0x8000_0000_0000_0000
  const MAX_INT64: int := 0x7FFF_FFFF_FFFF_FFFF

  newtype int64 = x: int | -0x8000_0000_0000_0000 <= x < 0x8000_0000_0000_0000
  newtype uint64 = x: int | 0 <= x < 0x1_0000_0000_0000_0000

  predicate InInt64(x: int) {
    MIN_INT64 <= x <= MAX_INT64
  }

  /** Both parts of f have an int64 form. */
  predicate Fits(f: Fraction) {
    InInt64(f.num) && InInt64(f.den)
  }

  /** |n| as an unsigned value: |MIN_INT64| == 2^63 has no int64 form. */
  function Magnitude(n: int64): (r: uint64)
    ensures r as int == Abs(n as int)
  {
    if n < 0 then (-(n + 1)) as uint64 + 1 else n as uint64
  }

  /** n / g where g divides n exactly, so that truncating and Euclidean
      division agree. g may be 2^63 (the magnitude of MIN_INT64), which
      has no int64 form; n is then MIN_INT64 or 0. */
  function Quotient(n: int64, g: uint64): (q: int64)
    requires Divides(g as int, n as int)
    ensures q as int == n as int / g as int
  {
    if g as int > MAX_INT64 then
      QuotientByLarge(n as int, g as int);
      if n < 0 then -1 else 0
    else
      n / g as int64
  }

  lemma QuotientByLarge(n: int, g: int)
    requires Divides(g, n) && MIN_INT64 <= n <= MAX_INT64 && g > MAX_INT64
    ensures n / g == (if n < 0 then -1 else 0)
  {
    var q := n / g;
    DividesExact(g, n);
    if q > 0 {
      MulAtLeast(q, g);
    }
  }

  /** Euclid's algorithm by iteration; computes Gcd. */
  method GcdOf(a: uint64, b: uint64) returns (g: uint64)
    ensures g as int == Gcd(a as int, b as int)
  {
    var x, y := a, b;
    while y != 0
      invariant Gcd(x as int, y as int) == Gcd(a as int, b as int)
      decreases y
    {
      x, y := y, x % y;
    }
    g := x;
  }

  /** The conditions under which the cross-reduced sum of x and y has no
      intermediate overflow: with g = gcd(b, d), the terms a*(d/g) and
      c*(b/g) of the numerator, their sum, and the denominator (b/g)*d. */
  predicate AddFits(x: Fraction, y: Fraction) {
    x.den > 0 && y.den > 0 &&
    var g := Gcd(x.den, y.den);
    g > 0 &&
    InInt64(x.num * (y.den / g)) && InInt64(y.num * (x.den / g)) &&
    InInt64(x.num * (y.den / g) + y.num * (x.den / g)) && InInt64((x.den / g) * y.den)
  }

  /** The same for the cross-reduced difference. */
  predicate SubFits(x: Fraction, y: Fraction) {
    x.den > 0 && y.den > 0 &&
    var g := Gcd(x.den, y.den);
    g > 0 &&
    InInt64(x.num * (y.den / g)) && InInt64(y.num * (x.den / g)) &&
    InInt64(x.num * (y.den / g) - y.num * (x.den / g)) && InInt64((x.den / g) * y.den)
  }

  /** Reduces n/m, m > 0, by the gcd of |n| and m. */
  method ReducePositive(n: int64, m: int64) returns (p: int64, q: int64)
    requires m > 0
    ensures Fraction(p as int, q as int) == Make(n as int, m as int)
  {
    var h := GcdOf(Magnitude(n), m as uint64);
    ReduceByGcd(n as int, m as int, h as int);
    p, q := Quotient(n, h), Quotient(m, h);
  }

  /** A mutable fraction variable: numerator and denominator in int64. */
  class FractionVar {
    var num: int64
    var den: int64

    /** The value the variable holds. */
    function Get(): Fraction
      reads this
    {
      Fraction(num as int, den as int)
    }

    /** Fraction(): zero. */
    constructor Zero()
      ensures Get() == Fractions.Zero()
    {
      num, den := 0, 1;
    }

    /** Fraction(n): the integer n. */
    constructor FromInt(n: int64)
      ensures Get() == Fractions.FromInt(n as int)
    {
      num, den := n, 1;
    }

    /** Fraction(n, d): the reducing constructor. The reduced fraction must
        have an int64 form; this excludes every pair whose reduced numerator
        or denominator is 2^63, such as (MIN_INT64, -1) and (1, MIN_INT64). */
    constructor (n: int64, d: int64)
      requires Fits(Make(n as int, d as int))
      ensures Get() == Make(n as int, d as int)
    {
      if d == 0 {
        num := if n > 0 then 1 else if n < 0 then -1 else 0;
        den := 0;
      } else {
        var g := GcdOf(Magnitude(n), Magnitude(d));
        ReduceSigned(n as int, d as int, g as int);
        var p, q := Quotient(n, g), Quotient(d, g);
        if q < 0 {
          num, den := -p, -q;
        } else {
          num, den := p, q;
        }
      }
    }

    /** x += y. The operand may be x itself. */
    method AddAssign(y: FractionVar)
      requires Get().IsCanonical() && y.Get().IsCanonical() && AddFits(Get(), y.Get())
      modifies this
      ensures Get() == Add(old(Get()), old(y.Get()))
      ensures y != this ==> y.Get() == old(y.Get())
    {
      var a, b, c, d := num, den, y.num, y.den;
      var g := GcdOf(b as uint64, d as uint64);
      AddCross(Get(), y.Get(), g as int);
      var b1, d1 := Quotient(b, g), Quotient(d, g);
      var n := a * d1 + c * b1;
      var m := b1 * d;
      num, den := ReducePositive(n, m);
    }

    /** x -= y. The operand may be x itself. */
    method SubAssign(y: FractionVar)
      requires Get().IsCanonical() && y.Get().IsCanonical() && SubFits(Get(), y.Get())
      modifies this
      ensures Get() == Sub(old(Get()), old(y.Get()))
      ensures y != this ==> y.Get() == old(y.Get())
    {
      var a, b, c, d := num, den, y.num, y.den;
      var g := GcdOf(b as uint64, d as uint64);
      SubCross(Get(), y.Get(), g as int);
      var b1, d1 := Quotient(b, g), Quotient(d, g);
      var n := a * d1 - c * b1;
      var m := b1 * d;
      num, den := ReducePositive(n, m);
    }

    /** x *= y: each numerator is reduced against the other denominator, so
        the products are the parts of the result and fit when it does. */
    method MulAssign(y: FractionVar)
      requires Get().IsCanonical() && y.Get().IsCanonical() && Fits(Mul(Get(), y.Get()))
      modifies this
      ensures Get() == Mul(old(Get()), old(y.Get()))
      ensures y != this ==> y.Get() == old(y.Get())
    {
      var a, b, c, d := num, den, y.num, y.den;
      var g1 := GcdOf(Magnitude(a), d as uint64);
      var g2 := GcdOf(Magnitude(c), b as uint64);
      MulCross(Get(), y.Get(), g1 as int, g2 as int);
      var a1, c1 := Quotient(a, g1), Quotient(c, g2);
      var b1, d1 := Quotient(b, g2), Quotient(d, g1);
      num, den := a1 * c1, b1 * d1;
    }

    /** x /= y: the numerators are reduced by their common factor, the
        denominators by theirs, and the sign of y moves to the numerator.
        Dividing by zero gives the special form with the sign of x. */
    method DivAssign(y: FractionVar)
      requires Get().IsCanonical() && y.Get().IsCanonical()
      requires y.Get().num != 0 ==> Fits(Div(Get(), y.Get()))
      modifies this
      ensures Get() == Div(old(Get()), old(y.Get()))
      ensures y != this ==> y.Get() == old(y.Get())
    {
      var a, b, c, d := num, den, y.num, y.den;
      if c == 0 {
        assert Gcd(0, d as int) == d as int;
        DivByZero(Get());
        num := if a > 0 then 1 else if a < 0 then -1 else 0;
        den := 0;
      } else {
        var g1 := GcdOf(Magnitude(a), Magnitude(c));
        var g2 := GcdOf(d as uint64, b as uint64);
        DivSteps(Get(), y.Get(), g1 as int, g2 as int);
        var a1, c1 := Quotient(a, g1), Quotient(c, g1);
        var b1, d1 := Quotient(b, g2), Quotient(d, g2);
        if c < 0 {
          num, den := (-a1) * d1, b1 * (-c1);
        } else {
          num, den := a1 * d1, b1 * c1;
        }
      }
    }
  }

  /** The steps of the cross-reduced division and why none overflows:
      the products are the parts of the result, and negating a1 or c1
      overflows only when a part of the result would be 2^63 or more. */
  lemma DivSteps(x: Fraction, y: Fraction, g1: int, g2: int)
    requires x.IsCanonical() && y.IsCanonical() && y.num != 0
    requires Fits(x) && Fits(y) && Fits(Div(x, y))
    requires g1 == Gcd(Abs(x.num), Abs(y.num)) && g2 == Gcd(y.den, x.den)
    ensures Divides(g1, x.num) && Divides(g1, y.num) && Divides(g2, x.den) && Divides(g2, y.den)
    ensures var a1, c1, b1, d1 := x.num / g1, y.num / g1, x.den / g2, y.den / g2;
      if y.num < 0 then
        InInt64(-a1) && InInt64(-c1) && Div(x, y) == Fraction((-a1) * d1, b1 * (-c1))
      else
        Div(x, y) == Fraction(a1 * d1, b1 * c1)
  {
    DivCross(x, y, g1, g2);
    QuotientFits(x.num, g1);
    QuotientFits(y.num, g1);
    QuotientFits(x.den, g2);
    QuotientFits(y.den, g2);
    DivParts(x.num / g1, y.num / g1, x.den / g2, y.den / g2, y.num, g1, Div(x, y));
  }

  /** The cross-reduced quotient r with its sign moved to the numerator. */
  lemma DivParts(a1: int, c1: int, b1: int, d1: int, c: int, g1: int, r: Fraction)
    requires InInt64(a1) && InInt64(c1) && b1 > 0 && d1 > 0
    requires g1 > 0 && c != 0 && c == g1 * c1 && (c > 0 ==> c1 > 0) && (c < 0 ==> c1 < 0)
    requires Fits(r) && r == Fraction(Sign(c) * (a1 * d1), b1 * Abs(c1))
    ensures if c < 0 then
        InInt64(-a1) && InInt64(-c1) && r == Fraction((-a1) * d1, b1 * (-c1))
      else
        r == Fraction(a1 * d1, b1 * c1)
  {
    if c < 0 {
      NegatedFactors(a1, d1, b1, c1, c, g1);
    }
  }

  /** An exact quotient of a representable number is representable and
      keeps its sign. */
  lemma QuotientFits(n: int, g: int)
    requires Divides(g, n) && InInt64(n)
    ensures n == g * (n / g) && InInt64(n / g)
    ensures (n > 0 ==> n / g > 0) && (n < 0 ==> n / g < 0)
  {
    DividesExact(g, n);
    ShrinkFits(n / g, g);
    if n > 0 {
      PositiveFactor(n / g, g);
    } else if n < 0 {
      PositiveFactor(-(n / g), g);
    }
  }

  /** When x / y has an int64 form and the reduced numerator c1 of y is
      negative, negating a1 and c1 before multiplying does not overflow. */
  lemma NegatedFactors(a1: int, d1: int, b1: int, c1: int, c: int, g1: int)
    requires InInt64(a1) && d1 > 0 && b1 > 0 && InInt64(c1)
    requires c < 0 && g1 > 0 && c == g1 * c1
    requires InInt64(-1 * (a1 * d1)) && InInt64(b1 * Abs(c1))
    ensures c1 < 0 && InInt64(-a1) && InInt64(-c1)
    ensures (-a1) * d1 == -1 * (a1 * d1) && b1 * (-c1) == b1 * Abs(c1)
  {
    if a1 < 0 {
      MulAtLeast(d1, -a1);
      assert (-a1) * d1 == -1 * (a1 * d1);
    }
    MulAtLeast(b1, -c1);
  }

  // ----- when the cross-reduced algorithms fit ---------------------------------

  /** A quotient of a representable multiple is representable. */
  lemma ShrinkFits(q: int, g: int)
    requires g > 0 && InInt64(q * g)
    ensures InInt64(q)
  {
    if q > 0 {
      MulAtLeast(g, q);
      assert q * g == g * q;
    } else if q < 0 {
      MulAtLeast(g, -q);
      assert (-q) * g == -(q * g);
    }
  }

  /** Whenever the plain formula a*d + c*b over b*d fits, so does the
      cross-reduced one; the converse fails (AddFitsBeyondPlain). */
  lemma PlainAddFits(x: Fraction, y: Fraction)
    requires x.IsCanonical() && y.IsCanonical()
    requires InInt64(x.num * y.den) && InInt64(y.num * x.den)
    requires InInt64(x.num * y.den + y.num * x.den) && InInt64(x.den * y.den)
    ensures AddFits(x, y)
  {
    var a, b, c, d := x.num, x.den, y.num, y.den;
    var g := Gcd(b, d);
    GcdPositive(b, d);
    GcdDivides(b, d);
    DividesExact(g, b);
    DividesExact(g, d);
    var b1, d1 := b / g, d / g;
    ScaleSum(a, d, c, b, g);
    ScaleProduct(a, d1, g);
    ScaleProduct(c, b1, g);
    ShrinkFits(a * d1, g);
    ShrinkFits(c * b1, g);
    ShrinkFits(a * d1 + c * b1, g);
    ShrinkFits(b1 * d, g);
  }

  /** The same for subtraction. */
  lemma PlainSubFits(x: Fraction, y: Fraction)
    requires x.IsCanonical() && y.IsCanonical()
    requires InInt64(x.num * y.den) && InInt64(y.num * x.den)
    requires InInt64(x.num * y.den - y.num * x.den) && InInt64(x.den * y.den)
    ensures SubFits(x, y)
  {
    var a, b, c, d := x.num, x.den, y.num, y.den;
    var g := Gcd(b, d);
    GcdPositive(b, d);
    GcdDivides(b, d);
    DividesExact(g, b);
    DividesExact(g, d);
    var b1, d1 := b / g, d / g;
    ScaleSum(a, d, -c, b, g);
    ScaleProduct(a, d1, g);
    ScaleProduct(c, b1, g);
    NegProduct(c, b1);
    NegProduct(c, b);
    ShrinkFits(a * d1, g);
    ShrinkFits(c * b1, g);
    ShrinkFits(a * d1 - c * b1, g);
    ShrinkFits(b1 * d, g);
  }

  lemma ScaleProduct(a: int, p: int, g: int)
    ensures (a * p) * g == a * (p * g)
  {
  }

  /** The value of a 64-bit fraction times another is representable as a
      cross product within 128 bits, so comparisons by cross
      multiplication are exact with a 128-bit product. */
  lemma CrossProductIn128(p: int, q: int)
    requires InInt64(p) && InInt64(q)
    ensures -0x4000_0000_0000_0000_0000_0000_0000_0000 <= p * q <= 0x4000_0000_0000_0000_0000_0000_0000_0000
  {
    AbsMul(p, q);
    MulBound(Abs(p), Abs(q), 0x8000_0000_0000_0000);
  }

  /** Products of magnitudes bounded by B are bounded by B * B. */
  lemma MulBound(P: nat, Q: nat, B: nat)
    requires P <= B && Q <= B
    ensures P * Q <= B * B
  {
    MulMonotone(P, B, Q);
    MulMonotone(Q, B, B);
  }

  lemma MulMonotone(a: nat, b: nat, c: nat)
    requires a <= b
    ensures a * c <= b * c
  {
  }
}
