/** The exact-rational value type `Fraction`: a numerator/denominator pair
    kept in canonical form by a reducing constructor, with the operators
    the test suite exercises. Integers are unbounded here; the 64-bit
    behaviour is modelled in module FixedWidth. */
module Fractions {
  import opened NumberTheory

  /** A fraction num/den. Values built by Make are Valid: either canonical
      (den > 0, lowest terms, sign on the numerator) or one of the three
      zero-denominator special forms 1/0, -1/0 and 0/0. */
  datatype Fraction = Fraction(num: int, den: int) {

    predicate IsCanonical() {
      den > 0 && Gcd(Abs(num), den) == 1
    }

    predicate IsSpecial() {
      den == 0 && -1 <= num <= 1
    }

    predicate Valid() {
      IsCanonical() || IsSpecial()
    }
  }

  function Sign(n: int): (s: int)
    ensures s == 1 <==> n > 0
    ensures s == -1 <==> n < 0
    ensures s == 0 <==> n == 0
  {
    if n > 0 then 1 else if n < 0 then -1 else 0
  }

  /** The exact rational number n/d: the reference meaning of a fraction. */
  ghost function Ratio(n: int, d: int): real
    requires d != 0
  {
    n as real / d as real
  }

  /** The rational number a finite fraction stands for. */
  ghost function Value(f: Fraction): real
    requires f.den != 0
  {
    Ratio(f.num, f.den)
  }

  // ----- facts about Ratio -------------------------------------------------

  lemma RatioScale(p: int, q: int, k: int)
    requires q != 0 && k != 0
    ensures Ratio(p * k, q * k) == Ratio(p, q)
  {
    var x, y, z := p as real, q as real, k as real;
    assert (p * k) as real == x * z && (q * k) as real == y * z;
    assert x / y == (x * z) / (y * z);
  }

  lemma RatioCross(a: int, b: int, c: int, d: int)
    requires b != 0 && d != 0
    ensures Ratio(a, b) == Ratio(c, d) <==> a * d == c * b
  {
    CastMul(a, d);
    CastMul(c, b);
    RealCross(a as real, b as real, c as real, d as real);
  }

  lemma CastMul(a: int, b: int)
    ensures (a * b) as real == a as real * b as real
  {
  }

  lemma RealCross(x: real, y: real, z: real, w: real)
    requires y != 0.0 && w != 0.0
    ensures x / y == z / w <==> x * w == z * y
  {
    if x / y == z / w {
      var r := x / y;
      assert x == r * y && z == r * w;
      assert x * w == r * (y * w) == z * y;
    }
    if x * w == z * y {
      assert x / y == (x * w) / (y * w);
      assert z / w == (z * y) / (w * y);
    }
  }

  lemma RatioLess(a: int, b: int, c: int, d: int)
    requires b > 0 && d > 0
    ensures Ratio(a, b) < Ratio(c, d) <==> a * d < c * b
  {
    var x, y, z, w := a as real, b as real, c as real, d as real;
    assert (a * d) as real == x * w;
    assert (c * b) as real == z * y;
    assert x / y == (x * w) / (y * w);
    assert z / w == (z * y) / (w * y);
    assert y * w > 0.0;
  }

  lemma RatioAdd(a: int, b: int, c: int, d: int)
    requires b != 0 && d != 0
    ensures Ratio(a * d + c * b, b * d) == Ratio(a, b) + Ratio(c, d)
  {
    var x, y, z, w := a as real, b as real, c as real, d as real;
    assert (a * d + c * b) as real == x * w + z * y;
    assert (b * d) as real == y * w;
    var p := y * w;
    assert (x * w + z * y) / p == (x * w) / p + (z * y) / p;
    assert x / y == (x * w) / p;
    assert z / w == (z * y) / p;
  }

  lemma RatioMul(a: int, b: int, c: int, d: int)
    requires b != 0 && d != 0
    ensures Ratio(a * c, b * d) == Ratio(a, b) * Ratio(c, d)
  {
    var x, y, z, w := a as real, b as real, c as real, d as real;
    assert (a * c) as real == x * z && (b * d) as real == y * w;
  }

  lemma RatioNeg(a: int, b: int)
    requires b != 0
    ensures Ratio(-a, b) == -Ratio(a, b) && Ratio(-a, -b) == Ratio(a, b)
  {
  }

  lemma AbsMul(a: int, b: int)
    ensures Abs(a * b) == Abs(a) * Abs(b)
  {
    if a < 0 && b < 0 {
      assert a * b == (-a) * (-b);
    } else if a < 0 {
      assert -(a * b) == (-a) * b;
    } else if b < 0 {
      assert -(a * b) == a * (-b);
    }
  }

  // ----- the reducing constructor --------------------------------------------

  /** Facts about dividing a nonzero pair by the gcd of its magnitudes. */
  lemma ReducedPair(n: int, d: int, g: nat)
    requires n != 0 && d != 0 && g == Gcd(Abs(n), Abs(d))
    ensures g > 0 && n == (n / g) * g && d == (d / g) * g
    ensures Gcd(Abs(n / g), Abs(d / g)) == 1
    ensures Ratio(n / g, d / g) == Ratio(n, d)
  {
    GcdQuotientsCoprime(Abs(n), Abs(d), g);
    var p, q := Abs(n) / g, Abs(d) / g;
    assert Divides(g, n) && Divides(g, d) by {
      assert Abs(n) == n || Abs(n) == -n;
      assert Abs(d) == d || Abs(d) == -d;
      DividesNeg(g, Abs(n));
      DividesNeg(g, Abs(d));
    }
    DividesExact(g, n);
    DividesExact(g, d);
    assert Abs(n / g) == p by {
      AbsMul(g, n / g);
      MultipleDivides(g, Abs(n / g));
    }
    assert Abs(d / g) == q by {
      AbsMul(g, d / g);
      MultipleDivides(g, Abs(d / g));
    }
    RatioScale(n / g, d / g, g);
  }

  /** Fraction(n, d): the reducing constructor. A zero denominator gives
      the special form carrying the sign of n; otherwise the result is the
      canonical fraction with the value n/d (so zero is always 0/1). */
  function Make(n: int, d: int): (r: Fraction)
    ensures r.Valid()
    ensures d == 0 ==> r == Fraction(Sign(n), 0)
    ensures d != 0 ==> r.IsCanonical() && Value(r) == Ratio(n, d)
  {
    if d == 0 then
      Fraction(Sign(n), 0)
    else if n == 0 then
      Fraction(0, 1)
    else
      var g := Gcd(Abs(n), Abs(d));
      ReducedPair(n, d, g);
      var n', d' := n / g, d / g;
      RatioNeg(n', d');
      if d' < 0 then Fraction(-n', -d') else Fraction(n', d')
  }

  /** Fraction(): zero, as 0/1. */
  function Zero(): (r: Fraction)
    ensures r.IsCanonical() && Value(r) == 0.0
  {
    Fraction(0, 1)
  }

  /** Fraction(n): the integer n, as n/1 with no reduction needed. */
  function FromInt(n: int): (r: Fraction)
    ensures r == Fraction(n, 1)
    ensures r.IsCanonical() && Value(r) == n as real
  {
    Make(n, 1)
  }

  /** Two canonical fractions with the same cross products are identical:
      the canonical form of a rational number is unique. */
  lemma CanonicalUnique(x: Fraction, y: Fraction)
    requires x.IsCanonical() && y.IsCanonical()
    requires x.num * y.den == y.num * x.den
    ensures x == y
  {
    var p, q, r, s := Abs(x.num), x.den, Abs(y.num), y.den;
    assert p * s == r * q by {
      AbsMul(x.num, y.den);
      AbsMul(y.num, x.den);
    }
    assert Divides(q, s) by {
      MultipleDivides(q, r);
      assert p * s == q * r;
      EuclidLemma(q, p, s);
    }
    assert Divides(s, q) by {
      MultipleDivides(s, p);
      assert r * q == s * p;
      EuclidLemma(s, r, q);
    }
    DivisorBound(q, s);
    DivisorBound(s, q);
    MulCancel(x.num, y.num, q);
  }

  /** Equality of canonical fractions is equality of the numbers they
      stand for, whichever pair they were reduced from. */
  lemma EqualIffSameValue(x: Fraction, y: Fraction)
    requires x.IsCanonical() && y.IsCanonical()
    ensures x == y <==> Value(x) == Value(y)
  {
    RatioCross(x.num, x.den, y.num, y.den);
    if Value(x) == Value(y) {
      CanonicalUnique(x, y);
    }
  }

  /** The reducing constructor returns the canonical fraction of a value. */
  lemma MakeOfValue(x: Fraction, n: int, d: int)
    requires x.IsCanonical() && d != 0 && Value(x) == Ratio(n, d)
    ensures Make(n, d) == x
  {
    EqualIffSameValue(Make(n, d), x);
  }

  /** Reduction does not depend on a common factor: Make(n*k, d*k) == Make(n, d). */
  lemma MakeScale(n: int, d: int, k: int)
    requires d != 0 && k != 0
    ensures Make(n * k, d * k) == Make(n, d)
  {
    RatioScale(n, d, k);
    MakeOfValue(Make(n, d), n * k, d * k);
  }

  /** A canonical fraction is its own reduction. */
  lemma MakeCanonical(x: Fraction)
    requires x.IsCanonical()
    ensures Make(x.num, x.den) == x
  {
    MakeOfValue(x, x.num, x.den);
  }

  // ----- arithmetic ------------------------------------------------------------

  /** Unary minus. */
  function Neg(x: Fraction): Fraction {
    Make(-x.num, x.den)
  }

  /** x + y == (a*d + c*b) / (b*d), reduced. */
  function Add(x: Fraction, y: Fraction): Fraction {
    Make(x.num * y.den + y.num * x.den, x.den * y.den)
  }

  /** x - y is x + (-y). */
  function Sub(x: Fraction, y: Fraction): Fraction {
    Add(x, Neg(y))
  }

  /** x * y == (a*c) / (b*d), reduced. */
  function Mul(x: Fraction, y: Fraction): Fraction {
    Make(x.num * y.num, x.den * y.den)
  }

  /** The reciprocal swaps numerator and denominator; the reducing
      constructor moves a negative sign back onto the numerator. */
  function Reciprocal(x: Fraction): Fraction {
    Make(x.den, x.num)
  }

  /** x / y multiplies x by the reciprocal of y. */
  function Div(x: Fraction, y: Fraction): Fraction {
    Mul(x, Reciprocal(y))
  }

  lemma NegValue(x: Fraction)
    requires x.IsCanonical()
    ensures Neg(x) == Fraction(-x.num, x.den)
    ensures Neg(x).IsCanonical() && Value(Neg(x)) == -Value(x)
  {
    RatioNeg(x.num, x.den);
    assert Abs(-x.num) == Abs(x.num);
    MakeOfValue(Fraction(-x.num, x.den), -x.num, x.den);
  }

  lemma AddValue(x: Fraction, y: Fraction)
    requires x.IsCanonical() && y.IsCanonical()
    ensures Add(x, y).IsCanonical() && Value(Add(x, y)) == Value(x) + Value(y)
  {
    RatioAdd(x.num, x.den, y.num, y.den);
  }

  lemma SubValue(x: Fraction, y: Fraction)
    requires x.IsCanonical() && y.IsCanonical()
    ensures Sub(x, y).IsCanonical() && Value(Sub(x, y)) == Value(x) - Value(y)
  {
    NegValue(y);
    AddValue(x, Neg(y));
  }

  lemma MulValue(x: Fraction, y: Fraction)
    requires x.IsCanonical() && y.IsCanonical()
    ensures Mul(x, y).IsCanonical() && Value(Mul(x, y)) == Value(x) * Value(y)
  {
    MulAtLeast(x.den, y.den);
    RatioMul(x.num, x.den, y.num, y.den);
  }

  lemma ValueZero(x: Fraction)
    requires x.IsCanonical()
    ensures Value(x) == 0.0 <==> x.num == 0
  {
    RatioCross(x.num, x.den, 0, 1);
  }

  lemma ReciprocalValue(x: Fraction)
    requires x.IsCanonical() && x.num != 0
    ensures Reciprocal(x).IsCanonical() && Value(Reciprocal(x)) == 1.0 / Value(x)
  {
    var a, b := x.num as real, x.den as real;
    assert b / a == 1.0 / (a / b);
  }

  lemma DivValue(x: Fraction, y: Fraction)
    requires x.IsCanonical() && y.IsCanonical() && y.num != 0
    ensures Div(x, y).IsCanonical() && Value(Div(x, y)) == Value(x) / Value(y)
  {
    ReciprocalValue(y);
    MulValue(x, Reciprocal(y));
  }

  // ----- comparisons -------------------------------------------------------

  // `==` and `!=` are Dafny's own structural equality on the pair.

  /** a/b < c/d by cross multiplication (denominators are positive). */
  predicate Less(x: Fraction, y: Fraction) {
    x.num * y.den < y.num * x.den
  }

  predicate LessEq(x: Fraction, y: Fraction) {
    x.num * y.den <= y.num * x.den
  }

  predicate Greater(x: Fraction, y: Fraction) {
    Less(y, x)
  }

  predicate GreaterEq(x: Fraction, y: Fraction) {
    LessEq(y, x)
  }

  lemma LessValue(x: Fraction, y: Fraction)
    requires x.IsCanonical() && y.IsCanonical()
    ensures Less(x, y) <==> Value(x) < Value(y)
  {
    RatioLess(x.num, x.den, y.num, y.den);
  }

  lemma LessEqValue(x: Fraction, y: Fraction)
    requires x.IsCanonical() && y.IsCanonical()
    ensures LessEq(x, y) <==> Value(x) <= Value(y)
  {
    RatioLess(x.num, x.den, y.num, y.den);
    RatioCross(x.num, x.den, y.num, y.den);
  }
}
