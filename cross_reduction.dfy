/** Cross-reduction: the operators computed from gcd-reduced factors, so that
    no intermediate product is larger than it needs to be. Each lemma states
    that the reduced formula gives the same fraction as the plain formula of
    module Fractions; module FixedWidth evaluates the reduced formulas in
    64-bit arithmetic. */
module CrossReduction {
  import opened NumberTheory
  import opened Fractions
  import opened FractionLaws

  // ----- small integer facts, kept apart from the fraction terms --------------

  /** An exact quotient of n by g, and how it meets sign and magnitude. */
  lemma ExactQuotient(n: int, g: int)
    requires Divides(g, Abs(n))
    ensures Divides(g, n) && n == (n / g) * g
    ensures Abs(n / g) == Abs(n) / g && (-n) / g == -(n / g)
    ensures Abs(n / g) <= Abs(n)
  {
    DividesSigned(n, g);
    var q := n / g;
    DividesExact(g, n);
    QuotientAbs(n, g, q);
    DivModUnique(-n, g, -q, 0);
    if n != 0 {
      QuotientBound(Abs(n), g, Abs(q));
    }
  }

  lemma DividesSigned(n: int, g: int)
    requires Divides(g, Abs(n))
    ensures Divides(g, n)
  {
    if n < 0 {
      DividesNeg(g, Abs(n));
    }
  }

  lemma QuotientAbs(n: int, g: int, q: int)
    requires g > 0 && n == g * q
    ensures Abs(q) == Abs(n) / g
  {
    AbsMul(g, q);
    MultipleDivides(g, Abs(q));
  }

  lemma QuotientBound(n: int, g: int, q: int)
    requires g > 0 && n > 0 && q == n / g && n == q * g
    ensures q <= n
  {
    if q <= 0 {
    } else {
      MulAtLeast(g, q);
    }
  }

  lemma Regroup(p: int, g: int, q: int, h: int)
    ensures (p * g) * (q * h) == (p * q) * (g * h)
  {
  }

  lemma ScaleSum(a: int, d: int, c: int, b: int, g: int)
    requires g > 0 && d == (d / g) * g && b == (b / g) * g
    ensures (a * (d / g) + c * (b / g)) * g == a * d + c * b
    ensures ((b / g) * d) * g == b * d
  {
    var d1, b1 := d / g, b / g;
    assert (a * d1 + c * b1) * g == a * (d1 * g) + c * (b1 * g);
    assert (b1 * d) * g == (b1 * g) * d;
  }

  lemma NegProduct(c: int, b: int)
    ensures (-c) * b == -(c * b)
  {
  }

  lemma SignProduct(s: int, a: int, d: int)
    ensures a * (s * d) == s * (a * d)
  {
  }

  lemma PositiveFactor(p: int, g: int)
    requires g > 0 && p * g > 0
    ensures p > 0
  {
  }

  // ----- reduction -----------------------------------------------------------

  /** With a positive denominator, reducing is dividing both parts by the
      gcd of the numerator's magnitude and the denominator. */
  lemma ReduceByGcd(n: int, m: int, g: int)
    requires m > 0 && g == Gcd(Abs(n), m)
    ensures g > 0 && Divides(g, n) && Divides(g, m)
    ensures Make(n, m) == Fraction(n / g, m / g)
  {
    ReduceSigned(n, m, g);
    DividesExact(g, m);
    PositiveFactor(m / g, g);
  }

  /** Reduction with a denominator of either sign: divide by the gcd of
      the magnitudes, then move a negative sign to the numerator. */
  lemma ReduceSigned(n: int, d: int, g: int)
    requires d != 0 && g == Gcd(Abs(n), Abs(d))
    ensures g > 0 && Divides(g, n) && Divides(g, d) && d / g != 0
    ensures Make(n, d) == if d / g < 0 then Fraction(-(n / g), -(d / g)) else Fraction(n / g, d / g)
  {
    if n == 0 {
      ReduceZero(d, g);
    } else {
      GcdPositive(Abs(n), Abs(d));
      GcdDivides(Abs(n), Abs(d));
      DividesSigned(n, g);
      DividesSigned(d, g);
      DividesExact(g, d);
    }
  }

  /** The zero numerator: g is the magnitude of d and the quotients are 0 and the sign of d. */
  lemma ReduceZero(d: int, g: int)
    requires d != 0 && g == Gcd(0, Abs(d))
    ensures g > 0 && Divides(g, 0) && Divides(g, d) && d / g != 0
    ensures Make(0, d) == if d / g < 0 then Fraction(-(0 / g), -(d / g)) else Fraction(0 / g, d / g)
  {
    assert g == Abs(d);
    MultipleDivides(g, 0);
    MultipleDivides(g, 1);
    if d < 0 {
      MultipleDivides(g, -1);
    }
  }

  // ----- multiplication ------------------------------------------------------

  /** Quotients of a coprime pair by divisors of its parts are coprime. */
  lemma QuotientsCoprime(x: nat, y: nat, g: int, h: int)
    requires Gcd(x, y) == 1 && y > 0 && Divides(g, x) && Divides(h, y)
    ensures Gcd(x / g, y / h) == 1
  {
    PositiveQuotient(y, h);
    if x == 0 {
      CoprimeWithZero(y, y / h);
    } else {
      PositiveQuotient(x, g);
      CoprimeDivisors(x, y, x / g, y / h);
    }
  }

  /** A quotient of a positive number by a divisor of it is a positive divisor of it. */
  lemma PositiveQuotient(y: nat, h: int)
    requires y > 0 && Divides(h, y)
    ensures y / h > 0 && Divides(y / h, y)
  {
    DividesExact(h, y);
    PositiveFactor(y / h, h);
    MultipleDivides(y / h, h);
  }

  /** Only 1 divides y and is coprime to 0 beside it. */
  lemma CoprimeWithZero(y: nat, q: nat)
    requires Gcd(0, y) == 1 && Divides(q, y)
    ensures Gcd(0, q) == 1
  {
    assert y == 1;
    DivisorBound(q, 1);
  }

  /** The magnitudes after cross reduction are pairwise coprime, so the
      products are in lowest terms. */
  lemma MulCrossCoprimeNat(a: nat, b: nat, c: nat, d: nat, g1: nat, g2: nat)
    requires b > 0 && d > 0 && Gcd(a, b) == 1 && Gcd(c, d) == 1
    requires g1 == Gcd(a, d) && g2 == Gcd(c, b)
    ensures g1 > 0 && g2 > 0 && Divides(g1, a) && Divides(g1, d) && Divides(g2, c) && Divides(g2, b)
    ensures Gcd((a / g1) * (c / g2), (b / g2) * (d / g1)) == 1
  {
    GcdQuotientsCoprime(a, d, g1);
    GcdQuotientsCoprime(c, b, g2);
    var a1, b1, c1, d1 := a / g1, b / g2, c / g2, d / g1;
    NatQuotient(a, g1);
    NatQuotient(b, g2);
    NatQuotient(c, g2);
    NatQuotient(d, g1);
    QuotientsCoprime(a, b, g1, g2);
    QuotientsCoprime(c, d, g2, g1);
    CoprimeProductRight(a1, b1, d1);
    CoprimeProductRight(c1, b1, d1);
    NatProduct(b1, d1);
    CoprimeProduct(a1, c1, b1 * d1);
  }

  lemma NatQuotient(a: nat, g: int)
    requires g > 0
    ensures a / g >= 0
  {
  }

  lemma NatProduct(p: int, q: int)
    requires p >= 0 && q >= 0
    ensures p * q >= 0
  {
  }

  /** The cross-reduced factors of a product of two canonical fractions
      are pairwise coprime, so their products are already in lowest terms. */
  lemma MulCrossCoprime(a: int, b: int, c: int, d: int, g1: int, g2: int)
    requires b > 0 && d > 0 && Gcd(Abs(a), b) == 1 && Gcd(Abs(c), d) == 1
    requires g1 == Gcd(Abs(a), d) && g2 == Gcd(Abs(c), b)
    ensures g1 > 0 && g2 > 0
    ensures Divides(g1, a) && Divides(g1, d) && Divides(g2, c) && Divides(g2, b)
    ensures (b / g2) * (d / g1) > 0
    ensures Gcd(Abs((a / g1) * (c / g2)), (b / g2) * (d / g1)) == 1
  {
    MulCrossCoprimeNat(Abs(a), b, Abs(c), d, g1, g2);
    ExactQuotient(a, g1);
    ExactQuotient(c, g2);
    ExactQuotient(d, g1);
    ExactQuotient(b, g2);
    PositiveFactor(b / g2, g2);
    PositiveFactor(d / g1, g1);
    MulAtLeast(b / g2, d / g1);
    AbsMul(a / g1, c / g2);
  }

  /** x * y with each numerator first reduced against the other's
      denominator: the result needs no further reduction. */
  lemma MulCross(x: Fraction, y: Fraction, g1: int, g2: int)
    requires x.IsCanonical() && y.IsCanonical()
    requires g1 == Gcd(Abs(x.num), y.den) && g2 == Gcd(Abs(y.num), x.den)
    ensures g1 > 0 && g2 > 0
    ensures Divides(g1, x.num) && Divides(g1, y.den) && Divides(g2, y.num) && Divides(g2, x.den)
    ensures Mul(x, y) == Fraction((x.num / g1) * (y.num / g2), (x.den / g2) * (y.den / g1))
  {
    var a, b, c, d := x.num, x.den, y.num, y.den;
    MulCrossCoprime(a, b, c, d, g1, g2);
    var n, m := (a / g1) * (c / g2), (b / g2) * (d / g1);
    DividesExact(g1, a);
    DividesExact(g2, c);
    DividesExact(g1, d);
    DividesExact(g2, b);
    Regroup(a / g1, g1, c / g2, g2);
    Regroup(b / g2, g2, d / g1, g1);
    assert g1 * g2 == g2 * g1;
    MulAtLeast(g1, g2);
    MakeScale(n, m, g1 * g2);
    MakeCanonical(Fraction(n, m));
  }

  // ----- division ------------------------------------------------------------

  /** x / y as a cross-reduced product: a and c reduced by their common
      factor, b and d by theirs, and the sign of c moved to the numerator. */
  lemma DivCross(x: Fraction, y: Fraction, g1: int, g2: int)
    requires x.IsCanonical() && y.IsCanonical() && y.num != 0
    requires g1 == Gcd(Abs(x.num), Abs(y.num)) && g2 == Gcd(y.den, x.den)
    ensures g1 > 0 && g2 > 0
    ensures Divides(g1, x.num) && Divides(g1, y.num) && Divides(g2, y.den) && Divides(g2, x.den)
    ensures Div(x, y) == Fraction(Sign(y.num) * ((x.num / g1) * (y.den / g2)), (x.den / g2) * Abs(y.num / g1))
  {
    var s := Sign(y.num);
    ReciprocalForm(y);
    var r := Reciprocal(y);
    assert Abs(r.num) == y.den;
    MulCross(x, r, g1, g2);
    DividesNeg(g2, r.num);
    DividesSigned(y.num, g1);
    DividesExact(g1, y.num);
    QuotientAbs(y.num, g1, y.num / g1);
    DividesExact(g2, y.den);
    assert r.num / g2 == s * (y.den / g2) by {
      if s < 0 {
        assert r.num == -y.den;
        ExactQuotient(y.den, g2);
      }
    }
    SignProduct(s, x.num / g1, y.den / g2);
  }

  // ----- addition and subtraction --------------------------------------------

  /** x + y over the common multiple (b / g) * d of the denominators,
      g = gcd(b, d), instead of over b * d. */
  lemma AddCross(x: Fraction, y: Fraction, g: int)
    requires x.IsCanonical() && y.IsCanonical() && g == Gcd(x.den, y.den)
    ensures g > 0 && Divides(g, x.den) && Divides(g, y.den) && (x.den / g) * y.den > 0
    ensures Add(x, y) == Make(x.num * (y.den / g) + y.num * (x.den / g), (x.den / g) * y.den)
  {
    var a, b, c, d := x.num, x.den, y.num, y.den;
    GcdQuotientsCoprime(b, d, g);
    ExactQuotient(b, g);
    ExactQuotient(d, g);
    PositiveFactor(b / g, g);
    MulAtLeast(b / g, d);
    ScaleSum(a, d, c, b, g);
    MakeScale(a * (d / g) + c * (b / g), (b / g) * d, g);
  }

  /** x - y over the same common multiple. */
  lemma SubCross(x: Fraction, y: Fraction, g: int)
    requires x.IsCanonical() && y.IsCanonical() && g == Gcd(x.den, y.den)
    ensures g > 0 && Divides(g, x.den) && Divides(g, y.den) && (x.den / g) * y.den > 0
    ensures Sub(x, y) == Make(x.num * (y.den / g) - y.num * (x.den / g), (x.den / g) * y.den)
  {
    NegValue(y);
    AddCross(x, Neg(y), g);
    NegProduct(y.num, x.den / g);
  }
}
