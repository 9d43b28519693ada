/** Laws of the Fraction operators over canonical (finite) values, each
    derived from the exact rational value of the operands. Integer operands
    are promoted with FromInt, as the operator overloads do. */
module FractionLaws {
  import opened NumberTheory
  import opened Fractions

  /** Zero with any nonzero denominator reduces to 0/1. */
  lemma ZeroNumerator(d: int)
    requires d != 0
    ensures Make(0, d) == Zero()
  {
    MakeOfValue(Zero(), 0, d);
  }

  /** Two pairs reduce to the same fraction exactly when they stand for the
      same rational number (equal cross products). */
  lemma MakeEqualIff(n1: int, d1: int, n2: int, d2: int)
    requires d1 != 0 && d2 != 0
    ensures Make(n1, d1) == Make(n2, d2) <==> n1 * d2 == n2 * d1
  {
    EqualIffSameValue(Make(n1, d1), Make(n2, d2));
    RatioCross(n1, d1, n2, d2);
  }

  // ----- addition and subtraction ----------------------------------------------

  lemma AddZero(x: Fraction)
    requires x.IsCanonical()
    ensures Add(x, FromInt(0)) == x && Add(FromInt(0), x) == x
  {
    AddValue(x, FromInt(0));
    AddValue(FromInt(0), x);
    EqualIffSameValue(Add(x, FromInt(0)), x);
    EqualIffSameValue(Add(FromInt(0), x), x);
  }

  lemma SubZero(x: Fraction)
    requires x.IsCanonical()
    ensures Sub(x, FromInt(0)) == x
  {
    SubValue(x, FromInt(0));
    EqualIffSameValue(Sub(x, FromInt(0)), x);
  }

  lemma AddCommutative(x: Fraction, y: Fraction)
    requires x.IsCanonical() && y.IsCanonical()
    ensures Add(x, y) == Add(y, x)
  {
    AddValue(x, y);
    AddValue(y, x);
    EqualIffSameValue(Add(x, y), Add(y, x));
  }

  lemma AddAssociative(x: Fraction, y: Fraction, z: Fraction)
    requires x.IsCanonical() && y.IsCanonical() && z.IsCanonical()
    ensures Add(Add(x, y), z) == Add(x, Add(y, z))
  {
    var l, r := Add(Add(x, y), z), Add(x, Add(y, z));
    assert l.IsCanonical() && Value(l) == (Value(x) + Value(y)) + Value(z) by {
      AddValue(x, y);
      AddValue(Add(x, y), z);
    }
    assert r.IsCanonical() && Value(r) == Value(x) + (Value(y) + Value(z)) by {
      AddValue(y, z);
      AddValue(x, Add(y, z));
    }
    EqualIffSameValue(l, r);
  }

  /** Subtraction undoes addition. */
  lemma SubUndoesAdd(x: Fraction, y: Fraction)
    requires x.IsCanonical() && y.IsCanonical()
    ensures Sub(Add(x, y), y) == x
  {
    AddValue(x, y);
    SubValue(Add(x, y), y);
    EqualIffSameValue(Sub(Add(x, y), y), x);
  }

  // ----- negation ------------------------------------------------------------

  lemma NegIsZeroMinus(x: Fraction)
    requires x.IsCanonical()
    ensures Neg(x) == Sub(FromInt(0), x)
  {
    NegValue(x);
    SubValue(FromInt(0), x);
    EqualIffSameValue(Neg(x), Sub(FromInt(0), x));
  }

  lemma NegInvolutive(x: Fraction)
    requires x.IsCanonical()
    ensures Neg(Neg(x)) == x
  {
    NegValue(x);
    NegValue(Neg(x));
  }

  // ----- multiplication ------------------------------------------------------

  lemma MulZero(x: Fraction)
    requires x.IsCanonical()
    ensures Mul(x, FromInt(0)) == FromInt(0) && Mul(FromInt(0), x) == FromInt(0)
  {
    MulValue(x, FromInt(0));
    MulValue(FromInt(0), x);
    EqualIffSameValue(Mul(x, FromInt(0)), FromInt(0));
    EqualIffSameValue(Mul(FromInt(0), x), FromInt(0));
  }

  lemma MulOne(x: Fraction)
    requires x.IsCanonical()
    ensures Mul(x, FromInt(1)) == x && Mul(FromInt(1), x) == x
  {
    MulValue(x, FromInt(1));
    MulValue(FromInt(1), x);
    EqualIffSameValue(Mul(x, FromInt(1)), x);
    EqualIffSameValue(Mul(FromInt(1), x), x);
  }

  lemma MulCommutative(x: Fraction, y: Fraction)
    requires x.IsCanonical() && y.IsCanonical()
    ensures Mul(x, y) == Mul(y, x)
  {
    MulValue(x, y);
    MulValue(y, x);
    EqualIffSameValue(Mul(x, y), Mul(y, x));
  }

  /** Multiplying by a reduced pair is reducing the product of the pairs. */
  lemma MulMakeRight(n: int, d: int, z: Fraction)
    requires d != 0 && z.IsCanonical()
    ensures Mul(z, Make(n, d)) == Make(z.num * n, z.den * d)
  {
    var m := Make(n, d);
    MulValue(z, m);
    RatioMul(z.num, z.den, n, d);
    MakeOfValue(Mul(z, m), z.num * n, z.den * d);
  }

  lemma MulMakeLeft(n: int, d: int, z: Fraction)
    requires d != 0 && z.IsCanonical()
    ensures Mul(Make(n, d), z) == Make(n * z.num, d * z.den)
  {
    var m := Make(n, d);
    MulValue(m, z);
    RatioMul(n, d, z.num, z.den);
    MakeOfValue(Mul(m, z), n * z.num, d * z.den);
  }

  lemma IntMulAssociative(a: int, b: int, c: int)
    ensures (a * b) * c == a * (b * c)
  {
  }

  /** Both groupings reduce the triple products a*c*e / b*d*f. */
  lemma MulAssociative(x: Fraction, y: Fraction, z: Fraction)
    requires x.IsCanonical() && y.IsCanonical() && z.IsCanonical()
    ensures Mul(Mul(x, y), z) == Mul(x, Mul(y, z))
  {
    MulAtLeast(x.den, y.den);
    MulAtLeast(y.den, z.den);
    MulMakeLeft(x.num * y.num, x.den * y.den, z);
    MulMakeRight(y.num * z.num, y.den * z.den, x);
    IntMulAssociative(x.num, y.num, z.num);
    IntMulAssociative(x.den, y.den, z.den);
  }

  /** A nonzero fraction times its reciprocal is one. */
  lemma MulReciprocal(y: Fraction)
    requires y.IsCanonical() && y.num != 0
    ensures Mul(y, Reciprocal(y)) == FromInt(1)
  {
    MulMakeRight(y.den, y.num, y);
    IntMulCommutative(y.num, y.den);
    MakeEqualIff(y.num * y.den, y.den * y.num, 1, 1);
    MakeCanonical(FromInt(1));
  }

  lemma IntMulCommutative(a: int, b: int)
    ensures a * b == b * a && (a != 0 && b != 0 ==> a * b != 0)
  {
  }

  /** x * -1 is -x. */
  lemma MulMinusOne(x: Fraction)
    requires x.IsCanonical()
    ensures Mul(x, FromInt(-1)) == Neg(x)
  {
    MulValue(x, FromInt(-1));
    NegValue(x);
    EqualIffSameValue(Mul(x, FromInt(-1)), Neg(x));
  }

  // ----- division ------------------------------------------------------------

  lemma DivOne(x: Fraction)
    requires x.IsCanonical()
    ensures Div(x, FromInt(1)) == x
  {
    DivValue(x, FromInt(1));
    EqualIffSameValue(Div(x, FromInt(1)), x);
  }

  lemma ZeroDiv(x: Fraction)
    requires x.IsCanonical() && x.num != 0
    ensures Div(FromInt(0), x) == FromInt(0)
  {
    DivValue(FromInt(0), x);
    EqualIffSameValue(Div(FromInt(0), x), FromInt(0));
  }

  /** x / -1 is -x, with the denominator still positive. */
  lemma DivMinusOne(x: Fraction)
    requires x.IsCanonical()
    ensures Div(x, FromInt(-1)) == Neg(x) && Div(x, FromInt(-1)).den > 0
  {
    DivValue(x, FromInt(-1));
    NegValue(x);
    EqualIffSameValue(Div(x, FromInt(-1)), Neg(x));
  }

  lemma RealDivFlip(a: real, b: real)
    requires a != 0.0 && b != 0.0
    ensures b / a != 0.0 && 1.0 / (b / a) == a / b
  {
  }

  /** Dividing is reducing the cross products a*d / b*c. */
  lemma DivMake(x: Fraction, y: Fraction)
    requires x.IsCanonical() && y.IsCanonical() && y.num != 0
    ensures Div(x, y) == Make(x.num * y.den, x.den * y.num)
  {
    MulMakeRight(y.den, y.num, x);
  }

  /** The reciprocal of a nonzero canonical fraction: the sign moves to the
      numerator and the denominator is the numerator's magnitude. */
  lemma ReciprocalForm(y: Fraction)
    requires y.IsCanonical() && y.num != 0
    ensures Reciprocal(y) == Fraction(Sign(y.num) * y.den, Abs(y.num))
    ensures Reciprocal(y).IsCanonical()
  {
    var s := Sign(y.num);
    var r := Fraction(s * y.den, Abs(y.num));
    assert Abs(s * y.den) == y.den;
    GcdCommutative(Abs(y.num), y.den);
    assert r.num * y.num == y.den * r.den by {
      if y.num < 0 {
        assert r.num * y.num == (-y.den) * y.num;
      }
    }
    MakeEqualIff(y.den, y.num, r.num, r.den);
    MakeCanonical(r);
  }

  /** 1 / x is the reciprocal of x. */
  lemma OneDiv(x: Fraction)
    requires x.IsCanonical() && x.num != 0
    ensures Div(FromInt(1), x) == Reciprocal(x)
  {
    ReciprocalValue(x);
    MulOne(Reciprocal(x));
  }

  /** Dividing undoes multiplying by a nonzero value. */
  lemma DivUndoesMul(x: Fraction, y: Fraction)
    requires x.IsCanonical() && y.IsCanonical() && y.num != 0
    ensures Div(Mul(x, y), y) == x
  {
    ReciprocalValue(y);
    MulAssociative(x, y, Reciprocal(y));
    MulReciprocal(y);
    MulOne(x);
  }

  /** x / y == 1 / (y / x) for nonzero x and y. */
  lemma DivReciprocal(x: Fraction, y: Fraction)
    requires x.IsCanonical() && y.IsCanonical() && x.num != 0 && y.num != 0
    ensures Div(x, y) == Div(FromInt(1), Div(y, x))
  {
    var q := Div(y, x);
    DivValue(x, y);
    DivValue(y, x);
    ValueZero(x);
    ValueZero(y);
    RealDivFlip(Value(x), Value(y));
    ValueZero(q);
    DivValue(FromInt(1), q);
    EqualIffSameValue(Div(x, y), Div(FromInt(1), q));
  }

  /** Dividing a finite value by zero gives the special form with its sign. */
  lemma DivByZero(x: Fraction)
    requires x.IsCanonical()
    ensures Div(x, Zero()) == Fraction(Sign(x.num), 0)
  {
  }

  // ----- ordering --------------------------------------------------------------

  /** Less is a strict total order on canonical fractions: exactly one of
      x < y, x == y, x > y holds. */
  lemma Trichotomy(x: Fraction, y: Fraction)
    requires x.IsCanonical() && y.IsCanonical()
    ensures Less(x, y) || x == y || Greater(x, y)
    ensures !(Less(x, y) && x == y) && !(Less(x, y) && Greater(x, y)) && !(x == y && Greater(x, y))
  {
    LessValue(x, y);
    LessValue(y, x);
    EqualIffSameValue(x, y);
  }

  lemma LessTransitive(x: Fraction, y: Fraction, z: Fraction)
    requires x.IsCanonical() && y.IsCanonical() && z.IsCanonical()
    requires Less(x, y) && Less(y, z)
    ensures Less(x, z)
  {
    LessValue(x, y);
    LessValue(y, z);
    LessValue(x, z);
  }

  /** x <= y is x < y or x == y. */
  lemma LessEqIff(x: Fraction, y: Fraction)
    requires x.IsCanonical() && y.IsCanonical()
    ensures LessEq(x, y) <==> Less(x, y) || x == y
  {
    LessValue(x, y);
    LessEqValue(x, y);
    EqualIffSameValue(x, y);
  }

  /** When x <= y, x >= y holds exactly when x == y (and symmetrically). */
  lemma LessEqAntisymmetric(x: Fraction, y: Fraction)
    requires x.IsCanonical() && y.IsCanonical() && LessEq(x, y)
    ensures GreaterEq(y, x)
    ensures GreaterEq(x, y) <==> x == y
    ensures LessEq(y, x) <==> x == y
  {
    LessEqIff(x, y);
    LessEqIff(y, x);
    Trichotomy(x, y);
  }

  /** For a < b: a < b, not a > b, b > a and not b < a. */
  lemma LessAsymmetric(x: Fraction, y: Fraction)
    requires Less(x, y)
    ensures !Greater(x, y) && Greater(y, x) && !Less(y, x)
  {
  }

  /** No fraction is less than itself. */
  lemma LessIrreflexive(x: Fraction)
    ensures !Less(x, x) && LessEq(x, x)
  {
  }
}
