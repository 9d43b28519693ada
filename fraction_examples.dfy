/** The concrete values of the Fraction test suite, as lemmas about the
    value model, and the compound assignments on 64-bit variables as
    client methods of FractionVar. */
module FractionExamples {
  import opened NumberTheory
  import opened Fractions
  import opened FractionLaws
  import opened FractionText
  import opened FixedWidth

  /** n/d reduces to p/q when p/q is in lowest terms with the same value. */
  lemma ReducesTo(n: int, d: int, p: int, q: int)
    requires d != 0 && Fraction(p, q).IsCanonical() && n * q == p * d
    ensures Make(n, d) == Fraction(p, q)
  {
    MakeEqualIff(n, d, p, q);
    MakeCanonical(Fraction(p, q));
  }

  // ----- construction ------------------------------------------------------------

  lemma Construct()
    ensures Zero() == Fraction(0, 1) && FromInt(1) == Fraction(1, 1) && FromInt(5) == Fraction(5, 1)
    ensures Make(2, 3) == Fraction(2, 3)
  {
    ReducesTo(2, 3, 2, 3);
  }

  lemma ConstructNegative()
    ensures FromInt(-1) == Fraction(-1, 1) && Make(-4, 1) == Fraction(-4, 1)
    ensures Make(5, -1) == Fraction(-5, 1) && Make(2, -3) == Fraction(-2, 3)
  {
    ReducesTo(-4, 1, -4, 1);
    ReducesTo(5, -1, -5, 1);
    ReducesTo(2, -3, -2, 3);
  }

  lemma Reduce()
    ensures Make(-1, -1) == Fraction(1, 1) && Make(42, 42) == Fraction(1, 1)
    ensures Make(42, 21) == Fraction(2, 1) && Make(42, -21) == Fraction(-2, 1)
    ensures Make(21, 42) == Fraction(1, 2)
  {
    ReducesTo(-1, -1, 1, 1);
    ReducesTo(42, 42, 1, 1);
    ReducesTo(42, 21, 2, 1);
    ReducesTo(42, -21, -2, 1);
    ReducesTo(21, 42, 1, 2);
  }

  /** Both parts share the factor 9233212443639773. */
  lemma ReduceBig()
    ensures Make(9214746018752493454, 507826684400187515) == Fraction(998, 55)
  {
    assert Gcd(998, 55) == 1;
    ReducesTo(9214746018752493454, 507826684400187515, 998, 55);
  }

  lemma ReduceZero()
    ensures Make(0, -5) == Fraction(0, 1)
    ensures Make(5, 0) == Fraction(1, 0) && Make(-5, 0) == Fraction(-1, 0) && Make(0, 0) == Fraction(0, 0)
  {
    ZeroNumerator(-5);
  }

  lemma Equals()
    ensures Make(1, 2) == Make(20, 40)
    ensures Make(1, 2) != Make(1000000000000000000, 2000000000000000001)
  {
    MakeEqualIff(1, 2, 20, 40);
    MakeEqualIff(1, 2, 1000000000000000000, 2000000000000000001);
  }

  // ----- arithmetic ----------------------------------------------------------------

  lemma AddExamples()
    ensures Add(Make(3, 5), FromInt(0)) == Make(3, 5)
    ensures Add(Make(3, 5), FromInt(1)) == Make(8, 5)
    ensures Add(Make(3, 5), Make(-42, 43)) == Make(-81, 215)
  {
    ReducesTo(3, 5, 3, 5);
    AddZero(Fraction(3, 5));
    AddOneExample();
    AddExample();
  }

  lemma AddOneExample()
    ensures Add(Make(3, 5), FromInt(1)) == Make(8, 5)
  {
    ReducesTo(3, 5, 3, 5);
    assert Gcd(8, 5) == 1;
    ReducesTo(3 + 5, 5, 8, 5);
  }

  lemma AddExample()
    ensures Add(Make(3, 5), Make(-42, 43)) == Make(-81, 215)
  {
    ReducesTo(3, 5, 3, 5);
    ReducesTo(-42, 43, -42, 43);
    assert Gcd(81, 215) == 1;
    ReducesTo(3 * 43 + (-42) * 5, 5 * 43, -81, 215);
    ReducesTo(-81, 215, -81, 215);
  }

  lemma SubExamples()
    ensures Sub(Make(3, 5), FromInt(0)) == Make(3, 5)
    ensures Sub(Make(3, 5), FromInt(1)) == Make(-2, 5)
    ensures Sub(Make(3, 5), Make(-42, 43)) == Make(339, 215)
  {
    ReducesTo(3, 5, 3, 5);
    SubZero(Fraction(3, 5));
    SubOneExample();
    SubExample();
  }

  lemma SubOneExample()
    ensures Sub(Make(3, 5), FromInt(1)) == Make(-2, 5)
  {
    ReducesTo(3, 5, 3, 5);
    NegValue(FromInt(1));
    assert Gcd(2, 5) == 1;
    ReducesTo(-2, 5, -2, 5);
    ReducesTo(3 + (-1) * 5, 5, -2, 5);
  }

  lemma SubExample()
    ensures Sub(Make(3, 5), Make(-42, 43)) == Make(339, 215)
  {
    ReducesTo(3, 5, 3, 5);
    ReducesTo(-42, 43, -42, 43);
    NegValue(Fraction(-42, 43));
    assert Gcd(339, 215) == 1;
    ReducesTo(339, 215, 339, 215);
    ReducesTo(3 * 43 + 42 * 5, 5 * 43, 339, 215);
  }

  lemma MulExamples()
    ensures Mul(FromInt(0), FromInt(0)) == FromInt(0) && Mul(FromInt(0), FromInt(1)) == FromInt(0)
    ensures Mul(FromInt(1), FromInt(0)) == FromInt(0) && Mul(FromInt(1), FromInt(1)) == FromInt(1)
    ensures Mul(Make(-2, 3), FromInt(0)) == FromInt(0) && Mul(Make(-2, 3), FromInt(1)) == Make(-2, 3)
    ensures Mul(FromInt(0), Make(-2, 3)) == FromInt(0) && Mul(FromInt(1), Make(-2, 3)) == Make(-2, 3)
    ensures Mul(Make(-2, 3), Make(11, 20)) == Make(-11, 30) && Mul(Make(11, 20), Make(-2, 3)) == Make(-11, 30)
    ensures Mul(Mul(Make(-2, 3), Make(11, 20)), Make(-42, 43)) == Make(77, 215)
    ensures Mul(Make(-2, 3), Mul(Make(11, 20), Make(-42, 43))) == Make(77, 215)
  {
    var x, y, z := Fraction(-2, 3), Fraction(11, 20), Fraction(-42, 43);
    ReducesTo(-2, 3, -2, 3);
    ReducesTo(11, 20, 11, 20);
    ReducesTo(-42, 43, -42, 43);
    MulZero(FromInt(0));
    MulZero(FromInt(1));
    MulOne(FromInt(1));
    MulZero(x);
    MulOne(x);
    ReducesTo(-22, 60, -11, 30);
    ReducesTo(-11, 30, -11, 30);
    MulCommutative(x, y);
    ReducesTo(-11 * -42, 30 * 43, 77, 215);
    ReducesTo(77, 215, 77, 215);
    MulAssociative(x, y, z);
  }

  lemma DivExamples()
    ensures Div(FromInt(0), FromInt(1)) == FromInt(0) && Div(FromInt(1), FromInt(1)) == FromInt(1)
    ensures Div(FromInt(0), FromInt(MAX_INT64)) == FromInt(0)
    ensures Div(FromInt(1), FromInt(MAX_INT64)) == Make(1, MAX_INT64)
    ensures Div(Make(-2, 3), FromInt(1)) == Make(-2, 3) && Div(FromInt(0), Make(-2, 3)) == FromInt(0)
    ensures Div(FromInt(1), Make(-2, 3)) == Make(-3, 2)
    ensures Div(Make(-2, 3), Make(42, 123)) == Make(-41, 21) && Div(Make(42, 123), Make(-2, 3)) == Make(-21, 41)
    ensures Div(Make(-2, 3), Make(42, 123)) == Div(FromInt(1), Div(Make(42, 123), Make(-2, 3)))
    ensures Div(Make(42, 123), Make(-2, 3)) == Div(FromInt(1), Div(Make(-2, 3), Make(42, 123)))
  {
    var x, y := Fraction(-2, 3), Fraction(14, 41);
    ReducesTo(-2, 3, -2, 3);
    ReducesTo(42, 123, 14, 41);
    DivOne(FromInt(0));
    DivOne(FromInt(1));
    ZeroDiv(FromInt(MAX_INT64));
    assert Gcd(1, MAX_INT64) == 1;
    ReducesTo(1, MAX_INT64, 1, MAX_INT64);
    ReciprocalForm(FromInt(MAX_INT64));
    DivOne(x);
    ZeroDiv(x);
    DivMake(FromInt(1), x);
    ReducesTo(1 * 3, 1 * -2, -3, 2);
    DivMake(x, y);
    DivMake(y, x);
    ReducesTo(-2 * 41, 3 * 14, -41, 21);
    ReducesTo(14 * 3, 41 * -2, -21, 41);
    ReducesTo(-41, 21, -41, 21);
    ReducesTo(-21, 41, -21, 41);
    DivReciprocal(x, y);
    DivReciprocal(y, x);
  }

  lemma NegExamples()
    ensures Neg(Make(-1, 2)) == Sub(FromInt(0), Make(-1, 2)) && Neg(Neg(Make(-1, 2))) == Make(-1, 2)
  {
    ReducesTo(-1, 2, -1, 2);
    NegIsZeroMinus(Fraction(-1, 2));
    NegInvolutive(Fraction(-1, 2));
  }

  // ----- the extreme values ------------------------------------------------------

  lemma MaxCanonical()
    ensures Make(1, MAX_INT64) == Fraction(1, MAX_INT64) && Make(2, MAX_INT64) == Fraction(2, MAX_INT64)
    ensures Make(3, MAX_INT64) == Fraction(3, MAX_INT64) && Make(5, MAX_INT64) == Fraction(5, MAX_INT64)
    ensures Make(-1, MAX_INT64) == Fraction(-1, MAX_INT64) && Make(-2, MAX_INT64) == Fraction(-2, MAX_INT64)
    ensures Make(MAX_INT64, 5) == Fraction(MAX_INT64, 5)
  {
    assert Gcd(1, MAX_INT64) == 1 && Gcd(2, MAX_INT64) == 1 && Gcd(3, MAX_INT64) == 1;
    assert Gcd(5, MAX_INT64) == 1 && Gcd(MAX_INT64, 5) == 1;
    ReducesTo(1, MAX_INT64, 1, MAX_INT64);
    ReducesTo(2, MAX_INT64, 2, MAX_INT64);
    ReducesTo(3, MAX_INT64, 3, MAX_INT64);
    ReducesTo(5, MAX_INT64, 5, MAX_INT64);
    ReducesTo(-1, MAX_INT64, -1, MAX_INT64);
    ReducesTo(-2, MAX_INT64, -2, MAX_INT64);
    ReducesTo(MAX_INT64, 5, MAX_INT64, 5);
  }

  /** The sum, difference, product and quotient of fractions with
      denominator MAX_INT64 are exact. */
  lemma BigExamples()
    ensures Add(Make(1, MAX_INT64), Make(2, MAX_INT64)) == Make(3, MAX_INT64)
    ensures Sub(Make(3, MAX_INT64), Make(2, MAX_INT64)) == Make(1, MAX_INT64)
    ensures Mul(Make(3, MAX_INT64), Make(MAX_INT64, 5)) == Make(3, 5)
    ensures Div(Make(3, MAX_INT64), Make(5, MAX_INT64)) == Make(3, 5)
  {
    MaxCanonical();
    ReducesTo(3, 5, 3, 5);
    var m := MAX_INT64;
    ReducesTo(1 * m + 2 * m, m * m, 3, m);
    NegValue(Fraction(2, m));
    ReducesTo(3 * m + (-2) * m, m * m, 1, m);
    ReducesTo(3 * m, m * 5, 3, 5);
    DivMake(Fraction(3, m), Fraction(5, m));
    ReducesTo(3 * m, m * 5, 3, 5);
  }

  /** The cross-reduced sum of 1/MAX_INT64 and 2/MAX_INT64 fits in 64 bits
      although the plain product of the denominators does not. */
  lemma AddFitsBeyondPlain()
    ensures AddFits(Fraction(1, MAX_INT64), Fraction(2, MAX_INT64))
    ensures SubFits(Fraction(3, MAX_INT64), Fraction(2, MAX_INT64))
    ensures !InInt64(MAX_INT64 * MAX_INT64) && !InInt64(3 * MAX_INT64)
  {
    var m := MAX_INT64;
    assert Gcd(m, m) == m by {
      assert m % m == 0;
    }
  }

  /** The four checks of expectLess: l < r, not l > r, r > l, not r < l. */
  predicate ExpectLess(l: Fraction, r: Fraction) {
    Less(l, r) && !Greater(l, r) && Greater(r, l) && !Less(r, l)
  }

  /** The four checks of expectLessEq: l <= r, (l >= r) == (l == r),
      r >= l, (r <= l) == (l == r). */
  predicate ExpectLessEq(l: Fraction, r: Fraction) {
    LessEq(l, r) && (GreaterEq(l, r) <==> l == r) && GreaterEq(r, l) && (LessEq(r, l) <==> l == r)
  }

  /** A canonical pair with l <= r passes expectLessEq. */
  lemma PassesLessEq(l: Fraction, r: Fraction)
    requires l.IsCanonical() && r.IsCanonical() && LessEq(l, r)
    ensures ExpectLessEq(l, r)
  {
    LessEqAntisymmetric(l, r);
  }

  lemma CompareStrict()
    ensures ExpectLess(FromInt(0), FromInt(1)) && ExpectLess(FromInt(-1), FromInt(0))
    ensures ExpectLess(FromInt(2), FromInt(42)) && ExpectLess(FromInt(-42), FromInt(42))
    ensures ExpectLess(FromInt(0), FromInt(MAX_INT64)) && ExpectLess(FromInt(MIN_INT64), FromInt(0))
    ensures ExpectLess(FromInt(MIN_INT64), FromInt(MAX_INT64))
    ensures ExpectLess(Make(1, 3), Make(1, 2)) && ExpectLess(Make(1, 2), Make(2, 3))
    ensures ExpectLess(Make(1, MAX_INT64), Make(2, MAX_INT64))
    ensures ExpectLess(Make(-2, MAX_INT64), Make(-1, MAX_INT64))
    ensures !Less(Zero(), Zero()) && !Less(Make(-5, 41), Make(-5, 41))
  {
    MaxCanonical();
    ReducesTo(1, 3, 1, 3);
    ReducesTo(1, 2, 1, 2);
    ReducesTo(2, 3, 2, 3);
  }

  lemma CompareNonStrict()
    ensures ExpectLessEq(FromInt(0), FromInt(1)) && ExpectLessEq(FromInt(-1), FromInt(0))
    ensures ExpectLessEq(FromInt(2), FromInt(42)) && ExpectLessEq(FromInt(-42), FromInt(42))
    ensures ExpectLessEq(FromInt(0), FromInt(MAX_INT64)) && ExpectLessEq(FromInt(MIN_INT64), FromInt(0))
    ensures ExpectLessEq(FromInt(MIN_INT64), FromInt(MAX_INT64))
    ensures ExpectLessEq(FromInt(MIN_INT64), FromInt(MIN_INT64))
    ensures ExpectLessEq(FromInt(MAX_INT64), FromInt(MAX_INT64))
    ensures ExpectLessEq(Make(1, 3), Make(1, 2)) && ExpectLessEq(Make(1, 2), Make(2, 3))
    ensures ExpectLessEq(Make(1, MAX_INT64), Make(2, MAX_INT64))
    ensures ExpectLessEq(Make(-2, MAX_INT64), Make(-1, MAX_INT64))
    ensures ExpectLessEq(Zero(), Zero()) && ExpectLessEq(Make(-5, 41), Make(-5, 41))
  {
    CompareNonStrictIntegers();
    MaxCanonical();
    ReducesTo(1, 3, 1, 3);
    ReducesTo(1, 2, 1, 2);
    ReducesTo(2, 3, 2, 3);
    ReducesTo(-5, 41, -5, 41);
    PassesLessEq(Fraction(1, 3), Fraction(1, 2));
    PassesLessEq(Fraction(1, 2), Fraction(2, 3));
    PassesLessEq(Fraction(1, MAX_INT64), Fraction(2, MAX_INT64));
    PassesLessEq(Fraction(-2, MAX_INT64), Fraction(-1, MAX_INT64));
    PassesLessEq(Zero(), Zero());
    PassesLessEq(Fraction(-5, 41), Fraction(-5, 41));
  }

  /** The integer pairs of the non-strict comparison test. */
  lemma CompareNonStrictIntegers()
    ensures ExpectLessEq(FromInt(0), FromInt(1)) && ExpectLessEq(FromInt(-1), FromInt(0))
    ensures ExpectLessEq(FromInt(2), FromInt(42)) && ExpectLessEq(FromInt(-42), FromInt(42))
    ensures ExpectLessEq(FromInt(0), FromInt(MAX_INT64)) && ExpectLessEq(FromInt(MIN_INT64), FromInt(0))
    ensures ExpectLessEq(FromInt(MIN_INT64), FromInt(MAX_INT64))
    ensures ExpectLessEq(FromInt(MIN_INT64), FromInt(MIN_INT64))
    ensures ExpectLessEq(FromInt(MAX_INT64), FromInt(MAX_INT64))
  {
    PassesLessEq(FromInt(0), FromInt(1));
    PassesLessEq(FromInt(-1), FromInt(0));
    PassesLessEq(FromInt(2), FromInt(42));
    PassesLessEq(FromInt(-42), FromInt(42));
    PassesLessEq(FromInt(0), FromInt(MAX_INT64));
    PassesLessEq(FromInt(MIN_INT64), FromInt(0));
    PassesLessEq(FromInt(MIN_INT64), FromInt(MAX_INT64));
    PassesLessEq(FromInt(MIN_INT64), FromInt(MIN_INT64));
    PassesLessEq(FromInt(MAX_INT64), FromInt(MAX_INT64));
  }

  lemma StrExamples()
    ensures Str(Zero()) == "0/1" && Str(FromInt(5)) == "5/1"
    ensures Str(Make(-42, 5)) == "-42/5" && Str(Make(5, -10)) == "-1/2"
  {
    ReducesTo(-42, 5, -42, 5);
    ReducesTo(5, -10, -1, 2);
    assert NatToString(42) == "42";
  }

  // ----- compound assignment on 64-bit variables ---------------------------------

  /** x = 3/5; x += -42/43 gives -81/215 and leaves the operand alone. */
  method AddAssignExample() returns (x: FractionVar, y: FractionVar)
    ensures x.Get() == Make(-81, 215) && y.Get() == Make(-42, 43)
  {
    ReducesTo(3, 5, 3, 5);
    ReducesTo(-42, 43, -42, 43);
    x := new FractionVar(3, 5);
    y := new FractionVar(-42, 43);
    PlainAddFits(x.Get(), y.Get());
    x.AddAssign(y);
    AddExamples();
  }

  /** x = 3/5; x -= -42/43 gives 339/215 and leaves the operand alone. */
  method SubAssignExample() returns (x: FractionVar, y: FractionVar)
    ensures x.Get() == Make(339, 215) && y.Get() == Make(-42, 43)
  {
    ReducesTo(3, 5, 3, 5);
    ReducesTo(-42, 43, -42, 43);
    x := new FractionVar(3, 5);
    y := new FractionVar(-42, 43);
    PlainSubFits(x.Get(), y.Get());
    x.SubAssign(y);
    SubExamples();
  }

  /** x = -2/3; x *= -1 gives 2/3. */
  method MulAssignExample() returns (x: FractionVar)
    ensures x.Get() == Fraction(2, 3)
  {
    ReducesTo(-2, 3, -2, 3);
    x := new FractionVar(-2, 3);
    var m := new FractionVar.FromInt(-1);
    MulMinusOne(x.Get());
    NegValue(x.Get());
    x.MulAssign(m);
  }

  /** x = -2/3; x /= -1 gives 2/3. */
  method DivAssignExample() returns (x: FractionVar)
    ensures x.Get() == Fraction(2, 3) && x.den > 0
  {
    ReducesTo(-2, 3, -2, 3);
    x := new FractionVar(-2, 3);
    var m := new FractionVar.FromInt(-1);
    DivMinusOne(x.Get());
    NegValue(x.Get());
    x.DivAssign(m);
  }

  /** 1/MAX_INT64 += 2/MAX_INT64 in 64 bits. */
  method AddBigExample() returns (x: FractionVar)
    ensures x.Get() == Make(3, MAX_INT64)
  {
    MaxCanonical();
    x := new FractionVar(1, 0x7FFF_FFFF_FFFF_FFFF);
    var y := new FractionVar(2, 0x7FFF_FFFF_FFFF_FFFF);
    AddFitsBeyondPlain();
    x.AddAssign(y);
    BigExamples();
  }

  /** 3/MAX_INT64 -= 2/MAX_INT64 in 64 bits. */
  method SubBigExample() returns (x: FractionVar)
    ensures x.Get() == Make(1, MAX_INT64)
  {
    MaxCanonical();
    x := new FractionVar(3, 0x7FFF_FFFF_FFFF_FFFF);
    var y := new FractionVar(2, 0x7FFF_FFFF_FFFF_FFFF);
    AddFitsBeyondPlain();
    x.SubAssign(y);
    BigExamples();
  }

  /** 3/MAX_INT64 *= MAX_INT64/5 in 64 bits. */
  method MulBigExample() returns (x: FractionVar)
    ensures x.Get() == Make(3, 5)
  {
    MaxCanonical();
    x := new FractionVar(3, 0x7FFF_FFFF_FFFF_FFFF);
    var y := new FractionVar(0x7FFF_FFFF_FFFF_FFFF, 5);
    BigExamples();
    ReducesTo(3, 5, 3, 5);
    x.MulAssign(y);
  }

  /** 3/MAX_INT64 /= 5/MAX_INT64 in 64 bits. */
  method DivBigExample() returns (x: FractionVar)
    ensures x.Get() == Make(3, 5)
  {
    MaxCanonical();
    x := new FractionVar(3, 0x7FFF_FFFF_FFFF_FFFF);
    var y := new FractionVar(5, 0x7FFF_FFFF_FFFF_FFFF);
    BigExamples();
    ReducesTo(3, 5, 3, 5);
    x.DivAssign(y);
  }
}
