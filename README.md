# Fraction: an exact rational value type

This project models `Fraction`, an exact rational number held as a
numerator/denominator pair. The behaviour modelled is the one its
GoogleTest suite, `src/test_fraction.cpp`, asserts. The type has:

- a reducing constructor `Fraction(n, d)` that brings every pair to lowest
  terms, with a positive denominator and the sign on the numerator;
- `Fraction()` for zero and `Fraction(n)` for an integer;
- three zero-denominator special forms, `1/0`, `-1/0` and `0/0`, for
  `n/0` with `n` positive, negative or zero;
- the operators `+ - * /`, unary `-`, and the compound assignments
  `+= -= *= /=`;
- the comparisons `== != < > <= >=`;
- `str()`, which prints `"<num>/<den>"`.

The header `fraction.h` is not part of this model. Everything below follows
what the tests assert. Where they leave the implementation open, the model
makes its own choices, and those choices are named here.

Modules:

- `NumberTheory` (number_theory.dfy): divisibility and Euclid's `Gcd`, with
  the facts about them that the reduction needs: the gcd divides both
  arguments, is the greatest common divisor, quotients by it are coprime,
  and Euclid's lemma.
- `Fractions` (fraction.dfy): the `Fraction` datatype, the reducing
  constructor `Make`, and the operators as functions over unbounded
  integers. `Value` is the exact rational (a `real`) that a finite fraction
  stands for. It is the reference meaning against which every operator is
  proved. Comparisons use cross multiplication.
- `FractionLaws` (fraction_laws.dfy): the algebraic laws the tests check
  on particular values, proved for all canonical fractions: identities,
  commutativity, associativity, negation, reciprocals, `x / y == 1 / (y / x)`,
  and the ordering laws.
- `CrossReduction` (cross_reduction.dfy): each operator computed from
  gcd-reduced factors, proved equal to the plain formula.
- `FixedWidth` (fixed_width.dfy): the 64-bit representation.
  - `FractionVar` is a class with two `int64` fields, numerator and
    denominator. The suite asserts only that the object is as large as two
    `double`s (src/test_fraction.cpp:14). Two signed 64-bit integers is an
    inference from that and from the `MAX_INT64` and `MIN_INT64` tests.
  - Its constructors and the methods `AddAssign`, `SubAssign`, `MulAssign`
    and `DivAssign` (`+= -= *= /=`) update the object in place.
  - Every step computes in `int64`/`uint64` newtypes, so Dafny checks that
    nothing overflows.
  - Each method's new state is proved equal to the corresponding operator
    of `Fractions`.
- `FractionText` (fraction_text.dfy): `Str` (`str()`), with a parser as
  its partner. Parsing what `Str` prints gives the fraction back, so no two
  fractions print alike.
- `FractionExamples` (fraction_examples.dfy): the concrete assertions of
  the construction, reduction, equality, arithmetic, comparison and
  `str()` tests, each stated as a lemma or as a client method of
  `FractionVar`. The two comparison tests check four facts per pair.
  `ExpectLess` and `ExpectLessEq` restate those four facts, and
  `CompareStrict`/`CompareNonStrict` state them for every pair. The
  assertions of the traits, `double` conversion and printing tests are not
  modelled (see "## Left out").

Modelling decisions:

- Operators take canonical operands, i.e. finite fractions in lowest terms.
  Results on the special forms are not specified, because the tests assert
  none. The exception is dividing by zero, which gives the special form
  with the sign of the dividend; that is where the model's formula leads.
- `==` is structural equality of the canonical pair. This is why equality
  does not depend on the pair a value was reduced from
  (`CanonicalUnique`).
- The tests need `1/MAX_INT64 + 2/MAX_INT64` and `3/MAX_INT64 * MAX_INT64/5`
  in 64 bits, where the plain cross products overflow. The model's 64-bit
  algorithms therefore reduce before they multiply:
  - addition and subtraction work over the common multiple `(b/g)*d`, with
    `g = gcd(b, d)`;
  - multiplication reduces each numerator against the other denominator;
  - division reduces the numerators by their gcd and the denominators by
    theirs.

  This is a modelling choice. The source's own algorithm is not shown.
- The 64-bit comparisons are not modelled step by step. `CrossProductIn128`
  shows that the cross products of 64-bit parts fit in a signed 128-bit
  integer. Comparing by cross multiplication is therefore exact at that
  width, and the unbounded `Less`/`LessEq` of `Fractions` describe it.
- `MIN_INT64` and `MAX_INT64` are the constants of
  `src/test_fraction.cpp:9-10`. `InInt64` is the range predicate the
  extreme-value tests rely on.

## Model

| member | source | states |
|---|---|---|
| Fractions.Make | src/test_fraction.cpp:37-100 | the reduced result is valid; with d != 0 it is canonical (den > 0, gcd(\|num\|, den) == 1) and has the exact value n/d; with d == 0 it is the special form sign(n)/0 |
| Fractions.Zero | src/test_fraction.cpp:18-22 | Fraction() is canonical with value 0 |
| Fractions.FromInt | src/test_fraction.cpp:24-30 | Fraction(n) is n/1, canonical, with value n |
| Fractions.Sign | src/test_fraction.cpp:89-99 | the sign carried by the special forms: 1, -1 or 0 exactly when n is positive, negative or zero |
| Fractions.Neg | src/test_fraction.cpp:244-250 | unary minus, Make(-num, den); its contract is NegValue, and NegIsZeroMinus and NegInvolutive are its laws |
| Fractions.Add | src/test_fraction.cpp:141-159 | x + y, Make(a*d + c*b, b*d); its contract is AddValue, with AddZero, AddCommutative and AddAssociative |
| Fractions.Sub | src/test_fraction.cpp:161-179 | x - y as x + (-y); its contract is SubValue, with SubZero and SubUndoesAdd |
| Fractions.Mul | src/test_fraction.cpp:181-212 | x * y, Make(a*c, b*d); its contract is MulValue, with MulZero, MulOne, MulCommutative and MulAssociative |
| Fractions.Reciprocal | src/test_fraction.cpp:226 | Make(den, num); its contract is ReciprocalValue and ReciprocalForm, and OneDiv makes it 1 / x |
| Fractions.Div | src/test_fraction.cpp:214-242 | x / y as x * Reciprocal(y); its contract is DivValue, with DivOne, ZeroDiv, DivReciprocal and DivUndoesMul |
| Fractions.Less | src/test_fraction.cpp:252-278 | x < y by cross multiplication; its contract is LessValue, with Trichotomy, LessTransitive and LessAsymmetric |
| Fractions.LessEq | src/test_fraction.cpp:280-308 | x <= y by cross multiplication; its contract is LessEqValue, with LessEqIff and LessEqAntisymmetric |
| Fractions.Greater | src/test_fraction.cpp:256-258 | x > y is y < x; LessAsymmetric relates it to < |
| Fractions.GreaterEq | src/test_fraction.cpp:284-286 | x >= y is y <= x; LessEqAntisymmetric relates it to <= |
| Fractions.CanonicalUnique | src/test_fraction.cpp:122-139 | two canonical fractions with equal cross products are the same pair: the canonical form of a rational is unique |
| Fractions.EqualIffSameValue | src/test_fraction.cpp:122-139 | canonical fractions are equal exactly when their values are equal |
| Fractions.MakeOfValue | src/test_fraction.cpp:56-81 | the constructor returns the canonical fraction of the pair's value |
| Fractions.MakeScale | src/test_fraction.cpp:56-77 | a common factor of both parts does not change the result of the constructor |
| Fractions.MakeCanonical | src/test_fraction.cpp:32-34 | a pair already in lowest terms is kept as it is |
| Fractions.NegValue | src/test_fraction.cpp:244-250 | -x is (-num)/den, canonical, with value -Value(x) |
| Fractions.AddValue | src/test_fraction.cpp:141-149 | x + y is canonical with value Value(x) + Value(y) |
| Fractions.SubValue | src/test_fraction.cpp:161-169 | x - y is canonical with value Value(x) - Value(y) |
| Fractions.MulValue | src/test_fraction.cpp:181-203 | x * y is canonical with value Value(x) * Value(y) |
| Fractions.ValueZero | src/test_fraction.cpp:83-87 | a canonical fraction has value 0 exactly when its numerator is 0 |
| Fractions.ReciprocalValue | src/test_fraction.cpp:226 | Reciprocal(x) of a nonzero x is canonical with value 1 / Value(x); OneDiv shows it is 1 / x |
| Fractions.DivValue | src/test_fraction.cpp:214-233 | x / y for nonzero y is canonical with value Value(x) / Value(y) |
| Fractions.LessValue | src/test_fraction.cpp:252-278 | x < y by cross multiplication holds exactly when Value(x) < Value(y) |
| Fractions.LessEqValue | src/test_fraction.cpp:280-308 | x <= y by cross multiplication holds exactly when Value(x) <= Value(y) |
| FractionLaws.ZeroNumerator | src/test_fraction.cpp:85-87 | zero over any nonzero denominator is 0/1 |
| FractionLaws.MakeEqualIff | src/test_fraction.cpp:122-139 | two pairs construct equal fractions exactly when n1*d2 == n2*d1 |
| FractionLaws.AddZero | src/test_fraction.cpp:146 | x + 0 == x and 0 + x == x |
| FractionLaws.SubZero | src/test_fraction.cpp:166 | x - 0 == x |
| FractionLaws.AddCommutative | src/test_fraction.cpp:141-159 | x + y == y + x |
| FractionLaws.AddAssociative | src/test_fraction.cpp:141-159 | (x + y) + z == x + (y + z) |
| FractionLaws.SubUndoesAdd | src/test_fraction.cpp:161-174 | (x + y) - y == x |
| FractionLaws.NegIsZeroMinus | src/test_fraction.cpp:248 | -x == 0 - x |
| FractionLaws.NegInvolutive | src/test_fraction.cpp:249 | -(-x) == x |
| FractionLaws.MulZero | src/test_fraction.cpp:183-192 | x * 0 == 0 and 0 * x == 0 |
| FractionLaws.MulOne | src/test_fraction.cpp:186-193 | x * 1 == x and 1 * x == x |
| FractionLaws.MulCommutative | src/test_fraction.cpp:197-198 | x * y == y * x |
| FractionLaws.MulMakeRight | src/test_fraction.cpp:200-203 | z * Fraction(n, d) == Fraction(z.num * n, z.den * d) |
| FractionLaws.MulMakeLeft | src/test_fraction.cpp:200-203 | Fraction(n, d) * z == Fraction(n * z.num, d * z.den) |
| FractionLaws.MulAssociative | src/test_fraction.cpp:202-203 | (x * y) * z == x * (y * z) |
| FractionLaws.MulReciprocal | src/test_fraction.cpp:226-233 | y * (1 / y) == 1 for nonzero y |
| FractionLaws.MulMinusOne | src/test_fraction.cpp:205-206 | x * -1 == -x |
| FractionLaws.DivOne | src/test_fraction.cpp:216-224 | x / 1 == x |
| FractionLaws.ZeroDiv | src/test_fraction.cpp:216-225 | 0 / x == 0 for nonzero x |
| FractionLaws.DivMinusOne | src/test_fraction.cpp:235-236 | x / -1 == -x, with a positive denominator |
| FractionLaws.DivMake | src/test_fraction.cpp:214-231 | x / y == Fraction(x.num * y.den, x.den * y.num) |
| FractionLaws.ReciprocalForm | src/test_fraction.cpp:226 | Reciprocal(y) is (sign(y.num) * y.den) / \|y.num\|, canonical |
| FractionLaws.OneDiv | src/test_fraction.cpp:226 | 1 / x, i.e. Div(FromInt(1), x), is Reciprocal(x) for nonzero x |
| FractionLaws.DivUndoesMul | src/test_fraction.cpp:214-237 | (x * y) / y == x for nonzero y |
| FractionLaws.DivReciprocal | src/test_fraction.cpp:232-233 | x / y == 1 / (y / x) for nonzero x and y |
| FractionLaws.DivByZero | src/test_fraction.cpp:89-95 | x / 0 is the special form sign(x.num)/0 that those lines construct; no test divides by zero, and the result follows from the division rule, since the reciprocal of 0/1 is 1/0; DivAssign uses it for its zero branch |
| FractionLaws.Trichotomy | src/test_fraction.cpp:252-278 | exactly one of x < y, x == y, x > y holds |
| FractionLaws.LessTransitive | src/test_fraction.cpp:252-278 | x < y and y < z give x < z |
| FractionLaws.LessEqIff | src/test_fraction.cpp:280-308 | x <= y exactly when x < y or x == y |
| FractionLaws.LessEqAntisymmetric | src/test_fraction.cpp:282-288 | when x <= y: y >= x, and x >= y (and y <= x) hold exactly when x == y |
| FractionLaws.LessAsymmetric | src/test_fraction.cpp:254-260 | when x < y: not x > y, y > x, not y < x |
| FractionLaws.LessIrreflexive | src/test_fraction.cpp:276-277 | not x < x, and x <= x |
| CrossReduction.ExactQuotient | src/test_fraction.cpp:56-81 | an exact quotient keeps the sign and divides the magnitude |
| CrossReduction.ReduceByGcd | src/test_fraction.cpp:56-81 | with a positive denominator m, Fraction(n, m) is (n/g)/(m/g) for g = gcd(\|n\|, m) |
| CrossReduction.ReduceSigned | src/test_fraction.cpp:37-81 | with d != 0, Fraction(n, d) divides both parts by gcd(\|n\|, \|d\|) and then moves a negative sign to the numerator |
| CrossReduction.MulCrossCoprime | src/test_fraction.cpp:209-212 | the cross-reduced factors of a product are pairwise coprime, so the products are in lowest terms |
| CrossReduction.MulCross | src/test_fraction.cpp:181-212 | x * y == ((a/g1)*(c/g2)) / ((b/g2)*(d/g1)) exactly, with g1 = gcd(\|a\|, d) and g2 = gcd(\|c\|, b) |
| CrossReduction.DivCross | src/test_fraction.cpp:214-242 | x / y == (sign(c)*(a/g1)*(d/g2)) / ((b/g2)*\|c/g1\|) exactly, with g1 = gcd(\|a\|, \|c\|) and g2 = gcd(d, b) |
| CrossReduction.AddCross | src/test_fraction.cpp:141-159 | x + y == Fraction(a*(d/g) + c*(b/g), (b/g)*d), with g = gcd(b, d) |
| CrossReduction.SubCross | src/test_fraction.cpp:161-179 | x - y == Fraction(a*(d/g) - c*(b/g), (b/g)*d), with g = gcd(b, d) |
| NumberTheory.GcdDivides | src/test_fraction.cpp:56-81 | gcd(a, b) divides a and b |
| NumberTheory.GcdGreatest | src/test_fraction.cpp:56-81 | every common divisor of a and b divides gcd(a, b) |
| NumberTheory.GcdQuotientsCoprime | src/test_fraction.cpp:56-81 | dividing a and b by their gcd leaves coprime quotients |
| NumberTheory.EuclidLemma | src/test_fraction.cpp:122-139 | if k divides p*s and is coprime to p, then k divides s |
| FixedWidth.InInt64 | src/test_fraction.cpp:9-10 | x lies between MIN_INT64 and MAX_INT64, the range the extreme-value tests use |
| FixedWidth.FractionVar.Get | src/test_fraction.cpp:21-22 | numerator() and denominator() of a variable, as the Fraction value its fields hold |
| FixedWidth.Magnitude | src/test_fraction.cpp:37-81 | the unsigned magnitude of an int64, including 2^63 for MIN_INT64 |
| FixedWidth.Quotient | src/test_fraction.cpp:56-81 | the exact int64 quotient n / g, also for g == 2^63 |
| FixedWidth.GcdOf | src/test_fraction.cpp:56-81 | Euclid's loop on uint64 returns Gcd(a, b) |
| FixedWidth.ReducePositive | src/test_fraction.cpp:141-179 | the int64 pair reduced by GcdOf is Fraction(n, m) |
| FixedWidth.FractionVar.Zero | src/test_fraction.cpp:18-22 | a new variable holding 0/1 |
| FixedWidth.FractionVar.FromInt | src/test_fraction.cpp:24-41 | a new variable holding n/1 |
| FixedWidth.FractionVar.constructor | src/test_fraction.cpp:32-100 | a new variable holding Fraction(n, d), computed in int64 |
| FixedWidth.FractionVar.AddAssign | src/test_fraction.cpp:151-159 | x += y sets x to old x + old y and leaves a distinct y unchanged |
| FixedWidth.FractionVar.SubAssign | src/test_fraction.cpp:171-179 | x -= y sets x to old x - old y and leaves a distinct y unchanged |
| FixedWidth.FractionVar.MulAssign | src/test_fraction.cpp:205-212 | x *= y sets x to old x * old y whenever that product fits in int64, and leaves a distinct y unchanged |
| FixedWidth.FractionVar.DivAssign | src/test_fraction.cpp:235-242 | x /= y sets x to old x / old y whenever that quotient fits in int64 (division by 0 gives the special form), and leaves a distinct y unchanged |
| FixedWidth.DivSteps | src/test_fraction.cpp:239-242 | the int64 steps of the cross-reduced division, and the proof that negating a reduced part cannot overflow when the quotient fits |
| FixedWidth.PlainAddFits | src/test_fraction.cpp:141-159 | whenever the plain sum formula fits in int64, the cross-reduced one fits as well |
| FixedWidth.PlainSubFits | src/test_fraction.cpp:161-179 | whenever the plain difference formula fits in int64, the cross-reduced one fits as well |
| FixedWidth.CrossProductIn128 | src/test_fraction.cpp:267-274 | the cross product of two int64 parts lies within +-2^126, so it fits in a signed 128-bit integer |
| FractionText.Str | src/test_fraction.cpp:310-320 | str(): the decimal numerator, '/', the decimal denominator; StrRoundTrip and StrInjective are its contract |
| FractionText.ParseFraction | src/test_fraction.cpp:310-320 | the parser that undoes str(), Str's partner in StrRoundTrip |
| FractionText.NatToString | src/test_fraction.cpp:310-320 | the decimal digits of n, with no leading zero: the first digit is '0' exactly when n is 0, and the text has one character exactly when n < 10, so 0 prints as "0" |
| FractionText.IntToString | src/test_fraction.cpp:318-319 | the decimal text of i, starting with '-' exactly when i is negative |
| FractionText.NatRoundTrip | src/test_fraction.cpp:310-320 | parsing the decimal text of n gives n |
| FractionText.IntRoundTrip | src/test_fraction.cpp:310-320 | parsing the decimal text of i gives i |
| FractionText.NoSlash | src/test_fraction.cpp:310-320 | the text of an integer contains no '/' |
| FractionText.StrRoundTrip | src/test_fraction.cpp:310-320 | parsing str(f) gives f back |
| FractionText.StrInjective | src/test_fraction.cpp:310-320 | different fractions print differently |
| FractionExamples.ReducesTo | src/test_fraction.cpp:56-81 | a pair reduces to p/q when p/q is in lowest terms and has the same cross products |
| FractionExamples.Construct | src/test_fraction.cpp:18-35 | 0/1, 1/1, 5/1 and 2/3 |
| FractionExamples.ConstructNegative | src/test_fraction.cpp:37-54 | -1/1, -4/1, (5,-1) gives -5/1, and (2,-3) gives -2/3 |
| FractionExamples.Reduce | src/test_fraction.cpp:56-77 | (-1,-1) and (42,42) give 1/1; (42,21) gives 2/1; (42,-21) gives -2/1; (21,42) gives 1/2 |
| FractionExamples.ReduceBig | src/test_fraction.cpp:78-80 | (9214746018752493454, 507826684400187515) gives 998/55 |
| FractionExamples.ReduceZero | src/test_fraction.cpp:83-100 | (0,-5) gives 0/1; (5,0), (-5,0) and (0,0) give 1/0, -1/0 and 0/0 |
| FractionExamples.Equals | src/test_fraction.cpp:122-139 | 1/2 == 20/40, and 1/2 != 1000000000000000000/2000000000000000001 |
| FractionExamples.AddExamples | src/test_fraction.cpp:146-149 | 3/5 + 0, 3/5 + 1 == 8/5, 3/5 + -42/43 == -81/215 |
| FractionExamples.AddOneExample | src/test_fraction.cpp:147 | 3/5 + 1 == 8/5 |
| FractionExamples.AddExample | src/test_fraction.cpp:149 | 3/5 + -42/43 == -81/215 |
| FractionExamples.SubExamples | src/test_fraction.cpp:166-169 | 3/5 - 0, 3/5 - 1 == -2/5, 3/5 - -42/43 == 339/215 |
| FractionExamples.SubOneExample | src/test_fraction.cpp:167 | 3/5 - 1 == -2/5 |
| FractionExamples.SubExample | src/test_fraction.cpp:169 | 3/5 - -42/43 == 339/215 |
| FractionExamples.MulExamples | src/test_fraction.cpp:183-203 | the products of 0, 1, -2/3, 11/20 and -42/43 asserted by the multiply test |
| FractionExamples.DivExamples | src/test_fraction.cpp:216-233 | the quotients asserted by the divide test, including 1/MAX_INT64 and x/y == 1/(y/x) |
| FractionExamples.NegExamples | src/test_fraction.cpp:246-249 | -(-1/2) == 0 - (-1/2), and -(-(-1/2)) == -1/2 |
| FractionExamples.MaxCanonical | src/test_fraction.cpp:158-241 | 1, 2, 3, 5, -1 and -2 over MAX_INT64, and MAX_INT64/5, are in lowest terms |
| FractionExamples.BigExamples | src/test_fraction.cpp:156-242 | 1/M + 2/M == 3/M, 3/M - 2/M == 1/M, 3/M * M/5 == 3/5 and (3/M) / (5/M) == 3/5, for M = MAX_INT64 |
| FractionExamples.AddFitsBeyondPlain | src/test_fraction.cpp:156-179 | the cross-reduced sum 1/M + 2/M and difference 3/M - 2/M fit in int64, though M*M does not |
| FractionExamples.ExpectLess | src/test_fraction.cpp:254-260 | the four checks of expectLess: l < r, not l > r, r > l, not r < l |
| FractionExamples.ExpectLessEq | src/test_fraction.cpp:282-288 | the four checks of expectLessEq: l <= r, (l >= r) == (l == r), r >= l, (r <= l) == (l == r) |
| FractionExamples.PassesLessEq | src/test_fraction.cpp:282-288 | every canonical pair with l <= r passes all four checks of expectLessEq |
| FractionExamples.CompareStrict | src/test_fraction.cpp:262-277 | all four expectLess checks for every pair of the strict comparison test, and 0 < 0 and -5/41 < -5/41 both false |
| FractionExamples.CompareNonStrict | src/test_fraction.cpp:290-307 | all four expectLessEq checks for every pair of the non-strict comparison test |
| FractionExamples.CompareNonStrictIntegers | src/test_fraction.cpp:290-299 | all four expectLessEq checks for the integer pairs of the non-strict comparison test |
| FractionExamples.StrExamples | src/test_fraction.cpp:316-319 | str() gives "0/1", "5/1", "-42/5" and, for Fraction(5, -10), "-1/2" |
| FractionExamples.AddAssignExample | src/test_fraction.cpp:151-153 | x = 3/5; x += -42/43 gives -81/215, and y is still -42/43 |
| FractionExamples.SubAssignExample | src/test_fraction.cpp:171-173 | x = 3/5; x -= -42/43 gives 339/215, and y is still -42/43 |
| FractionExamples.MulAssignExample | src/test_fraction.cpp:205-206 | x = -2/3; x *= -1 gives 2/3 |
| FractionExamples.DivAssignExample | src/test_fraction.cpp:235-236 | x = -2/3; x /= -1 gives 2/3, with a positive denominator |
| FractionExamples.AddBigExample | src/test_fraction.cpp:158 | 1/MAX_INT64 + 2/MAX_INT64 == 3/MAX_INT64 in int64 |
| FractionExamples.SubBigExample | src/test_fraction.cpp:178 | 3/MAX_INT64 - 2/MAX_INT64 == 1/MAX_INT64 in int64 |
| FractionExamples.MulBigExample | src/test_fraction.cpp:211 | 3/MAX_INT64 * MAX_INT64/5 == 3/5 in int64 |
| FractionExamples.DivBigExample | src/test_fraction.cpp:241 | (3/MAX_INT64) / (5/MAX_INT64) == 3/5 in int64 |

## Left out

- The conversion to `double` (src/test_fraction.cpp:102-120), including the infinity and NaN results of the zero-denominator forms. This is floating point, so that test is not restated as an example.
- The traits test, i.e. the `sizeof` and trivially-copyable checks (src/test_fraction.cpp:12-16). These are about C++ memory layout, so that test is not restated as an example. Giving `FractionVar` two 64-bit fields is an inference from them, not something they state.
- Stream insertion `operator<<` (src/test_fraction.cpp:322-334). This is I/O, and it prints the same text as `str()`, which is modelled.
- Arithmetic and ordering on the special forms `1/0`, `-1/0` and `0/0`. The tests assert none of it. The operators require canonical operands; dividing by zero is the one exception.
- The GoogleTest harness (`TEST`, `EXPECT_*`, `GTEST_SKIP`). Its assertions are restated as the lemmas and methods of `FractionExamples`.
- The 64-bit comparison operators as code. They are specified by the unbounded `Less`/`LessEq` and justified by `CrossProductIn128`.
- `numerator()` and `denominator()` are the datatype's fields `num` and `den`. `FractionVar` has the fields of the same name.
- FixedWidth.FractionVar.AddAssign: requires `AddFits`, meaning that every intermediate of the cross-reduced sum fits. This is not merely "the result fits". `PlainAddFits` shows it covers every case where the plain formula fits.
- FixedWidth.FractionVar.SubAssign: requires `SubFits`, for the same reason as `AddAssign`.
- FixedWidth.FractionVar.constructor: requires the reduced pair to have an int64 form. This excludes every pair whose reduced numerator or denominator is 2^63, such as `Fraction(MIN_INT64, -1)` (2^63/1) and `Fraction(1, MIN_INT64)` (-1/2^63).
- The binary operators of `Fractions` are modelled over unbounded integers. Their 64-bit form is the compound assignments of `FractionVar`.
- Unary minus (`Fractions.Neg`) is modelled over unbounded integers only and has no 64-bit form. `Neg(FromInt(MIN_INT64))` is 2^63/1, whose numerator has no int64 representation, so the model does not say what the 64-bit negation of MIN_INT64 does.
