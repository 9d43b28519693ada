/** Greatest common divisors on natural numbers: Euclid's algorithm and the
    facts about it that the reducing constructor of a fraction relies on. */
module NumberTheory {

  /** k divides n (k must be positive; n may have any sign). */
  predicate Divides(k: int, n: int) {
    k > 0 && n % k == 0
  }

  function Abs(x: int): (r: nat)
    ensures r == x || r == -x
  {
    if x < 0 then -x else x
  }

  /** Euclid's algorithm. Gcd(0, 0) == 0. */
  function Gcd(a: nat, b: nat): nat
    decreases b
  {
    if b == 0 then a else Gcd(b, a % b)
  }

  /** Euclidean division is unique: a quotient and remainder that
      reconstruct x with the remainder in range are Dafny's / and %. */
  lemma DivModUnique(x: int, m: int, q: int, r: int)
    requires m > 0 && 0 <= r < m && x == q * m + r
    ensures x / m == q && x % m == r
  {
    var q', r' := x / m, x % m;
    assert x == q' * m + r';
    assert (q - q') * m == r' - r;
    if q - q' > 0 {
      MulAtLeast(q - q', m);
    } else if q - q' < 0 {
      MulAtLeast(q' - q, m);
    }
  }

  /** A product of a positive number and m is at least m. */
  lemma MulAtLeast(a: int, m: int)
    requires a >= 1 && m > 0
    ensures a * m >= m
  {
    assert a * m == (a - 1) * m + m;
  }

  lemma MulCancel(x: int, y: int, g: int)
    requires g > 0 && x * g == y * g
    ensures x == y
  {
    assert (x - y) * g == 0;
    if x - y > 0 {
      MulAtLeast(x - y, g);
    } else if x - y < 0 {
      MulAtLeast(y - x, g);
    }
  }

  lemma MultipleDivides(k: int, t: int)
    requires k > 0
    ensures Divides(k, k * t) && (k * t) / k == t
  {
    DivModUnique(k * t, k, t, 0);
  }

  /** A divisor of n splits n exactly. */
  lemma DividesExact(k: int, n: int)
    requires Divides(k, n)
    ensures n == k * (n / k)
  {
  }

  /** Divisibility is preserved by integer linear combinations. */
  lemma DividesLinear(k: int, x: int, y: int, p: int, q: int)
    requires Divides(k, x) && Divides(k, y)
    ensures Divides(k, p * x + q * y)
  {
    var s, t := x / k, y / k;
    assert p * x + q * y == k * (p * s + q * t) by {
      assert x == k * s && y == k * t;
    }
    MultipleDivides(k, p * s + q * t);
  }

  lemma DividesTransitive(j: int, k: int, n: int)
    requires Divides(j, k) && Divides(k, n)
    ensures Divides(j, n)
  {
    var s, t := k / j, n / k;
    assert n == j * (s * t) by {
      assert k == j * s && n == k * t;
    }
    MultipleDivides(j, s * t);
  }

  lemma DividesNeg(k: int, n: int)
    requires Divides(k, n)
    ensures Divides(k, -n) && Divides(k, Abs(n))
  {
    DividesLinear(k, n, n, -1, 0);
  }

  /** A positive divisor of a positive number is no larger than it. */
  lemma DivisorBound(k: int, n: int)
    requires Divides(k, n) && n > 0
    ensures k <= n
  {
    var t := n / k;
    assert n == t * k;
    MulAtLeast(t, k);
  }

  /** (a * k) % (b * k) == (a % b) * k */
  lemma ModScale(a: nat, b: nat, k: nat)
    requires b > 0 && k > 0
    ensures (a * k) % (b * k) == (a % b) * k
  {
    var q, r := a / b, a % b;
    assert a * k == q * (b * k) + r * k by {
      assert a == q * b + r;
    }
    assert r * k < b * k by {
      assert (b - r) * k > 0;
    }
    DivModUnique(a * k, b * k, q, r * k);
  }

  /** Gcd(a, b) is zero exactly when both arguments are, and otherwise
      divides both of them. */
  lemma {:induction false} GcdDivides(a: nat, b: nat)
    ensures Gcd(a, b) == 0 <==> a == 0 && b == 0
    ensures Gcd(a, b) > 0 ==> Divides(Gcd(a, b), a) && Divides(Gcd(a, b), b)
    decreases b
  {
    if b == 0 {
      if a > 0 {
        MultipleDivides(a, 1);
        MultipleDivides(a, 0);
      }
    } else {
      GcdDivides(b, a % b);
      var g := Gcd(b, a % b);
      assert a == (a / b) * b + 1 * (a % b);
      DividesLinear(g, b, a % b, a / b, 1);
    }
  }

  /** Every common divisor of a and b divides Gcd(a, b). */
  lemma {:induction false} GcdGreatest(a: nat, b: nat, k: int)
    requires Divides(k, a) && Divides(k, b)
    ensures Divides(k, Gcd(a, b))
    decreases b
  {
    if b > 0 {
      assert a % b == 1 * a + (-(a / b)) * b;
      DividesLinear(k, a, b, 1, -(a / b));
      GcdGreatest(b, a % b, k);
    }
  }

  /** Gcd is homogeneous: scaling both arguments scales the result. */
  lemma {:induction false} GcdScale(a: nat, b: nat, k: nat)
    ensures Gcd(a * k, b * k) == Gcd(a, b) * k
    decreases b
  {
    if k == 0 {
    } else if b == 0 {
    } else {
      ModScale(a, b, k);
      GcdScale(b, a % b, k);
    }
  }

  lemma GcdPositive(a: nat, b: nat)
    requires a > 0 || b > 0
    ensures 0 < Gcd(a, b) && (b > 0 ==> Gcd(a, b) <= b) && (a > 0 ==> Gcd(a, b) <= a)
  {
    GcdDivides(a, b);
    if b > 0 { DivisorBound(Gcd(a, b), b); }
    if a > 0 { DivisorBound(Gcd(a, b), a); }
  }

  /** Dividing both arguments by their gcd g leaves coprime quotients. */
  lemma GcdQuotientsCoprime(a: nat, b: nat, g: nat)
    requires a > 0 || b > 0
    requires g == Gcd(a, b)
    ensures g > 0 && Divides(g, a) && Divides(g, b)
    ensures Gcd(a / g, b / g) == 1
  {
    GcdDivides(a, b);
    DividesExact(g, a);
    DividesExact(g, b);
    CoprimeCofactors(a / g, b / g, g);
  }

  lemma CoprimeCofactors(a: nat, b: nat, g: nat)
    requires g > 0 && Gcd(g * a, g * b) == g
    ensures Gcd(a, b) == 1
  {
    GcdScale(a, b, g);
    assert g * a == a * g && g * b == b * g;
    MulCancel(Gcd(a, b), 1, g);
  }

  /** Scaling a coprime pair by y makes y their gcd. */
  lemma CoprimeScale(x: nat, k: nat, y: nat)
    requires Gcd(x, k) == 1
    ensures Gcd(x * y, k * y) == y
  {
    GcdScale(x, k, y);
  }

  /** A common divisor of x * y and k divides y when x and k are coprime. */
  lemma DividesCofactor(g: nat, x: nat, k: nat, y: nat)
    requires Gcd(x, k) == 1 && Divides(g, x * y) && Divides(g, k)
    ensures Divides(g, y)
  {
    var p, q := x * y, k * y;
    CoprimeScale(x, k, y);
    assert Gcd(p, q) == y;
    DividesLinear(g, k, k, y, 0);
    assert Divides(g, q);
    GcdGreatest(p, q, g);
  }

  /** Euclid's lemma: if k is coprime to x and divides x * y, it divides y. */
  lemma EuclidLemma(k: nat, x: nat, y: nat)
    requires k > 0 && Gcd(x, k) == 1 && Divides(k, x * y)
    ensures Divides(k, y)
  {
    MultipleDivides(k, 1);
    DividesCofactor(k, x, k, y);
  }

  /** A product of numbers coprime to k is coprime to k. */
  lemma CoprimeProduct(x: nat, y: nat, k: nat)
    requires Gcd(x, k) == 1 && Gcd(y, k) == 1
    ensures Gcd(x * y, k) == 1
  {
    if k == 0 {
      assert x == 1 && y == 1;
    }
    GcdPositive(x * y, k);
    var g := Gcd(x * y, k);
    GcdDivides(x * y, k);
    DividesCofactor(g, x, k, y);
    GcdGreatest(y, k, g);
    DivisorBound(g, 1);
  }

  lemma GcdCommutative(a: nat, b: nat)
    ensures Gcd(a, b) == Gcd(b, a)
  {
    if a > 0 || b > 0 {
      GcdPositive(a, b);
      GcdPositive(b, a);
      GcdDivides(a, b);
      GcdDivides(b, a);
      GcdGreatest(a, b, Gcd(b, a));
      GcdGreatest(b, a, Gcd(a, b));
      DivisorBound(Gcd(a, b), Gcd(b, a));
      DivisorBound(Gcd(b, a), Gcd(a, b));
    }
  }

  /** Divisors of a coprime pair are coprime. */
  lemma CoprimeDivisors(x: nat, y: nat, p: nat, q: nat)
    requires Gcd(x, y) == 1 && Divides(p, x) && Divides(q, y)
    ensures Gcd(p, q) == 1
  {
    GcdPositive(p, q);
    var g := Gcd(p, q);
    GcdDivides(p, q);
    DividesTransitive(g, p, x);
    DividesTransitive(g, q, y);
    GcdGreatest(x, y, g);
    DivisorBound(g, 1);
  }

  /** A number coprime to two others is coprime to their product. */
  lemma CoprimeProductRight(x: nat, k1: nat, k2: nat)
    requires Gcd(x, k1) == 1 && Gcd(x, k2) == 1
    ensures Gcd(x, k1 * k2) == 1
  {
    GcdCommutative(x, k1);
    GcdCommutative(x, k2);
    CoprimeProduct(k1, k2, x);
    GcdCommutative(k1 * k2, x);
  }
}
