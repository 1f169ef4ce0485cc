/** Integer arithmetic the two cryptosystems rely on: powers, reduction
    modulo a positive modulus, gcd, lcm and modular inverses.  Python's
    `pow`, `sympy.gcd` and `sympy.lcm` are modelled here on unbounded
    integers; for a positive modulus Python's `%` and `//` agree with
    Dafny's Euclidean `%` and `/`. */
module ModArith {
  import opened Wrappers

  // ---------------------------------------------------------------------
  // Powers
  // ---------------------------------------------------------------------

  /** b raised to e (the value of Python's `b ** e` and two-argument `pow`). */
  function Pow(b: int, e: nat): (r: int)
    ensures b >= 1 ==> r >= 1
    decreases e
  {
    if e == 0 then 1 else b * Pow(b, e - 1)
  }

  lemma {:induction false} PowAdd(b: int, e1: nat, e2: nat)
    ensures Pow(b, e1 + e2) == Pow(b, e1) * Pow(b, e2)
    decreases e1
  {
    if e1 > 0 {
      PowAdd(b, e1 - 1, e2);
      calc {
        Pow(b, e1 + e2);
        b * Pow(b, e1 - 1 + e2);
        b * (Pow(b, e1 - 1) * Pow(b, e2));
        { MulAssociative(b, Pow(b, e1 - 1), Pow(b, e2)); }
        (b * Pow(b, e1 - 1)) * Pow(b, e2);
      }
    }
  }

  lemma {:induction false} PowMul(b: int, e1: nat, e2: nat)
    ensures Pow(b, e1 * e2) == Pow(Pow(b, e1), e2)
    decreases e2
  {
    if e2 > 0 {
      assert e1 * e2 == e1 + e1 * (e2 - 1);
      PowAdd(b, e1, e1 * (e2 - 1));
      PowMul(b, e1, e2 - 1);
    }
  }

  lemma {:induction false} PowProduct(a: int, b: int, e: nat)
    ensures Pow(a * b, e) == Pow(a, e) * Pow(b, e)
    decreases e
  {
    if e > 0 {
      PowProduct(a, b, e - 1);
      MulRearrange(a, b, Pow(a, e - 1), Pow(b, e - 1));
    }
  }

  lemma {:induction false} PowOne(e: nat)
    ensures Pow(1, e) == 1
    decreases e
  {
    if e > 0 {
      PowOne(e - 1);
    }
  }

  /** For n >= 2 the powers of n grow strictly: n^s < n^(s+1). */
  lemma PowStrictlyGrows(n: int, s: nat)
    requires n >= 2
    ensures 1 <= Pow(n, s) < Pow(n, s + 1)
  {
    assert Pow(n, s + 1) == n * Pow(n, s);
  }

  /** For n >= 2 and s >= 1, n <= n^s. */
  lemma {:induction false} PowAtLeastBase(n: int, s: nat)
    requires n >= 2 && s >= 1
    ensures n <= Pow(n, s)
    decreases s
  {
    if s > 1 {
      PowAtLeastBase(n, s - 1);
      PowStrictlyGrows(n, s - 1);
    }
  }

  // ---------------------------------------------------------------------
  // Reduction modulo a positive modulus
  // ---------------------------------------------------------------------

  lemma MulRearrange(a: int, b: int, x: int, y: int)
    ensures (a * b) * (x * y) == (a * x) * (b * y)
  {
  }

  lemma MulAssociative(a: int, b: int, c: int)
    ensures a * b * c == a * (b * c)
  {
  }

  /** Division with remainder is unique. */
  lemma DivModUnique(y: int, q: int, r: int, m: int)
    requires m > 0 && 0 <= r < m && y == q * m + r
    ensures y / m == q && y % m == r
  {
    var t := q - y / m;
    assert t * m == y % m - r;
  }

  lemma SmallMod(a: int, m: int)
    requires 0 <= a < m
    ensures a % m == a && a / m == 0
  {
  }

  lemma ModIdempotent(a: int, m: int)
    requires m > 0
    ensures (a % m) % m == a % m
  {
    SmallMod(a % m, m);
  }

  lemma ModAddMultiple(k: int, x: int, m: int)
    requires m > 0
    ensures (k * m + x) % m == x % m
  {
    assert x == (x / m) * m + x % m;
    assert k * m + x == (k + x / m) * m + x % m;
    DivModUnique(k * m + x, k + x / m, x % m, m);
  }

  lemma MulMod(a: int, b: int, m: int)
    requires m > 0
    ensures (a * b) % m == ((a % m) * (b % m)) % m
  {
    var qa, ra := a / m, a % m;
    var qb, rb := b / m, b % m;
    assert a == qa * m + ra;
    assert b == qb * m + rb;
    assert a * b == (qa * qb * m + qa * rb + ra * qb) * m + ra * rb;
    ModAddMultiple(qa * qb * m + qa * rb + ra * qb, ra * rb, m);
  }

  lemma MulModLeft(a: int, b: int, m: int)
    requires m > 0
    ensures (a * b) % m == ((a % m) * b) % m
  {
    MulMod(a, b, m);
    MulMod(a % m, b, m);
    ModIdempotent(a, m);
  }

  lemma {:induction false} PowMod(b: int, e: nat, m: int)
    requires m > 0
    ensures Pow(b % m, e) % m == Pow(b, e) % m
    decreases e
  {
    if e > 0 {
      var x, y := Pow(b % m, e - 1), Pow(b, e - 1);
      PowMod(b, e - 1, m);
      assert x % m == y % m;
      MulMod(b % m, x, m);
      MulMod(b, y, m);
      ModIdempotent(b, m);
    }
  }

  // ---------------------------------------------------------------------
  // The decoding identity behind g = n + 1
  // ---------------------------------------------------------------------

  lemma StepIdentity(n: int, m: int)
    ensures (1 + (m - 1) * n) * (1 + n) == (m - 1) * (n * n) + (1 + m * n)
  {
  }

  /** (1 + n)^m == 1 + m*n (mod n^2): the first two terms of the binomial
      expansion are all that survive modulo n^2. */
  lemma {:induction false} OnePlusNPow(n: int, m: nat)
    requires n >= 1
    ensures Pow(1 + n, m) % (n * n) == (1 + m * n) % (n * n)
    decreases m
  {
    if m > 0 {
      var nn := n * n;
      var x := Pow(1 + n, m - 1);
      OnePlusNPow(n, m - 1);
      assert Pow(1 + n, m) == x * (1 + n);
      MulModLeft(x, 1 + n, nn);
      MulModLeft(1 + (m - 1) * n, 1 + n, nn);
      StepIdentity(n, m);
      ModAddMultiple(m - 1, 1 + m * n, nn);
    }
  }

  lemma SplitMultiple(n: int, m: int, q: int, r: int)
    requires m == q * n + r
    ensures 1 + m * n == q * (n * n) + (1 + r * n)
  {
  }

  lemma MulBelow(r: int, n: int)
    requires 0 <= r < n
    ensures 0 <= r * n <= (n - 1) * n
  {
  }

  /** For n >= 2, 1 + m*n reduced modulo n^2 is 1 + (m mod n)*n, and
      (m*n) / n is m. */
  lemma ReduceOnePlusMultiple(n: int, m: int)
    requires n >= 2
    ensures (1 + m * n) % (n * n) == 1 + (m % n) * n
  {
    var q, r := m / n, m % n;
    SplitMultiple(n, m, q, r);
    MulBelow(r, n);
    DivModUnique(1 + m * n, q, 1 + r * n, n * n);
  }

  lemma MulDiv(r: int, n: int)
    requires n > 0
    ensures (r * n) / n == r
  {
    DivModUnique(r * n, r, 0, n);
  }

  // ---------------------------------------------------------------------
  // Greatest common divisor, least common multiple, modular inverse
  // ---------------------------------------------------------------------

  /** Euclid's algorithm; `sympy.gcd` on non-negative integers. */
  function Gcd(a: nat, b: nat): nat
    decreases b
  {
    if b == 0 then a else Gcd(b, a % b)
  }

  lemma GcdSymmetric(a: nat, b: nat)
    ensures Gcd(a, b) == Gcd(b, a)
  {
    if a != 0 && b != 0 && a != b {
      if a < b {
        SmallMod(a, b);
        assert Gcd(a, b) == Gcd(b, a % b);
      } else {
        SmallMod(b, a);
        assert Gcd(b, a) == Gcd(a, b % a);
      }
    }
  }

  lemma GcdModLeft(a: nat, n: nat)
    requires n > 0
    ensures Gcd(a % n, n) == Gcd(a, n)
  {
    assert Gcd(a, n) == Gcd(n, a % n);
    ModIdempotent(a, n);
    if a % n != 0 {
      assert Gcd(a % n, n) == Gcd(n, (a % n) % n);
    }
  }

  /** gcd(0, n) = gcd(n, n) = n, so neither 0 nor n is coprime to n >= 2. */
  lemma GcdWithZeroOrSelf(n: nat)
    ensures Gcd(0, n) == n && Gcd(n, n) == n
  {
    if n > 0 {
      SmallMod(0, n);
      assert Gcd(0, n) == Gcd(n, 0);
      assert n % n == 0 by {
        DivModUnique(n, 1, 0, n);
      }
      assert Gcd(n, n) == Gcd(n, 0);
    }
  }

  lemma CombineMultiples(a: int, b: int, q: int, kb: int, kr: int, g: int)
    requires a == q * b + kr * g && b == kb * g
    ensures a == (q * kb + kr) * g
  {
  }

  /** The gcd divides both arguments. */
  lemma {:induction false} GcdDivides(a: nat, b: nat)
    requires a > 0 || b > 0
    ensures Gcd(a, b) > 0 && a % Gcd(a, b) == 0 && b % Gcd(a, b) == 0
    decreases b
  {
    if b > 0 {
      var g := Gcd(b, a % b);
      GcdDivides(b, a % b);
      assert Gcd(a, b) == g;
      ExactQuotient(b, g);
      ExactQuotient(a % b, g);
      var kb, kr := b / g, (a % b) / g;
      DivisionIdentity(a, b);
      CombineMultiples(a, b, a / b, kb, kr, g);
      DivModUnique(a, (a / b) * kb + kr, 0, g);
    }
  }

  lemma BezoutStep(a: int, b: int, q: int, r: int, x: int, y: int, g: int)
    requires a == q * b + r && b * x + r * y == g
    ensures a * y + b * (x - q * y) == g
  {
  }

  /** Extended Euclid: the gcd together with Bezout coefficients. */
  function ExtGcd(a: nat, b: nat): (r: (nat, int, int))
    ensures r.0 == Gcd(a, b)
    ensures a * r.1 + b * r.2 == r.0
    decreases b
  {
    if b == 0 then (a, 1, 0)
    else
      var (g, x, y) := ExtGcd(b, a % b);
      BezoutStep(a, b, a / b, a % b, x, y, g);
      (g, y, x - (a / b) * y)
  }

  lemma MulModRight(a: int, b: int, m: int)
    requires m > 0
    ensures (a * b) % m == (a * (b % m)) % m
  {
    MulModLeft(b, a, m);
  }

  /** From a Bezout identity (a mod n)*x + n*y == 1, x mod n inverts a. */
  lemma InverseFromBezout(a: nat, n: nat, x: int, y: int)
    requires n >= 1 && (a % n) * x + n * y == 1
    ensures (a * (x % n)) % n == 1 % n
  {
    assert y * n + (a % n) * x == 1;
    ModAddMultiple(y, (a % n) * x, n);
    MulModLeft(a, x, n);
    MulModRight(a, x, n);
  }

  /** Python's `pow(a, -1, n)`: the inverse of a modulo n, which exists
      exactly when gcd(a, n) = 1 (Python raises ValueError otherwise). */
  function ModInverse(a: nat, n: nat): (r: Option<nat>)
    requires n >= 1
    ensures r.Some? <==> Gcd(a, n) == 1
    ensures r.Some? ==> r.value < n && (a * r.value) % n == 1 % n
  {
    GcdModLeft(a, n);
    var (g, x, y) := ExtGcd(a % n, n);
    if g == 1 then
      InverseFromBezout(a, n, x, y);
      Some(x % n)
    else
      None
  }

  lemma UnitFactor(t: int, g: int)
    requires g >= 1 && t * g == 1
    ensures g == 1
  {
    if t >= 1 {
      assert t * g >= g;
    }
  }

  lemma FactorOut(a: int, n: int, y: int, k: int, ka: int, kn: int, g: int)
    requires a == ka * g && n == kn * g && a * y == k * n + 1
    ensures (ka * y - k * kn) * g == 1
  {
  }

  /** An inverse found any other way means gcd(a, n) = 1, so ModInverse
      answers None only when no inverse exists. */
  lemma ModInverseComplete(a: nat, n: nat, y: int)
    requires n >= 1 && (a * y) % n == 1 % n
    ensures ModInverse(a, n).Some?
  {
    if n >= 2 {
      var g := Gcd(a, n);
      GcdDivides(a, n);
      ExactQuotient(a, g);
      ExactQuotient(n, g);
      var ka, kn := a / g, n / g;
      var k := (a * y) / n;
      SmallMod(1, n);
      DivisionIdentity(a * y, n);
      FactorOut(a, n, y, k, ka, kn, g);
      UnitFactor(ka * y - k * kn, g);
    } else {
      SmallMod(a % 1, 1);
      assert Gcd(a, 1) == Gcd(1, a % 1) == Gcd(1, 0);
    }
  }

  lemma LcmArithmetic(a: int, b: int, g: int, ka: int, kb: int)
    requires a >= 1 && b >= 1 && g >= 1 && a == ka * g && b == kb * g
    ensures ka >= 1 && kb >= 1
    ensures a * kb == ka * b
    ensures 0 < a * kb <= a * b
  {
    assert kb * g >= 1;
    assert ka * g >= 1;
  }

  /** `sympy.lcm` on non-negative integers: 0 when either argument is 0,
      otherwise a positive common multiple no larger than the product. */
  function Lcm(a: nat, b: nat): (r: nat)
    ensures a > 0 && b > 0 ==> 0 < r <= a * b && r % a == 0 && r % b == 0
    ensures a == 0 || b == 0 ==> r == 0
  {
    if a == 0 || b == 0 then 0
    else
      var g := Gcd(a, b);
      GcdDivides(a, b);
      var kb, ka := b / g, a / g;
      assert b == kb * g && a == ka * g;
      LcmArithmetic(a, b, g, ka, kb);
      DivModUnique(a * kb, kb, 0, a);
      DivModUnique(a * kb, ka, 0, b);
      a * kb
  }

  lemma CancelFactor(x: int, y: int, g: int)
    requires g >= 1 && x * g == y * g
    ensures x == y
  {
    DivModUnique(x * g, x, 0, g);
    DivModUnique(y * g, y, 0, g);
  }

  lemma Distribute(m: int, p: int, q: int)
    ensures m * (p + q) == m * p + m * q
  {
  }

  lemma RegroupProducts(a: int, b: int, x: int, y: int, u: int, v: int)
    ensures (b * y) * a * u + (a * x) * b * v == a * b * (y * u + x * v)
  {
  }

  lemma FactorGcd(a: int, kb: int, g: int, t: int)
    ensures a * (kb * g) * t == (a * kb * t) * g
  {
  }

  /** m*g, for a common multiple m = a*x = b*y and g = a*u + b*v = gcd(a, b)
      with b = kb*g, is a multiple of (a*kb)*g. */
  lemma LcmCombination(a: int, b: int, m: int, x: int, y: int, u: int, v: int, g: int, kb: int)
    requires m == a * x && m == b * y && a * u + b * v == g && b == kb * g
    ensures m * g == (a * kb * (y * u + x * v)) * g
  {
    Distribute(m, a * u, b * v);
    assert m * (a * u) == (b * y) * a * u;
    assert m * (b * v) == (a * x) * b * v;
    RegroupProducts(a, b, x, y, u, v);
    FactorGcd(a, kb, g, y * u + x * v);
  }

  lemma ScaleBezout(a: int, b: int, x: int, y: int, ka: int, kb: int, d: int)
    requires a == ka * d && b == kb * d
    ensures a * x + b * y == (ka * x + kb * y) * d
  {
  }

  lemma ProductAtLeastFour(a: int, b: int)
    requires a >= 2 && b >= 2
    ensures a * b >= 4
  {
  }

  lemma DivisionIdentity(a: int, b: int)
    requires b > 0
    ensures a == (a / b) * b + a % b
  {
  }

  lemma ExactQuotient(a: int, d: int)
    requires d > 0 && a % d == 0
    ensures a == (a / d) * d
  {
  }

  /** Every common divisor of a and b divides their gcd. */
  lemma CommonDivisorDividesGcd(a: nat, b: nat, d: nat)
    requires d > 0 && a % d == 0 && b % d == 0
    ensures Gcd(a, b) % d == 0
  {
    var r := ExtGcd(a, b);
    var g, x, y := r.0, r.1, r.2;
    assert g == a * x + b * y && g == Gcd(a, b);
    ExactQuotient(a, d);
    ExactQuotient(b, d);
    var ka, kb := a / d, b / d;
    ScaleBezout(a, b, x, y, ka, kb, d);
    DivModUnique(g, ka * x + kb * y, 0, d);
  }

  /** A common multiple m of a and b is a*(b/gcd)*t for some t. */
  lemma CommonMultipleQuotient(a: nat, b: nat, m: nat) returns (t: int)
    requires a > 0 && b > 0 && m % a == 0 && m % b == 0
    ensures Gcd(a, b) > 0 && m == a * (b / Gcd(a, b)) * t
  {
    var g := Gcd(a, b);
    GcdDivides(a, b);
    ExactQuotient(b, g);
    var kb := b / g;
    var r := ExtGcd(a, b);
    ExactQuotient(m, a);
    ExactQuotient(m, b);
    var x, y := m / a, m / b;
    LcmCombination(a, b, m, x, y, r.1, r.2, g, kb);
    t := y * r.1 + x * r.2;
    CancelFactor(m, a * kb * t, g);
  }

  /** Lcm is the least common multiple: it divides every common multiple
      of a and b, so no positive common multiple is smaller. */
  lemma LcmDividesCommonMultiple(a: nat, b: nat, m: nat)
    requires a > 0 && b > 0 && m % a == 0 && m % b == 0
    ensures m % Lcm(a, b) == 0
    ensures m > 0 ==> Lcm(a, b) <= m
  {
    var t := CommonMultipleQuotient(a, b, m);
    var l := Lcm(a, b);
    assert l == a * (b / Gcd(a, b));
    DivModUnique(m, t, 0, l);
    if m > 0 {
      MultipleAtLeast(m, l);
    }
  }

  lemma MultipleAtLeast(d: nat, k: nat)
    requires k > 0 && d > 0 && d % k == 0
    ensures d >= k
  {
    if d < k {
      SmallMod(d, k);
    }
  }

  // ---------------------------------------------------------------------
  // The L-function
  // ---------------------------------------------------------------------

  /** L(x) = (x - 1) // divisor, Python's floor division (which agrees
      with Dafny's `/` for a positive divisor): the unique l with
      l*divisor <= x - 1 < (l + 1)*divisor. */
  function LFunction(x: int, divisor: int): (l: int)
    requires divisor > 0
    ensures l * divisor <= x - 1 < (l + 1) * divisor
  {
    (x - 1) / divisor
  }

  /** With g = n + 1, L recovers the exponent modulo n:
      L((n + 1)^m mod n^2) = m mod n. */
  lemma LFunctionDecodes(n: int, m: nat)
    requires n >= 2
    ensures LFunction(Pow(n + 1, m) % (n * n), n) == m % n
  {
    OnePlusNPow(n, m);
    assert 1 + n == n + 1;
    ReduceOnePlusMultiple(n, m);
    MulDiv(m % n, n);
  }
}
