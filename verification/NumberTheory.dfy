/** Congruences, primality and Fermat's little theorem: the arithmetic of Z_q and Z_N that
    the two-party protocol computes in. Inverses are constructed here, not assumed. */
module NumberTheory {

  predicate Divides(d: int, n: int)
    requires d != 0
  {
    n % d == 0
  }

  ghost predicate IsPrime(p: int) {
    2 <= p && forall d :: 2 <= d < p ==> !Divides(d, p)
  }

  predicate Cong(a: int, b: int, m: int)
    requires 0 < m
  {
    a % m == b % m
  }

  function Pow(b: int, e: nat): int {
    if e == 0 then 1 else b * Pow(b, e - 1)
  }

  // ---------- remainders ----------

  lemma NonNegProduct(a: int, b: int)
    requires 0 <= a && 0 <= b
    ensures 0 <= a * b
  {
  }

  lemma ScaledAtLeast(k: int, m: int)
    requires 0 < m && k != 0
    ensures k * m <= -m || m <= k * m
  {
    if k > 0 {
      NonNegProduct(k - 1, m);
    } else {
      NonNegProduct(-k - 1, m);
    }
  }

  lemma Shuffle(a: int, b: int, x: int, y: int)
    ensures (a * b) * (x * y) == (a * x) * (b * y)
  {
  }

  lemma Regroup(a: int, b: int, c: int)
    ensures a * (b * c) == (a * b) * c
  {
  }

  /** Division with remainder is unique. */
  lemma ModUnique(x: int, m: int, k: int, r: int)
    requires 0 < m && x == m * k + r && 0 <= r < m
    ensures x % m == r && x / m == k
  {
    var d := k - x / m;
    assert d * m == x % m - r by {
      assert x == m * (x / m) + x % m;
      assert d * m == m * k - m * (x / m);
    }
    if d != 0 { ScaledAtLeast(d, m); }
  }

  lemma CongFromDiff(a: int, b: int, m: int, k: int)
    requires 0 < m && a - b == m * k
    ensures Cong(a, b, m)
  {
    assert a == m * (b / m + k) + b % m by {
      assert b == m * (b / m) + b % m;
      assert m * (b / m + k) == m * (b / m) + m * k;
    }
    ModUnique(a, m, b / m + k, b % m);
  }

  lemma CongDiff(a: int, b: int, m: int) returns (k: int)
    requires 0 < m && Cong(a, b, m)
    ensures a - b == m * k
  {
    k := a / m - b / m;
    assert m * k == m * (a / m) - m * (b / m);
  }

  lemma ModCong(a: int, m: int)
    requires 0 < m
    ensures Cong(a % m, a, m) && 0 <= a % m < m
  {
    ModUnique(a % m, m, 0, a % m);
  }

  lemma CongAdd(a: int, b: int, c: int, d: int, m: int)
    requires 0 < m && Cong(a, b, m) && Cong(c, d, m)
    ensures Cong(a + c, b + d, m) && Cong(a - c, b - d, m)
  {
    var k := CongDiff(a, b, m);
    var l := CongDiff(c, d, m);
    assert (a + c) - (b + d) == m * (k + l);
    CongFromDiff(a + c, b + d, m, k + l);
    assert (a - c) - (b - d) == m * (k - l);
    CongFromDiff(a - c, b - d, m, k - l);
  }

  lemma CongMul(a: int, b: int, c: int, d: int, m: int)
    requires 0 < m && Cong(a, b, m) && Cong(c, d, m)
    ensures Cong(a * c, b * d, m)
  {
    var k := CongDiff(a, b, m);
    var l := CongDiff(c, d, m);
    calc {
      a * c - b * d;
      (a - b) * c + b * (c - d);
      (m * k) * c + b * (m * l);
      m * (k * c + b * l);
    }
    CongFromDiff(a * c, b * d, m, k * c + b * l);
  }

  lemma {:induction false} CongPow(a: int, b: int, e: nat, m: int)
    requires 0 < m && Cong(a, b, m)
    ensures Cong(Pow(a, e), Pow(b, e), m)
  {
    if e != 0 {
      CongPow(a, b, e - 1, m);
      CongMul(a, b, Pow(a, e - 1), Pow(b, e - 1), m);
    }
  }

  lemma DividesMultiple(d: int, k: int)
    requires 0 < d
    ensures Divides(d, d * k)
  {
    ModUnique(d * k, d, k, 0);
  }

  // ---------- powers ----------

  lemma {:induction false} PowAdd(b: int, e: nat, f: nat)
    ensures Pow(b, e + f) == Pow(b, e) * Pow(b, f)
  {
    if e != 0 {
      PowAdd(b, e - 1, f);
      assert Pow(b, e + f) == b * Pow(b, e - 1 + f);
      assert b * (Pow(b, e - 1) * Pow(b, f)) == (b * Pow(b, e - 1)) * Pow(b, f);
    }
  }

  lemma {:induction false} PowMulBase(a: int, b: int, e: nat)
    ensures Pow(a * b, e) == Pow(a, e) * Pow(b, e)
  {
    if e != 0 {
      PowMulBase(a, b, e - 1);
      Shuffle(a, b, Pow(a, e - 1), Pow(b, e - 1));
    }
  }

  lemma {:induction false} PowPow(b: int, e: nat, f: nat)
    ensures 0 <= e * f && Pow(Pow(b, e), f) == Pow(b, e * f)
  {
    if f == 0 {
      assert e * f == 0;
    } else {
      PowPow(b, e, f - 1);
      assert e * f == e * (f - 1) + e;
      PowAdd(b, e, e * (f - 1));
    }
  }

  lemma {:induction false} PowOne(e: nat)
    ensures Pow(1, e) == 1
  {
    if e != 0 { PowOne(e - 1); }
  }

  lemma {:induction false} PowPositive(b: int, e: nat)
    requires 0 < b
    ensures 0 < Pow(b, e)
  {
    if e != 0 {
      PowPositive(b, e - 1);
      ScaledAtLeast(b, Pow(b, e - 1));
    }
  }

  // ---------- Euclid's lemma ----------

  lemma {:induction false} EuclidSmall(p: int, a: int, b: int)
    requires IsPrime(p) && 0 < a < p && Divides(p, a * b)
    ensures Divides(p, b)
    decreases a
  {
    if a == 1 {
      assert a * b == b;
    } else {
      var k, r := p / a, p % a;
      assert !Divides(a, p);
      assert p == a * k + r;
      var t := (a * b) / p;
      assert a * b == p * t;
      calc {
        r * b;
        (p - a * k) * b;
        p * b - k * (a * b);
        p * b - k * (p * t);
        p * (b - k * t);
      }
      DividesMultiple(p, b - k * t);
      EuclidSmall(p, r, b);
    }
  }

  /** A prime that divides a product divides one of the factors. */
  lemma Euclid(p: int, a: int, b: int)
    requires IsPrime(p) && Divides(p, a * b)
    ensures Divides(p, a) || Divides(p, b)
  {
    if !Divides(p, a) {
      ModCong(a, p);
      CongMul(a % p, a, b, b, p);
      EuclidSmall(p, a % p, b);
    }
  }

  lemma NonzeroProduct(p: int, a: int, b: int)
    requires IsPrime(p) && a % p != 0 && b % p != 0
    ensures (a * b) % p != 0
  {
    if Divides(p, a * b) { Euclid(p, a, b); }
  }

  lemma {:induction false} NonzeroPow(p: int, a: int, e: nat)
    requires IsPrime(p) && a % p != 0
    ensures Pow(a, e) % p != 0
  {
    if e == 0 {
      ModUnique(1, p, 0, 1);
    } else {
      NonzeroPow(p, a, e - 1);
      NonzeroProduct(p, a, Pow(a, e - 1));
    }
  }

  /** Nonzero factors cancel modulo a prime. */
  lemma Cancel(p: int, a: int, b: int, c: int)
    requires IsPrime(p) && a % p != 0 && Cong(a * b, a * c, p)
    ensures Cong(b, c, p)
  {
    var k := CongDiff(a * b, a * c, p);
    assert a * (b - c) == p * k;
    DividesMultiple(p, k);
    Euclid(p, a, b - c);
    var j := (b - c) / p;
    assert b - c == p * j;
    CongFromDiff(b, c, p, j);
  }

  // ---------- Fermat's little theorem, by the binomial theorem ----------

  function Choose(n: nat, k: int): nat {
    if k < 0 || k > n then 0
    else if k == 0 || k == n then 1
    else Choose(n - 1, k - 1) + Choose(n - 1, k)
  }

  lemma ChooseEdge(n: nat)
    ensures Choose(n, 0) == Choose(n, n) == 1
    ensures forall k :: k > n || k < 0 ==> Choose(n, k) == 0
  {
  }

  lemma Pascal(n: nat, k: int)
    ensures Choose(n + 1, k) == Choose(n, k - 1) + Choose(n, k)
  {
  }

  lemma AbsorptionStep(n: int, k: int, u: int, v: int, x: int, y: int)
    requires k * u == n * x && (k + 1) * v == n * y && u == x + y
    ensures (k + 1) * (u + v) == (n + 1) * u
  {
    assert (k + 1) * (u + v) == k * u + u + (k + 1) * v;
    assert n * (x + y) == n * x + n * y;
  }

  lemma {:induction false} Absorption(n: nat, k: nat)
    ensures (k + 1) * Choose(n + 1, k + 1) == (n + 1) * Choose(n, k)
    decreases n
  {
    hide Choose;
    ChooseEdge(n);
    ChooseEdge(n + 1);
    if n != 0 && k <= n {
      ChooseEdge(n - 1);
      var u, v := Choose(n, k), Choose(n, k + 1);
      var x, y := Choose(n - 1, k - 1), Choose(n - 1, k);
      Pascal(n, k + 1);
      Pascal(n - 1, k);
      Absorption(n - 1, k);
      if k != 0 { Absorption(n - 1, k - 1); }
      AbsorptionStep(n, k, u, v, x, y);
    }
  }

  lemma ChooseDivisible(p: int, k: nat)
    requires IsPrime(p) && 0 < k < p
    ensures Divides(p, Choose(p, k))
  {
    Absorption(p - 1, k - 1);
    DividesMultiple(p, Choose(p - 1, k - 1));
    EuclidSmall(p, k, Choose(p, k));
  }

  /** The first j terms of the binomial expansion of (1 + a)^n. */
  function Terms(n: nat, j: nat, a: int): int {
    if j == 0 then 0 else Terms(n, j - 1, a) + Choose(n, j - 1) * Pow(a, j - 1)
  }

  lemma TermsStepAlgebra(s: int, t: int, c: int, d: int, w: int, a: int)
    ensures s + a * t + (c + d) * (a * w) == (s + d * (a * w)) + a * (t + c * w)
  {
  }

  lemma {:induction false} TermsStep(n: nat, j: nat, a: int)
    ensures Terms(n + 1, j + 1, a) == Terms(n, j + 1, a) + a * Terms(n, j, a)
  {
    hide Choose;
    ChooseEdge(n);
    ChooseEdge(n + 1);
    if j != 0 {
      Pascal(n, j);
      TermsStep(n, j - 1, a);
      TermsStepAlgebra(Terms(n, j, a), Terms(n, j - 1, a), Choose(n, j - 1), Choose(n, j), Pow(a, j - 1), a);
    }
  }

  lemma {:induction false} BinomialTheorem(n: nat, a: int)
    ensures Terms(n, n + 1, a) == Pow(1 + a, n)
  {
    if n == 0 {
      assert Terms(0, 1, a) == Terms(0, 0, a) + Choose(0, 0) * Pow(a, 0);
    } else {
      BinomialTheorem(n - 1, a);
      TermsStep(n - 1, n, a);
      assert Terms(n - 1, n + 1, a) == Terms(n - 1, n, a) + Choose(n - 1, n) * Pow(a, n);
      var t := Terms(n - 1, n, a);
      assert t + a * t == (1 + a) * t;
    }
  }

  lemma {:induction false} MiddleTermsVanish(p: int, j: nat, a: int)
    requires IsPrime(p) && 1 <= j <= p
    ensures Cong(Terms(p, j, a), 1, p)
  {
    if j == 1 {
      assert Terms(p, 1, a) == Terms(p, 0, a) + Choose(p, 0) * Pow(a, 0);
    } else {
      MiddleTermsVanish(p, j - 1, a);
      ChooseDivisible(p, j - 1);
      ModUnique(0, p, 0, 0);
      CongMul(Choose(p, j - 1), 0, Pow(a, j - 1), Pow(a, j - 1), p);
      CongAdd(Terms(p, j - 1, a), 1, Choose(p, j - 1) * Pow(a, j - 1), 0, p);
    }
  }

  lemma {:induction false} FermatPower(p: int, a: nat)
    requires IsPrime(p)
    ensures Cong(Pow(a, p), a, p)
  {
    if a == 0 {
      assert Pow(0, p) == 0 * Pow(0, p - 1) == 0;
    } else {
      var b := a - 1;
      FermatPower(p, b);
      BinomialTheorem(p, b);
      MiddleTermsVanish(p, p, b);
      CongAdd(Terms(p, p, b), 1, Pow(b, p), b, p);
      assert Choose(p, p) == 1;
      assert Terms(p, p + 1, b) == Terms(p, p, b) + Choose(p, p) * Pow(b, p);
    }
  }

  /** Fermat's little theorem. */
  lemma Fermat(p: int, a: int)
    requires IsPrime(p) && a % p != 0
    ensures Cong(Pow(a, p - 1), 1, p)
  {
    var b := a % p;
    ModCong(a, p);
    FermatPower(p, b);
    assert Pow(b, p) == b * Pow(b, p - 1);
    assert b * 1 == b;
    Cancel(p, b, Pow(b, p - 1), 1);
    CongPow(b, a, p - 1, p);
  }

  // ---------- inverses modulo a prime ----------

  /** The multiplicative inverse modulo a prime. */
  function Inverse(a: int, p: int): int
    requires 2 <= p
  {
    Pow(a, p - 2) % p
  }

  lemma InverseCorrect(a: int, p: int)
    requires IsPrime(p) && a % p != 0
    ensures 0 < Inverse(a, p) < p && Cong(a * Inverse(a, p), 1, p)
  {
    var w := Pow(a, p - 2);
    ModCong(w, p);
    CongMul(a, a, w % p, w, p);
    assert a * w == Pow(a, p - 1);
    Fermat(p, a);
    NonzeroPow(p, a, p - 2);
  }
}
