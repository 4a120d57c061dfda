/** The Paillier cryptosystem the server's share is encrypted under: encryption as
    (1 + N)^m * r^N mod N^2 and decryption with the factors of N, proved correct and homomorphic
    from primality of the factors alone. */
module Paillier {
  import opened NumberTheory

  datatype DecryptionKey = DecryptionKey(p: int, q: int) {
    function N(): int { p * q }
    function Lambda(): int { (p - 1) * (q - 1) }

    /** Two distinct primes neither of which divides the other minus one, that is
        gcd(N, (p - 1) * (q - 1)) = 1; primes of equal length always satisfy this. */
    ghost predicate Valid() {
      IsPrime(p) && IsPrime(q) && p != q && (q - 1) % p != 0 && (p - 1) % q != 0
    }

    ghost predicate Unit(r: int)
      requires Valid()
    {
      r % p != 0 && r % q != 0
    }
  }

  function Encrypt(n: int, m: nat, r: int): int
    requires 0 < n
  {
    SquarePositive(n);
    (Pow(1 + n, m) * Pow(r, n)) % (n * n)
  }

  /** The homomorphic sum of two ciphertexts. */
  function AddCiphertexts(n: int, c1: int, c2: int): int
    requires 0 < n
  {
    SquarePositive(n);
    (c1 * c2) % (n * n)
  }

  /** A ciphertext of a plaintext multiplied by a known number. */
  function MulCiphertext(n: int, c: int, k: nat): int
    requires 0 < n
  {
    SquarePositive(n);
    Pow(c, k) % (n * n)
  }

  function Decrypt(key: DecryptionKey, c: int): int
    requires 2 <= key.p && 2 <= key.q
  {
    NonNegProduct(key.p - 1, key.q - 1);
    ScaledAtLeast(key.p, key.q);
    SquarePositive(key.N());
    var u := Pow(c, key.Lambda()) % (key.N() * key.N());
    ((u - 1) / key.N() * Mu(key)) % key.N()
  }

  /** The inverse of (p - 1) * (q - 1) modulo N. */
  function Mu(key: DecryptionKey): int
    requires 2 <= key.p && 2 <= key.q
  {
    ScaledAtLeast(key.p - 1, key.q - 1);
    Pow(key.Lambda(), key.Lambda() - 1)
  }

  lemma SquarePositive(n: int)
    requires 0 < n
    ensures 0 < n * n
  {
    ScaledAtLeast(n, n);
  }

  /** c is an encryption of m under randomness r. */
  ghost predicate EncryptsWith(key: DecryptionKey, c: int, m: nat, r: int)
    requires key.Valid()
  {
    ScaledAtLeast(key.p, key.q);
    SquarePositive(key.N());
    key.Unit(r) && Cong(c, Pow(1 + key.N(), m) * Pow(r, key.N()), key.N() * key.N())
  }

  ghost predicate Encrypts(key: DecryptionKey, c: int, m: nat)
    requires key.Valid()
  {
    exists r :: EncryptsWith(key, c, m, r)
  }

  // ---------- the homomorphism ----------

  lemma KeyBounds(key: DecryptionKey)
    requires key.Valid()
    ensures 4 <= key.N() && 1 <= key.Lambda() && key.p <= key.N() && key.q <= key.N()
    ensures 0 < key.N() * key.N()
  {
    ProductBounds(key.p, key.q);
    SquarePositive(key.N());
  }

  lemma ProductBounds(p: int, q: int)
    requires 2 <= p && 2 <= q
    ensures 4 <= p * q && p <= p * q && q <= p * q && 1 <= (p - 1) * (q - 1)
  {
    NonNegProduct(p - 2, q - 2);
    ScaledAtLeast(p, q);
    ScaledAtLeast(q, p);
    ScaledAtLeast(p - 1, q - 1);
  }

  lemma EncryptEncrypts(key: DecryptionKey, m: nat, r: int)
    requires key.Valid() && key.Unit(r)
    ensures 0 < key.N() && EncryptsWith(key, Encrypt(key.N(), m, r), m, r) && Encrypts(key, Encrypt(key.N(), m, r), m)
  {
    KeyBounds(key);
    ModCong(Pow(1 + key.N(), m) * Pow(r, key.N()), key.N() * key.N());
    assert EncryptsWith(key, Encrypt(key.N(), m, r), m, r);
  }

  /** Multiplying ciphertexts adds plaintexts. */
  lemma AddHomomorphic(key: DecryptionKey, c1: int, m1: nat, c2: int, m2: nat)
    requires key.Valid() && Encrypts(key, c1, m1) && Encrypts(key, c2, m2)
    ensures 0 < key.N() && Encrypts(key, AddCiphertexts(key.N(), c1, c2), m1 + m2)
  {
    var r1 :| EncryptsWith(key, c1, m1, r1);
    var r2 :| EncryptsWith(key, c2, m2, r2);
    AddRandomness(key, c1, m1, r1, c2, m2, r2);
  }

  /** And it multiplies the randomness. */
  lemma AddRandomness(key: DecryptionKey, c1: int, m1: nat, r1: int, c2: int, m2: nat, r2: int)
    requires key.Valid() && EncryptsWith(key, c1, m1, r1) && EncryptsWith(key, c2, m2, r2)
    ensures 0 < key.N() && EncryptsWith(key, AddCiphertexts(key.N(), c1, c2), m1 + m2, r1 * r2)
  {
    KeyBounds(key);
    var n, sq := key.N(), key.N() * key.N();
    var a1, b1, a2, b2 := Pow(1 + n, m1), Pow(r1, n), Pow(1 + n, m2), Pow(r2, n);
    CongMul(c1, a1 * b1, c2, a2 * b2, sq);
    ModCong(c1 * c2, sq);
    Shuffle(a1, b1, a2, b2);
    PowAdd(1 + n, m1, m2);
    PowMulBase(r1, r2, n);
    NonzeroProduct(key.p, r1, r2);
    NonzeroProduct(key.q, r1, r2);
  }

  /** Raising a ciphertext to a power multiplies the plaintext. */
  lemma MulHomomorphic(key: DecryptionKey, c: int, m: nat, k: nat)
    requires key.Valid() && Encrypts(key, c, m)
    ensures 0 < key.N() && 0 <= m * k && Encrypts(key, MulCiphertext(key.N(), c, k), m * k)
  {
    var r :| EncryptsWith(key, c, m, r);
    MulRandomness(key, c, m, r, k);
  }

  lemma MulRandomness(key: DecryptionKey, c: int, m: nat, r: int, k: nat)
    requires key.Valid() && EncryptsWith(key, c, m, r)
    ensures 0 < key.N() && 0 <= m * k && EncryptsWith(key, MulCiphertext(key.N(), c, k), m * k, Pow(r, k))
  {
    KeyBounds(key);
    var n, sq := key.N(), key.N() * key.N();
    var a, b := Pow(1 + n, m), Pow(r, n);
    CongPow(c, a * b, k, sq);
    ModCong(Pow(c, k), sq);
    PowMulBase(a, b, k);
    PowPow(1 + n, m, k);
    PowPow(r, n, k);
    PowPow(r, k, n);
    assert n * k == k * n;
    NonzeroPow(key.p, r, k);
    NonzeroPow(key.q, r, k);
  }

  // ---------- decryption ----------

  lemma NotDivides(p: int, q: int)
    requires IsPrime(p) && 2 <= q && q != p
    ensures !Divides(q, p)
  {
    if p < q { ModUnique(p, q, 0, p); }
  }

  /** Congruence modulo two distinct primes is congruence modulo their product. */
  lemma CongProduct(p: int, q: int, a: int, b: int)
    requires IsPrime(p) && IsPrime(q) && p != q && Cong(a, b, p) && Cong(a, b, q)
    ensures 0 < p * q && Cong(a, b, p * q)
  {
    var i := CongDiff(a, b, p);
    var j := CongDiff(a, b, q);
    DividesMultiple(q, j);
    Euclid(q, p, i);
    NotDivides(p, q);
    ScaledAtLeast(p, q);
    Regroup(p, q, i / q);
    CongFromDiff(a, b, p * q, i / q);
  }

  /** Euler's theorem for a product of two primes. */
  lemma Euler(key: DecryptionKey, u: int)
    requires key.Valid() && key.Unit(u)
    ensures 0 < key.N() && 0 <= key.Lambda() && Cong(Pow(u, key.Lambda()), 1, key.N())
  {
    KeyBounds(key);
    EulerStep(key.p, key.q, u, key.Lambda());
  }

  lemma EulerStep(p: int, q: int, u: int, e: int)
    requires IsPrime(p) && IsPrime(q) && 2 <= p && 2 <= q && p != q && u % p != 0 && u % q != 0 && 0 <= e && e == (p - 1) * (q - 1)
    ensures 0 < p * q && Cong(Pow(u, e), 1, p * q)
  {
    hide Pow, IsPrime;
    FermatExponent(p, u, q - 1);
    assert e == (q - 1) * (p - 1);
    FermatExponent(q, u, p - 1);
    CongProduct(p, q, Pow(u, e), 1);
  }

  lemma FermatExponent(p: int, u: int, e: nat)
    requires IsPrime(p) && u % p != 0
    ensures 0 <= (p - 1) * e && Cong(Pow(u, (p - 1) * e), 1, p)
  {
    Fermat(p, u);
    CongPow(Pow(u, p - 1), 1, e, p);
    PowPow(u, p - 1, e);
    PowOne(e);
  }

  lemma LinearStepAlgebra(k: int, n: int, e: int)
    ensures (1 + k * n) * (1 + (e - 1) * (k * n)) - (1 + e * (k * n)) == (n * n) * ((e - 1) * (k * k))
  {
    LinearSquare(k * n, e);
    Shuffle(k, n, k, n);
    Regroup(n * n, e - 1, k * k);
    Regroup(e - 1, n * n, k * k);
  }

  lemma LinearSquare(z: int, e: int)
    ensures (1 + z) * (1 + (e - 1) * z) - (1 + e * z) == (e - 1) * (z * z)
  {
  }

  lemma LinearStep(k: int, n: int, e: int, p: int)
    requires 0 < n * n && Cong(p, 1 + (e - 1) * (k * n), n * n)
    ensures Cong((1 + k * n) * p, 1 + e * (k * n), n * n)
  {
    CongMul(1 + k * n, 1 + k * n, p, 1 + (e - 1) * (k * n), n * n);
    LinearStepAlgebra(k, n, e);
    CongFromDiff((1 + k * n) * (1 + (e - 1) * (k * n)), 1 + e * (k * n), n * n, (e - 1) * (k * k));
  }

  lemma LinearBase(z: int, m: int)
    requires 0 < m
    ensures Cong(1, 1 + 0 * z, m)
  {
  }

  /** Modulo N^2 a power of 1 + kN is linear in the exponent. */
  lemma {:induction false} PowLinear(k: int, n: int, e: nat)
    requires 0 < n
    ensures 0 < n * n && Cong(Pow(1 + k * n, e), 1 + e * (k * n), n * n)
  {
    hide Cong;
    SquarePositive(n);
    if e == 0 {
      LinearBase(k * n, n * n);
    } else {
      PowLinear(k, n, e - 1);
      LinearStep(k, n, e, Pow(1 + k * n, e - 1));
    }
  }

  /** What is 1 modulo N is 1 modulo N^2 when raised to the power N. */
  lemma UnitPower(u: int, n: int)
    requires 0 < n && Cong(u, 1, n)
    ensures 0 < n * n && Cong(Pow(u, n), 1, n * n)
  {
    hide Pow;
    var k := CongDiff(u, 1, n);
    assert u == 1 + k * n;
    PowLinear(k, n, n);
    Regroup(n, n, k);
    assert n * (k * n) == n * (n * k);
    CongFromDiff(1 + n * (k * n), 1, n * n, k);
  }

  /** The blinding factor r^N disappears at exponent (p - 1)(q - 1). */
  lemma BlindingVanishes(key: DecryptionKey, r: int)
    requires key.Valid() && key.Unit(r)
    ensures 0 < key.N() * key.N() && 0 <= key.N() && 0 <= key.Lambda()
    ensures Cong(Pow(Pow(r, key.N()), key.Lambda()), 1, key.N() * key.N())
  {
    KeyBounds(key);
    hide Pow, Cong, IsPrime;
    var n, l := key.N(), key.Lambda();
    Euler(key, r);
    UnitPower(Pow(r, l), n);
    PowPow(r, l, n);
    PowPow(r, n, l);
    assert n * l == l * n;
  }

  lemma MuInverts(key: DecryptionKey)
    requires key.Valid()
    ensures 0 < key.N() && Cong(key.Lambda() * Mu(key), 1, key.N())
  {
    KeyBounds(key);
    var l := key.Lambda();
    ModUnique(key.p - 1, key.p, 0, key.p - 1);
    ModUnique(key.q - 1, key.q, 0, key.q - 1);
    NonzeroProduct(key.p, key.p - 1, key.q - 1);
    NonzeroProduct(key.q, key.p - 1, key.q - 1);
    Euler(key, l);
    assert l * Mu(key) == Pow(l, l);
  }

  /** c^lambda mod N^2 is 1 + N * (m * lambda mod N). */
  lemma LambdaPower(key: DecryptionKey, c: int, m: nat)
    requires key.Valid() && Encrypts(key, c, m)
    ensures 0 < key.N() && 0 < key.N() * key.N() && 0 <= key.Lambda()
    ensures Pow(c, key.Lambda()) % (key.N() * key.N()) == 1 + key.N() * ((m * key.Lambda()) % key.N())
  {
    KeyBounds(key);
    var n, l, sq := key.N(), key.Lambda(), key.N() * key.N();
    var r :| EncryptsWith(key, c, m, r);
    var a, b := Pow(1 + n, m), Pow(r, n);
    CongPow(c, a * b, l, sq);
    PowMulBase(a, b, l);
    BlindingVanishes(key, r);
    CongMul(Pow(a, l), Pow(a, l), Pow(b, l), 1, sq);
    assert Pow(a, l) * 1 == Pow(a, l);
    PowPow(1 + n, m, l);
    assert 1 * n == n;
    PowLinear(1, n, m * l);
    var x := m * l;
    LinearRemainder(n, x);
  }

  lemma LinearRemainder(n: int, x: int)
    requires 2 <= n
    ensures 0 < n * n && (1 + x * n) % (n * n) == 1 + n * (x % n)
  {
    SquarePositive(n);
    var k, y := x / n, x % n;
    assert x == n * k + y;
    assert (n * k + y) * n == (n * n) * k + n * y;
    NonNegProduct(n, n - 1 - y);
    NonNegProduct(n, y);
    assert n * (n - 1 - y) == n * n - n - n * y;
    ModUnique(1 + x * n, n * n, k, 1 + n * y);
  }

  lemma MuCancels(n: int, m: int, l: int, mu: int)
    requires 0 < n && Cong(l * mu, 1, n)
    ensures ((m * l) % n * mu) % n == m % n
  {
    ModCong(m * l, n);
    CongMul((m * l) % n, m * l, mu, mu, n);
    Regroup(m, l, mu);
    CongMul(m, m, l * mu, 1, n);
  }

  /** Decryption returns the plaintext modulo N. */
  lemma DecryptCorrect(key: DecryptionKey, c: int, m: nat)
    requires key.Valid() && Encrypts(key, c, m)
    ensures 0 < key.N() && Decrypt(key, c) == m % key.N()
  {
    KeyBounds(key);
    hide Pow, Mu, IsPrime, Encrypts;
    var n, l := key.N(), key.Lambda();
    LambdaPower(key, c, m);
    var y := (m * l) % n;
    ModUnique(n * y, n, y, 0);
    MuInverts(key);
    MuCancels(n, m, l, Mu(key));
  }
}
