/** Two-party signing: the client combines its half of the signature with the server's encrypted
    share, the server decrypts and finishes. */
module TwoPartySigning {
  import opened Common
  import opened NumberTheory
  import opened Ecdsa
  import opened Paillier
  import opened MasterKeys

  /** What the client draws for one signature: ephemeral secret, mask and encryption randomness. */
  datatype ClientNonce = ClientNonce(k2: int, rho: int, blind: int)

  datatype SignMessage = SignMessage(r2: Point, c3: int)

  ghost predicate GoodNonces(pr: Primitives, key: DecryptionKey, k1: int, eph: ClientNonce) {
    key.Valid() && 0 < k1 < pr.q && 0 < eph.k2 < pr.q && 0 <= eph.rho < pr.q * pr.q && key.Unit(eph.blind)
  }

  /** The multiplier of the encrypted share: x2 * r / k2 reduced modulo q. */
  function Multiplier(pr: Primitives, x2: int, r: int, k2: int): nat
    requires 2 <= pr.q
  {
    ((Inverse(k2, pr.q) * x2) % pr.q * r) % pr.q
  }

  function MaskedHash(pr: Primitives, eph: ClientNonce, e: int): nat
    requires 2 <= pr.q && 0 <= eph.rho
  {
    NonNegProduct(eph.rho, pr.q);
    (Inverse(eph.k2, pr.q) * e) % pr.q + eph.rho * pr.q
  }

  /** The client's second message: an encryption of e / k2 + rho * q + x1 * x2 * r / k2. */
  function SignSecondMessage(pr: Primitives, mk2: MasterKey2, eph: ClientNonce, r1: Point, e: int): SignMessage
    requires 2 <= pr.q && 0 < mk2.n && 0 <= eph.rho
  {
    var r := pr.xcoord(pr.Times(eph.k2, r1)) % pr.q;
    var c1 := Encrypt(mk2.n, MaskedHash(pr, eph, e), eph.blind);
    var c2 := MulCiphertext(mk2.n, mk2.cKey, Multiplier(pr, mk2.x2, r, eph.k2));
    SignMessage(pr.Times(eph.k2, pr.G), AddCiphertexts(mk2.n, c1, c2))
  }

  /** The server's answer: decrypt, divide by k1, and release the pair only if it verifies. */
  function SignFinish(pr: Primitives, mk1: MasterKey1, k1: int, msg: SignMessage, e: int): Option<Signature>
    requires 2 <= pr.q && 2 <= mk1.paillier.p && 2 <= mk1.paillier.q
  {
    var point := pr.Times(k1, msg.r2);
    var r := pr.xcoord(point) % pr.q;
    var s := (Decrypt(mk1.paillier, msg.c3) % pr.q * Inverse(k1, pr.q)) % pr.q;
    if pr.Verify(mk1.pub, e, r, s) then Some(Signature(r, s, pr.parity(point))) else None
  }

  /** The whole exchange; None is the server's refusal to answer. */
  function Sign(pr: Primitives, mk1: MasterKey1, mk2: MasterKey2, k1: int, eph: ClientNonce, e: int): Option<Signature>
    requires 2 <= pr.q && 0 < mk2.n && 0 <= eph.rho && 2 <= mk1.paillier.p && 2 <= mk1.paillier.q
  {
    SignFinish(pr, mk1, k1, SignSecondMessage(pr, mk2, eph, pr.Times(k1, pr.G), e), e)
  }

  /** Single-party ECDSA with private key x and ephemeral key k, refusing r = 0 and s = 0. */
  function EcdsaSign(pr: Primitives, x: int, k: int, e: int): Option<Signature>
    requires 2 <= pr.q
  {
    var point := pr.Times(k, pr.G);
    var r := pr.xcoord(point) % pr.q;
    var s := (Inverse(k, pr.q) * (e + r * x)) % pr.q;
    if r == 0 || s == 0 then None else Some(Signature(r, s, pr.parity(point)))
  }

  lemma SmallProduct(a: int, b: int, m: int)
    requires 0 <= a < m && 0 <= b < m
    ensures 0 <= a * b <= m * m - 2 * m + 1
  {
    NonNegProduct(a, b);
    NonNegProduct(m - 1 - a, b);
    NonNegProduct(m - 1, m - 1 - b);
  }

  lemma MaskBound(rho: int, s: int, q: int)
    requires 0 <= rho < s && 0 < q
    ensures 0 <= rho * q <= s * q - q
  {
    NonNegProduct(rho, q);
    NonNegProduct(s - 1 - rho, q);
  }

  lemma PlaintextBound(q: int, a: int, rho: int, x1: int, v: int)
    requires 2 <= q && 0 <= a < q && 0 <= rho < q * q && 0 <= x1 < q && 0 <= v < q
    ensures 0 <= x1 * v && 0 <= rho * q && a + rho * q + x1 * v < q * q * q + q * q
  {
    SmallProduct(x1, v, q);
    MaskBound(rho, q * q, q);
  }

  /** No wraparound: what the server decrypts is the integer the client combined, not merely its
      residue modulo N. */
  lemma DecryptedPlaintext(pr: Primitives, mk1: MasterKey1, mk2: MasterKey2, k1: int, eph: ClientNonce, r1: Point, e: int)
    requires Matches(pr, mk1, mk2) && GoodNonces(pr, mk1.paillier, k1, eph)
    ensures 0 < mk2.n
    ensures var r := pr.xcoord(pr.Times(eph.k2, r1)) % pr.q;
            Decrypt(mk1.paillier, SignSecondMessage(pr, mk2, eph, r1, e).c3)
            == (Inverse(eph.k2, pr.q) * e) % pr.q + eph.rho * pr.q + mk1.x1 * Multiplier(pr, mk2.x2, r, eph.k2)
  {
    var key := mk1.paillier;
    KeyBounds(key);
    var r := pr.xcoord(pr.Times(eph.k2, r1)) % pr.q;
    var a, v := MaskedHash(pr, eph, e), Multiplier(pr, mk2.x2, r, eph.k2);
    EncryptEncrypts(key, a, eph.blind);
    MulHomomorphic(key, mk2.cKey, mk1.x1, v);
    var c1, c2 := Encrypt(mk2.n, a, eph.blind), MulCiphertext(mk2.n, mk2.cKey, v);
    AddHomomorphic(key, c1, a, c2, mk1.x1 * v);
    DecryptCorrect(key, AddCiphertexts(mk2.n, c1, c2), a + mk1.x1 * v);
    PlaintextBound(pr.q, (Inverse(eph.k2, pr.q) * e) % pr.q, eph.rho, mk1.x1, v);
    ModUnique(a + mk1.x1 * v, key.N(), 0, a + mk1.x1 * v);
  }

  /** What the client sends is blinded by its own randomness on top of that of the encrypted share. */
  lemma MessageBlinded(pr: Primitives, mk1: MasterKey1, mk2: MasterKey2, k1: int, eph: ClientNonce, r1: Point, e: int, b: int)
    requires Matches(pr, mk1, mk2) && GoodNonces(pr, mk1.paillier, k1, eph)
    requires EncryptsWith(mk1.paillier, mk2.cKey, mk1.x1, b)
    ensures 0 < mk2.n
    ensures var v := Multiplier(pr, mk2.x2, pr.xcoord(pr.Times(eph.k2, r1)) % pr.q, eph.k2);
            && 0 <= mk1.x1 * v
            && EncryptsWith(mk1.paillier, SignSecondMessage(pr, mk2, eph, r1, e).c3,
                            MaskedHash(pr, eph, e) + mk1.x1 * v, eph.blind * Pow(b, v))
  {
    hide MaskedHash, Multiplier, EncryptsWith, Encrypt, AddCiphertexts, MulCiphertext;
    var key := mk1.paillier;
    KeyBounds(key);
    var a, v := MaskedHash(pr, eph, e), Multiplier(pr, mk2.x2, pr.xcoord(pr.Times(eph.k2, r1)) % pr.q, eph.k2);
    EncryptEncrypts(key, a, eph.blind);
    MulRandomness(key, mk2.cKey, mk1.x1, b, v);
    AddRandomness(key, Encrypt(mk2.n, a, eph.blind), a, eph.blind, MulCiphertext(mk2.n, mk2.cKey, v), mk1.x1 * v, Pow(b, v));
  }

  /** The decrypted integer is (e + r * x1 * x2) / k2 modulo q. */
  lemma PlaintextResidue(pr: Primitives, x1: int, x2: int, r: int, eph: ClientNonce, e: int)
    requires 2 <= pr.q && 0 <= eph.rho
    ensures Cong(MaskedHash(pr, eph, e) + x1 * Multiplier(pr, x2, r, eph.k2),
                 Inverse(eph.k2, pr.q) * (e + r * (x1 * x2)), pr.q)
  {
    var q, i := pr.q, Inverse(eph.k2, pr.q);
    var h := (i * e) % q;
    ModCong(i * e, q);
    CongFromDiff(h + eph.rho * q, h, q, eph.rho);
    ModCong(i * x2, q);
    CongMul((i * x2) % q, i * x2, r, r, q);
    ModCong((i * x2) % q * r, q);
    var v := Multiplier(pr, x2, r, eph.k2);
    CongMul(x1, x1, v, i * x2 * r, q);
    CongAdd(h + eph.rho * q, i * e, x1 * v, x1 * (i * x2 * r), q);
    ResidueAlgebra(i, e, x1, x2, r);
  }

  lemma ResidueAlgebra(i: int, e: int, x1: int, x2: int, r: int)
    ensures i * e + x1 * (i * x2 * r) == i * (e + r * (x1 * x2))
  {
    assert x1 * (i * x2 * r) == i * (r * (x1 * x2)) by {
      Regroup(x1, i * x2, r);
      Shuffle(x1, 1, i, x2);
      Regroup(i, r, x1 * x2);
    }
  }

  lemma InverseProduct(q: int, a: int, b: int)
    requires IsPrime(q) && a % q != 0 && b % q != 0
    ensures (a * b) % q != 0 && Cong(Inverse(b, q) * Inverse(a, q), Inverse((a * b) % q, q), q)
  {
    var c := (a * b) % q;
    NonzeroProduct(q, a, b);
    ModCong(a * b, q);
    InverseCorrect(a, q);
    InverseCorrect(b, q);
    InverseCorrect(c, q);
    var i, j, w := Inverse(a, q), Inverse(b, q), Inverse(c, q);
    CongMul(c, a * b, j * i, j * i, q);
    Shuffle(a, b, i, j);
    assert i * j == j * i;
    CongMul(a * i, 1, b * j, 1, q);
    Cancel(q, c, j * i, w);
  }

  /** The two-party exchange is single-party ECDSA with private key x1 * x2 and ephemeral key
      k1 * k2, including when it refuses to answer. */
  lemma SignRefinesEcdsa(pr: Primitives, mk1: MasterKey1, mk2: MasterKey2, k1: int, eph: ClientNonce, e: int)
    requires Matches(pr, mk1, mk2) && GoodNonces(pr, mk1.paillier, k1, eph)
    ensures 0 < mk2.n
    ensures Sign(pr, mk1, mk2, k1, eph, e)
            == EcdsaSign(pr, (mk1.x1 * mk2.x2) % pr.q, (k1 * eph.k2) % pr.q, e)
  {
    var q, k2 := pr.q, eph.k2;
    var r1 := pr.Times(k1, pr.G);
    SamePoint(pr, k1, k2);
    var point := pr.Times((k1 * k2) % q, pr.G);
    var r := pr.xcoord(point) % q;
    var x := (mk1.x1 * mk2.x2) % q;
    ModUnique(k1, q, 0, k1);
    ModUnique(k2, q, 0, k2);
    InverseProduct(q, k1, k2);
    DecryptedPlaintext(pr, mk1, mk2, k1, eph, r1, e);
    PlaintextResidue(pr, mk1.x1, mk2.x2, r, eph, e);
    var d := Decrypt(mk1.paillier, SignSecondMessage(pr, mk2, eph, r1, e).c3);
    var i1, i2, i := Inverse(k1, q), Inverse(k2, q), Inverse((k1 * k2) % q, q);
    ModCong(mk1.x1 * mk2.x2, q);
    CongMul(r, r, x, mk1.x1 * mk2.x2, q);
    CongAdd(e, e, r * x, r * (mk1.x1 * mk2.x2), q);
    CongMul(i2, i2, e + r * (mk1.x1 * mk2.x2), e + r * x, q);
    QuotientOfQuotient(q, d, i1, i2, i, e + r * x);
    EcdsaVerifies(pr, x, (k1 * k2) % q, e);
  }

  lemma QuotientOfQuotient(q: int, d: int, i1: int, i2: int, i: int, t: int)
    requires 2 <= q && Cong(d, i2 * t, q) && Cong(i2 * i1, i, q)
    ensures (d % q * i1) % q == (i * t) % q
  {
    ModCong(d, q);
    CongMul(d % q, i2 * t, i1, i1, q);
    assert i2 * t * i1 == i2 * i1 * t;
    CongMul(i2 * i1, i, t, t, q);
  }

  lemma TimesTimes(pr: Primitives, a: int, b: int)
    requires 2 <= pr.q
    ensures pr.Times(a, pr.Times(b, pr.G)) == (a * b) % pr.q
  {
    ModCong(b, pr.q);
    CongMul(a, a, b % pr.q, b, pr.q);
  }

  lemma SamePoint(pr: Primitives, k1: int, k2: int)
    requires 2 <= pr.q
    ensures pr.Times(k1, pr.Times(k2, pr.G)) == pr.Times((k1 * k2) % pr.q, pr.G)
    ensures pr.Times(k2, pr.Times(k1, pr.G)) == pr.Times((k1 * k2) % pr.q, pr.G)
  {
    TimesTimes(pr, k1, k2);
    TimesTimes(pr, k2, k1);
    assert k1 * k2 == k2 * k1;
    ModCong(k1 * k2, pr.q);
  }

  /** A textbook signature satisfies the signing equation of its ephemeral point; so it verifies,
      and the pair (r, s) verifies exactly when neither component is zero. */
  lemma EcdsaVerifies(pr: Primitives, x: int, k: int, e: int)
    requires IsPrime(pr.q) && 0 < k < pr.q && 0 <= x < pr.q
    ensures var r := pr.xcoord(pr.Times(k, pr.G)) % pr.q;
            var s := (Inverse(k, pr.q) * (e + r * x)) % pr.q;
            && pr.Signs(k, x, e, r, s)
            && (pr.Verify(x, e, r, s) <==> r != 0 && s != 0)
    ensures EcdsaSign(pr, x, k, e).Some? ==>
              var sig := EcdsaSign(pr, x, k, e).value;
              pr.Signs(k, x, e, sig.r, sig.s) && pr.Verify(x, e, sig.r, sig.s) && sig.recid == pr.parity(k)
  {
    var q := pr.q;
    ModUnique(k, q, 0, k);
    var r := pr.xcoord(k) % q;
    var i, t := Inverse(k, q), e + r * x;
    InverseCorrect(k, q);
    var s := (i * t) % q;
    ModCong(i * t, q);
    CongMul(s, i * t, k, k, q);
    assert i * t * k == k * i * t;
    CongMul(k * i, 1, t, t, q);
    assert pr.Signs(k, x, e, r, s);
    if r != 0 && s != 0 { pr.VerifyIff(x, e, r, s); }
  }

  /** Single-party signing is exactly the signing equation: the answer is the one signature of the
      ephemeral point that satisfies it, whatever the size of s, and there is none only when r or s
      would be zero. */
  lemma EcdsaSignExact(pr: Primitives, x: int, k: int, e: int)
    requires IsPrime(pr.q) && 0 < k < pr.q && 0 <= x < pr.q
    ensures forall sig :: EcdsaSign(pr, x, k, e) == Some(sig) <==>
              pr.Signs(k, x, e, sig.r, sig.s) && sig.r != 0 && 0 < sig.s < pr.q && sig.recid == pr.parity(k)
    ensures EcdsaSign(pr, x, k, e).Some? <==> pr.xcoord(k) % pr.q != 0 && (e + pr.xcoord(k) % pr.q * x) % pr.q != 0
  {
    var q := pr.q;
    ModUnique(k, q, 0, k);
    assert k * pr.G == k;
    EcdsaVerifies(pr, x, k, e);
    var r := pr.xcoord(k) % q;
    var s := (Inverse(k, q) * (e + r * x)) % q;
    forall t | pr.Signs(k, x, e, r, t) && 0 < t < q
      ensures t == s
    {
      assert s * k == k * s && t * k == k * t;
      Cancel(q, k, t, s);
      ModUnique(t, q, 0, t);
      ModUnique(s, q, 0, s);
    }
    ModUnique(s, q, 0, s);
    if s != 0 { NonzeroProduct(q, s, k); }
    ModUnique(0, q, 0, 0);
  }

  /** Exactly when the two parties produce a signature, and which: r is the x coordinate of the
      joint ephemeral point, s solves the signing equation for the joint public key, and the
      server refuses only when one of them is zero. */
  lemma SignExact(pr: Primitives, mk1: MasterKey1, mk2: MasterKey2, k1: int, eph: ClientNonce, e: int)
    requires Matches(pr, mk1, mk2) && GoodNonces(pr, mk1.paillier, k1, eph)
    ensures 0 < mk2.n
    ensures var k := (k1 * eph.k2) % pr.q;
            && 0 < k < pr.q
            && (forall sig :: Sign(pr, mk1, mk2, k1, eph, e) == Some(sig) <==>
                  pr.Signs(k, mk2.pub, e, sig.r, sig.s) && sig.r != 0 && 0 < sig.s < pr.q && sig.recid == pr.parity(k))
            && (Sign(pr, mk1, mk2, k1, eph, e).Some? <==>
                  pr.xcoord(k) % pr.q != 0 && (e + pr.xcoord(k) % pr.q * mk2.pub) % pr.q != 0)
  {
    hide EcdsaSign, Sign, Encrypts, WideKey;
    EphemeralNonzero(pr, k1, eph);
    SignedChildVerifies(pr, mk1, mk2, k1, eph, e);
    EcdsaSignExact(pr, mk2.pub, (k1 * eph.k2) % pr.q, e);
  }

  lemma EphemeralNonzero(pr: Primitives, k1: int, eph: ClientNonce)
    requires pr.Valid() && 0 < k1 < pr.q && 0 < eph.k2 < pr.q
    ensures 0 < (k1 * eph.k2) % pr.q < pr.q
  {
    ModUnique(k1, pr.q, 0, k1);
    ModUnique(eph.k2, pr.q, 0, eph.k2);
    NonzeroProduct(pr.q, k1, eph.k2);
  }

  /** Matching keys sign under their public key: the result is the textbook signature, and when
      there is one it and its negation both verify. */
  lemma SignedChildVerifies(pr: Primitives, mk1: MasterKey1, mk2: MasterKey2, k1: int, eph: ClientNonce, e: int)
    requires Matches(pr, mk1, mk2) && GoodNonces(pr, mk1.paillier, k1, eph)
    ensures 0 < mk2.n
    ensures Sign(pr, mk1, mk2, k1, eph, e) == EcdsaSign(pr, mk2.pub, (k1 * eph.k2) % pr.q, e)
    ensures Sign(pr, mk1, mk2, k1, eph, e).Some? ==>
              var sig := Sign(pr, mk1, mk2, k1, eph, e).value;
              && 0 < sig.r < pr.q && 0 < sig.s < pr.q
              && pr.Verify(mk2.pub, e, sig.r, sig.s)
              && pr.Verify(mk2.pub, e, sig.r, pr.q - sig.s)
  {
    var k := (k1 * eph.k2) % pr.q;
    ModUnique(k1, pr.q, 0, k1);
    ModUnique(eph.k2, pr.q, 0, eph.k2);
    NonzeroProduct(pr.q, k1, eph.k2);
    SignRefinesEcdsa(pr, mk1, mk2, k1, eph, e);
    EcdsaVerifies(pr, mk2.pub, k, e);
    var signed := Sign(pr, mk1, mk2, k1, eph, e);
    if signed.Some? { pr.NegatedVerifies(mk2.pub, e, signed.value.r, signed.value.s); }
  }
}
