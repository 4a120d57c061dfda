/** The key material of the server (party one) and the client (party two), what it means for the two
    to belong together, and hierarchical derivation of child keys. */
module MasterKeys {
  import opened NumberTheory
  import opened Ecdsa
  import opened Paillier

  /** The server's key: joint public key, both public shares, secret share x1, its Paillier key,
      the encryption of x1 and the chain code. */
  datatype MasterKey1 = MasterKey1(
    pub: Point, p1: Point, p2: Point, x1: int, paillier: DecryptionKey, cKey: int, cc: Point)

  /** The client's key: as the server's, with x2 and only the public part of the Paillier key. */
  datatype MasterKey2 = MasterKey2(
    pub: Point, p1: Point, p2: Point, x2: int, n: int, cKey: int, cc: Point)

  /** The two keys belong together: Q = x1 * x2 * G, equal public parts and chain codes, and the
      ciphertext both hold decrypts to x1 under a modulus wide enough for signing. */
  ghost predicate Matches(pr: Primitives, mk1: MasterKey1, mk2: MasterKey2) {
    && pr.Valid()
    && 0 <= mk1.x1 < pr.q && 0 <= mk2.x2 < pr.q
    && mk1.pub == mk2.pub == pr.Times(mk1.x1 * mk2.x2, pr.G)
    && mk1.p1 == mk2.p1 == pr.Times(mk1.x1, pr.G)
    && mk1.p2 == mk2.p2 == pr.Times(mk2.x2, pr.G)
    && mk1.cc == mk2.cc
    && WideKey(pr, mk1.paillier) && mk2.n == mk1.paillier.N()
    && mk1.cKey == mk2.cKey && Encrypts(mk1.paillier, mk1.cKey, mk1.x1)
  }

  ghost predicate WideKey(pr: Primitives, key: DecryptionKey) {
    key.Valid() && pr.q * pr.q * pr.q + pr.q * pr.q <= key.N()
  }

  lemma WideKeyRange(pr: Primitives, key: DecryptionKey)
    requires WideKey(pr, key)
    ensures key.Valid() && 2 <= key.p && 2 <= key.q && 0 < key.N()
  {
    KeyBounds(key);
  }

  lemma ServerShareDecrypts(pr: Primitives, mk1: MasterKey1, mk2: MasterKey2)
    requires Matches(pr, mk1, mk2)
    ensures Decrypt(mk1.paillier, mk2.cKey) == mk1.x1
  {
    DecryptCorrect(mk1.paillier, mk1.cKey, mk1.x1);
    WideEnough(pr.q);
    ModUnique(mk1.x1, mk1.paillier.N(), 0, mk1.x1);
  }

  lemma WideEnough(q: int)
    requires 2 <= q
    ensures q <= q * q && q <= q * q * q + q * q
  {
    ScaledAtLeast(q, q);
    NonNegProduct(q * q, q);
  }

  // ---------- hierarchical derivation ----------

  function Factors(pr: Primitives, cc: Point, pub: Point, index: int): (int, int)
    requires 2 <= pr.q
  {
    var f := pr.hmac(cc, pub, index);
    (f.0 % pr.q, f.1 % pr.q)
  }

  function ChildStep1(pr: Primitives, mk: MasterKey1, index: int): MasterKey1
    requires 2 <= pr.q
  {
    var (fl, fr) := Factors(pr, mk.cc, mk.pub, index);
    mk.(pub := pr.Times(fl, mk.pub), p2 := pr.Times(fl, mk.p2), cc := pr.Times(fr, mk.cc))
  }

  function ChildStep2(pr: Primitives, mk: MasterKey2, index: int): MasterKey2
    requires 2 <= pr.q
  {
    var (fl, fr) := Factors(pr, mk.cc, mk.pub, index);
    mk.(pub := pr.Times(fl, mk.pub), p2 := pr.Times(fl, mk.p2), x2 := (fl * mk.x2) % pr.q,
        cc := pr.Times(fr, mk.cc))
  }

  function GetChild1(pr: Primitives, mk: MasterKey1, path: seq<int>): MasterKey1
    requires 2 <= pr.q
    decreases |path|
  {
    if path == [] then mk else GetChild1(pr, ChildStep1(pr, mk, path[0]), path[1..])
  }

  function GetChild2(pr: Primitives, mk: MasterKey2, path: seq<int>): MasterKey2
    requires 2 <= pr.q
    decreases |path|
  {
    if path == [] then mk else GetChild2(pr, ChildStep2(pr, mk, path[0]), path[1..])
  }

  datatype PrivateShare = PrivateShare(id: string, masterKey: MasterKey2) {
    function GetChild(pr: Primitives, path: seq<int>): PrivateShare
      requires 2 <= pr.q
    {
      PrivateShare(id, GetChild2(pr, masterKey, path))
    }
  }

  lemma ScaleProduct(pr: Primitives, f: int, a: int, b: int)
    requires 2 <= pr.q
    ensures pr.Times(f, pr.Times(a * b, pr.G)) == pr.Times(a * ((f * b) % pr.q), pr.G)
  {
    var q := pr.q;
    ModCong(a * b * pr.G, q);
    CongMul(f, f, pr.Times(a * b, pr.G), a * b, q);
    ModCong(f * b, q);
    CongMul(a, a, (f * b) % q, f * b, q);
    assert f * (a * b) == a * (f * b);
  }

  lemma ChildStepMatches(pr: Primitives, mk1: MasterKey1, mk2: MasterKey2, index: int)
    requires Matches(pr, mk1, mk2)
    ensures Matches(pr, ChildStep1(pr, mk1, index), ChildStep2(pr, mk2, index))
  {
    var fl := Factors(pr, mk1.cc, mk1.pub, index).0;
    ScaleProduct(pr, fl, mk1.x1, mk2.x2);
    ScaleProduct(pr, fl, 1, mk2.x2);
    ModCong(fl * mk2.x2, pr.q);
  }

  /** Derivation along any path keeps the two keys matching, and leaves the server's share, its
      Paillier key and the encrypted share as they were. */
  lemma {:induction false} DerivationMatches(pr: Primitives, mk1: MasterKey1, mk2: MasterKey2, path: seq<int>)
    requires Matches(pr, mk1, mk2)
    ensures Matches(pr, GetChild1(pr, mk1, path), GetChild2(pr, mk2, path))
    ensures GetChild1(pr, mk1, path).x1 == mk1.x1 && GetChild1(pr, mk1, path).paillier == mk1.paillier
    ensures GetChild2(pr, mk2, path).cKey == mk2.cKey && GetChild2(pr, mk2, path).p1 == mk2.p1
    decreases |path|
  {
    if path != [] {
      ChildStepMatches(pr, mk1, mk2, path[0]);
      DerivationMatches(pr, ChildStep1(pr, mk1, path[0]), ChildStep2(pr, mk2, path[0]), path[1..]);
    }
  }

  /** Deriving along one path and then another is deriving along their concatenation; the
      session id stays that of the master share. */
  lemma {:induction false} DerivationComposes(pr: Primitives, share: PrivateShare, path: seq<int>, rest: seq<int>)
    requires 2 <= pr.q
    ensures share.GetChild(pr, path).GetChild(pr, rest) == share.GetChild(pr, path + rest)
    ensures share.GetChild(pr, path).id == share.id
    decreases |path|
  {
    if path == [] {
      assert path + rest == rest;
    } else {
      var next := PrivateShare(share.id, ChildStep2(pr, share.masterKey, path[0]));
      DerivationComposes(pr, next, path[1..], rest);
      assert (path + rest)[1..] == path[1..] + rest;
    }
  }

  /** One derivation step, on both sides: the left half of the HMAC of chain code, public key and
      index scales the public points and the client's share, the right half the chain code. */
  lemma DerivationStep(pr: Primitives, mk1: MasterKey1, mk2: MasterKey2, index: int)
    requires 2 <= pr.q
    ensures var f := pr.hmac(mk1.cc, mk1.pub, index);
            GetChild1(pr, mk1, [index])
            == mk1.(pub := pr.Times(f.0 % pr.q, mk1.pub), p2 := pr.Times(f.0 % pr.q, mk1.p2), cc := pr.Times(f.1 % pr.q, mk1.cc))
    ensures var f := pr.hmac(mk2.cc, mk2.pub, index);
            GetChild2(pr, mk2, [index])
            == mk2.(pub := pr.Times(f.0 % pr.q, mk2.pub), p2 := pr.Times(f.0 % pr.q, mk2.p2), cc := pr.Times(f.1 % pr.q, mk2.cc),
                    x2 := (f.0 % pr.q * mk2.x2) % pr.q)
  {
    assert [index][1..] == [];
    assert GetChild1(pr, mk1, [index]) == GetChild1(pr, ChildStep1(pr, mk1, index), []);
    assert GetChild2(pr, mk2, [index]) == GetChild2(pr, ChildStep2(pr, mk2, index), []);
  }

  /** The product of all left factors along a path and the product of all right factors. */
  function PathFactors(pr: Primitives, cc: Point, pub: Point, path: seq<int>): (int, int)
    requires 2 <= pr.q
    decreases |path|
  {
    if path == [] then (1, 1)
    else
      var f := pr.hmac(cc, pub, path[0]);
      var (left, right) := PathFactors(pr, pr.Times(f.1 % pr.q, cc), pr.Times(f.0 % pr.q, pub), path[1..]);
      ((left * (f.0 % pr.q)) % pr.q, (right * (f.1 % pr.q)) % pr.q)
  }

  lemma ScaleTwice(q: int, a: int, b: int, x: int)
    requires 2 <= q
    ensures (a * ((b * x) % q)) % q == (((a * b) % q) * x) % q
  {
    ModCong(b * x, q);
    CongMul(a, a, (b * x) % q, b * x, q);
    ModCong(a * b, q);
    CongMul((a * b) % q, a * b, x, x, q);
    Regroup(a, b, x);
  }

  /** Deriving step by step is scaling once by the product of the path's factors: the client's share
      and both points by the left product, the chain code by the right one. */
  lemma {:induction false} DerivationScales(pr: Primitives, mk: MasterKey2, path: seq<int>)
    requires 2 <= pr.q && path != []
    ensures var (left, right) := PathFactors(pr, mk.cc, mk.pub, path);
            GetChild2(pr, mk, path)
            == mk.(pub := pr.Times(left, mk.pub), p2 := pr.Times(left, mk.p2), x2 := (left * mk.x2) % pr.q,
                   cc := pr.Times(right, mk.cc))
    decreases |path|
  {
    var (q, next) := (pr.q, ChildStep2(pr, mk, path[0]));
    var (fl, fr) := Factors(pr, mk.cc, mk.pub, path[0]);
    if |path| == 1 {
      assert path[1..] == [];
      ModUnique(fl, q, 0, fl);
      ModUnique(fr, q, 0, fr);
      assert 1 * fl == fl && 1 * fr == fr;
    } else {
      DerivationScales(pr, next, path[1..]);
      var (left, right) := PathFactors(pr, next.cc, next.pub, path[1..]);
      ScaleTwice(q, left, fl, mk.pub);
      ScaleTwice(q, left, fl, mk.p2);
      ScaleTwice(q, left, fl, mk.x2);
      ScaleTwice(q, right, fr, mk.cc);
    }
  }

  /** The server's fold is the same scaling of its points and chain code, and leaves its share and
      its Paillier key alone. */
  lemma {:induction false} ServerDerivationScales(pr: Primitives, mk: MasterKey1, path: seq<int>)
    requires 2 <= pr.q && path != []
    ensures var (left, right) := PathFactors(pr, mk.cc, mk.pub, path);
            GetChild1(pr, mk, path)
            == mk.(pub := pr.Times(left, mk.pub), p2 := pr.Times(left, mk.p2), cc := pr.Times(right, mk.cc))
    decreases |path|
  {
    var (q, next) := (pr.q, ChildStep1(pr, mk, path[0]));
    var (fl, fr) := Factors(pr, mk.cc, mk.pub, path[0]);
    if |path| == 1 {
      assert path[1..] == [];
      ModUnique(fl, q, 0, fl);
      ModUnique(fr, q, 0, fr);
      assert 1 * fl == fl && 1 * fr == fr;
    } else {
      ServerDerivationScales(pr, next, path[1..]);
      var (left, right) := PathFactors(pr, next.cc, next.pub, path[1..]);
      ScaleTwice(q, left, fl, mk.pub);
      ScaleTwice(q, left, fl, mk.p2);
      ScaleTwice(q, right, fr, mk.cc);
    }
  }
}
