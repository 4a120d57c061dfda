/** Rotation of the two secret shares, and every interleaving of rotations and derivations. */
module ShareRotation {
  import opened NumberTheory
  import opened Ecdsa
  import opened Paillier
  import opened MasterKeys
  import opened TwoPartySigning

  /** One rotation: the coin-flipped factor, the server's new Paillier key and its randomness. */
  datatype Rotation = Rotation(factor: int, paillier: DecryptionKey, blind: int)

  ghost predicate GoodRotation(pr: Primitives, rot: Rotation) {
    0 < rot.factor < pr.q && WideKey(pr, rot.paillier) && rot.paillier.Unit(rot.blind)
  }

  function Rotate1(pr: Primitives, mk: MasterKey1, rot: Rotation): MasterKey1
    requires 2 <= pr.q && 0 < rot.paillier.N()
  {
    var x1 := (rot.factor * mk.x1) % pr.q;
    mk.(x1 := x1, p1 := pr.Times(rot.factor, mk.p1), p2 := pr.Times(Inverse(rot.factor, pr.q), mk.p2),
        paillier := rot.paillier, cKey := Encrypt(rot.paillier.N(), x1, rot.blind))
  }

  function Rotate2(pr: Primitives, mk: MasterKey2, rot: Rotation, cKey: int): MasterKey2
    requires 2 <= pr.q
  {
    var inverse := Inverse(rot.factor, pr.q);
    mk.(x2 := (inverse * mk.x2) % pr.q, p1 := pr.Times(rot.factor, mk.p1), p2 := pr.Times(inverse, mk.p2),
        n := rot.paillier.N(), cKey := cKey)
  }

  lemma RotatedProduct(q: int, f: int, a: int, b: int)
    requires IsPrime(q) && 0 < f < q
    ensures (((f * a) % q) * ((Inverse(f, q) * b) % q)) % q == (a * b) % q
  {
    var g := Inverse(f, q);
    ModUnique(f, q, 0, f);
    InverseCorrect(f, q);
    ModCong(f * a, q);
    ModCong(g * b, q);
    CongMul((f * a) % q, f * a, (g * b) % q, g * b, q);
    Shuffle(f, a, g, b);
    CongMul(f * g, 1, a * b, a * b, q);
  }

  /** Rotation re-randomises both shares and the Paillier key; the keys still match and the joint
      public key and chain code are unchanged. */
  lemma RotationMatches(pr: Primitives, mk1: MasterKey1, mk2: MasterKey2, rot: Rotation)
    requires Matches(pr, mk1, mk2) && GoodRotation(pr, rot)
    ensures 0 < rot.paillier.N()
    ensures var mk1' := Rotate1(pr, mk1, rot);
            var mk2' := Rotate2(pr, mk2, rot, mk1'.cKey);
            && Matches(pr, mk1', mk2') && mk2'.pub == mk2.pub && mk2'.cc == mk2.cc
            && Decrypt(rot.paillier, mk2'.cKey) == (rot.factor * mk1.x1) % pr.q
            && Cong(rot.factor * mk2'.x2, mk2.x2, pr.q)
            && mk1'.x1 == (rot.factor * mk1.x1) % pr.q && mk1'.paillier == rot.paillier
            && EncryptsWith(rot.paillier, mk1'.cKey, mk1'.x1, rot.blind)
  {
    KeyBounds(rot.paillier);
    EncryptEncrypts(rot.paillier, (rot.factor * mk1.x1) % pr.q, rot.blind);
    RotatedMatches(pr, mk1, mk2, rot);
    ServerShareDecrypts(pr, Rotate1(pr, mk1, rot), Rotate2(pr, mk2, rot, Rotate1(pr, mk1, rot).cKey));
    UndoneByFactor(pr.q, rot.factor, mk2.x2);
  }

  lemma UndoneByFactor(q: int, f: int, x: int)
    requires IsPrime(q) && 0 < f < q
    ensures Cong(f * ((Inverse(f, q) * x) % q), x, q)
  {
    var g := Inverse(f, q);
    ModUnique(f, q, 0, f);
    InverseCorrect(f, q);
    ModCong(g * x, q);
    CongMul(f, f, (g * x) % q, g * x, q);
    Regroup(f, g, x);
    CongMul(f * g, 1, x, x, q);
  }

  lemma RotatedMatches(pr: Primitives, mk1: MasterKey1, mk2: MasterKey2, rot: Rotation)
    requires Matches(pr, mk1, mk2) && GoodRotation(pr, rot) && 0 < rot.paillier.N()
    ensures var mk1' := Rotate1(pr, mk1, rot);
            Matches(pr, mk1', Rotate2(pr, mk2, rot, mk1'.cKey))
  {
    var q, g := pr.q, Inverse(rot.factor, pr.q);
    RotatedProduct(q, rot.factor, mk1.x1, mk2.x2);
    EncryptEncrypts(rot.paillier, (rot.factor * mk1.x1) % q, rot.blind);
    ScaleProduct(pr, rot.factor, 1, mk1.x1);
    ScaleProduct(pr, g, 1, mk2.x2);
    ModCong(rot.factor * mk1.x1, q);
    ModCong(g * mk2.x2, q);
  }

  lemma OneFactor(q: int, f: int, x: int)
    requires IsPrime(q) && 0 < f < q && 0 < x < q
    ensures (f * x) % q == x <==> f == 1
  {
    ModUnique(x, q, 0, x);
    if (f * x) % q == x {
      assert x * f == f * x && x * 1 == x;
      Cancel(q, x, f, 1);
      ModUnique(f, q, 0, f);
      ModUnique(1, q, 0, 1);
    } else {
      assert f == 1 ==> f * x == x;
    }
  }

  /** An old share and a rotated one no longer make up the key: their product is the private key of
      the joint public key only for the rotation that changes nothing. */
  lemma MixedSharesUseless(pr: Primitives, mk1: MasterKey1, mk2: MasterKey2, rot: Rotation)
    requires Matches(pr, mk1, mk2) && GoodRotation(pr, rot) && mk2.pub != 0 && 0 < rot.paillier.N()
    ensures pr.Times(Rotate1(pr, mk1, rot).x1 * mk2.x2, pr.G) == mk2.pub <==> rot.factor == 1
    ensures pr.Times(mk1.x1 * Rotate2(pr, mk2, rot, 0).x2, pr.G) == mk2.pub <==> rot.factor == 1
  {
    var (q, f, g) := (pr.q, rot.factor, Inverse(rot.factor, pr.q));
    ModUnique(f, q, 0, f);
    InverseCorrect(f, q);
    InverseOfOne(q, f);
    assert mk1.x1 * mk2.x2 == mk2.x2 * mk1.x1;
    ScaledShare(pr, f, mk2.x2, mk1.x1);
    ScaledShare(pr, g, mk1.x1, mk2.x2);
    assert mk2.x2 * Rotate1(pr, mk1, rot).x1 == Rotate1(pr, mk1, rot).x1 * mk2.x2;
  }

  lemma ScaledShare(pr: Primitives, f: int, a: int, b: int)
    requires IsPrime(pr.q) && 0 < f < pr.q && pr.Times(a * b, pr.G) != 0
    ensures pr.Times(a * ((f * b) % pr.q), pr.G) == pr.Times(a * b, pr.G) <==> f == 1
  {
    ScaleProduct(pr, f, a, b);
    ModCong(a * b * pr.G, pr.q);
    OneFactor(pr.q, f, pr.Times(a * b, pr.G));
  }

  lemma InverseOfOne(q: int, f: int)
    requires IsPrime(q) && 0 < f < q
    ensures Inverse(f, q) == 1 <==> f == 1
  {
    var g := Inverse(f, q);
    ModUnique(f, q, 0, f);
    ModUnique(1, q, 0, 1);
    InverseCorrect(f, q);
    ModUnique(g, q, 0, g);
    assert g == 1 ==> f * g == f;
    assert f == 1 ==> f * g == g;
  }

  lemma SwapFactors(q: int, f: int, g: int, x: int)
    requires 2 <= q
    ensures (f * ((g * x) % q)) % q == (g * ((f * x) % q)) % q
  {
    ModCong(g * x, q);
    CongMul(f, f, (g * x) % q, g * x, q);
    ModCong(f * x, q);
    CongMul(g, g, (f * x) % q, f * x, q);
    assert f * (g * x) == g * (f * x);
  }

  lemma {:induction false} ServerRotationCommutes(pr: Primitives, mk: MasterKey1, rot: Rotation, path: seq<int>)
    requires 2 <= pr.q && 0 < rot.paillier.N()
    ensures GetChild1(pr, Rotate1(pr, mk, rot), path) == Rotate1(pr, GetChild1(pr, mk, path), rot)
    decreases |path|
  {
    hide Encrypt, Inverse;
    if path != [] {
      SwapFactors(pr.q, Factors(pr, mk.cc, mk.pub, path[0]).0, Inverse(rot.factor, pr.q), mk.p2);
      assert ChildStep1(pr, Rotate1(pr, mk, rot), path[0]) == Rotate1(pr, ChildStep1(pr, mk, path[0]), rot);
      ServerRotationCommutes(pr, ChildStep1(pr, mk, path[0]), rot, path[1..]);
    }
  }

  lemma {:induction false} ClientRotationCommutes(pr: Primitives, mk: MasterKey2, rot: Rotation, cKey: int, path: seq<int>)
    requires 2 <= pr.q
    ensures GetChild2(pr, Rotate2(pr, mk, rot, cKey), path) == Rotate2(pr, GetChild2(pr, mk, path), rot, cKey)
    decreases |path|
  {
    if path != [] {
      var fl := Factors(pr, mk.cc, mk.pub, path[0]).0;
      SwapFactors(pr.q, fl, Inverse(rot.factor, pr.q), mk.x2);
      SwapFactors(pr.q, fl, Inverse(rot.factor, pr.q), mk.p2);
      assert ChildStep2(pr, Rotate2(pr, mk, rot, cKey), path[0]) == Rotate2(pr, ChildStep2(pr, mk, path[0]), rot, cKey);
      ClientRotationCommutes(pr, ChildStep2(pr, mk, path[0]), rot, cKey, path[1..]);
    }
  }

  /** Rotating before or after deriving gives both parties the very same keys, ciphertext included. */
  lemma RotationCommutes(pr: Primitives, mk1: MasterKey1, mk2: MasterKey2, rot: Rotation, path: seq<int>)
    requires 2 <= pr.q && 0 < rot.paillier.N()
    ensures var (rotated, child) := (Rotate1(pr, mk1, rot), GetChild1(pr, mk1, path));
            && GetChild1(pr, rotated, path) == Rotate1(pr, child, rot)
            && GetChild2(pr, Rotate2(pr, mk2, rot, rotated.cKey), path)
               == Rotate2(pr, GetChild2(pr, mk2, path), rot, Rotate1(pr, child, rot).cKey)
  {
    hide Rotate2, Encrypt;
    ServerRotationCommutes(pr, mk1, rot, path);
    ClientRotationCommutes(pr, mk2, rot, Rotate1(pr, mk1, rot).cKey, path);
    SameServerShare(pr, mk1, path);
  }

  lemma {:induction false} SameServerShare(pr: Primitives, mk: MasterKey1, path: seq<int>)
    requires 2 <= pr.q
    ensures GetChild1(pr, mk, path).x1 == mk.x1
    decreases |path|
  {
    if path != [] { SameServerShare(pr, ChildStep1(pr, mk, path[0]), path[1..]); }
  }

  // ---------- any interleaving of rotations and derivations ----------

  datatype KeyOp = Rotating(rot: Rotation) | Deriving(path: seq<int>)

  ghost predicate GoodOp(pr: Primitives, op: KeyOp) {
    op.Rotating? ==> GoodRotation(pr, op.rot)
  }

  ghost predicate GoodOps(pr: Primitives, ops: seq<KeyOp>) {
    forall op :: op in ops ==> GoodOp(pr, op)
  }

  ghost function Apply(pr: Primitives, keys: (MasterKey1, MasterKey2), op: KeyOp): (MasterKey1, MasterKey2)
    requires pr.Valid() && GoodOp(pr, op)
  {
    match op
    case Rotating(rot) =>
      KeyBounds(rot.paillier);
      var mk1 := Rotate1(pr, keys.0, rot);
      (mk1, Rotate2(pr, keys.1, rot, mk1.cKey))
    case Deriving(path) => (GetChild1(pr, keys.0, path), GetChild2(pr, keys.1, path))
  }

  ghost function ApplyAll(pr: Primitives, keys: (MasterKey1, MasterKey2), ops: seq<KeyOp>): (MasterKey1, MasterKey2)
    requires pr.Valid() && GoodOps(pr, ops)
    decreases |ops|
  {
    if ops == [] then keys else ApplyAll(pr, Apply(pr, keys, ops[0]), ops[1..])
  }

  /** The derivations of a history, rotations dropped. */
  function PathOf(ops: seq<KeyOp>): seq<int> {
    if ops == [] then [] else (if ops[0].Deriving? then ops[0].path else []) + PathOf(ops[1..])
  }

  /** The public key and chain code of a descendant depend only on those of its ancestor. */
  lemma {:induction false} SamePublicChild(pr: Primitives, a: MasterKey2, b: MasterKey2, path: seq<int>)
    requires 2 <= pr.q && a.pub == b.pub && a.cc == b.cc
    ensures GetChild2(pr, a, path).pub == GetChild2(pr, b, path).pub
    ensures GetChild2(pr, a, path).cc == GetChild2(pr, b, path).cc
    decreases |path|
  {
    if path != [] {
      SamePublicChild(pr, ChildStep2(pr, a, path[0]), ChildStep2(pr, b, path[0]), path[1..]);
    }
  }

  lemma ApplyMatches(pr: Primitives, mk1: MasterKey1, mk2: MasterKey2, op: KeyOp)
    requires Matches(pr, mk1, mk2) && GoodOp(pr, op)
    ensures Matches(pr, Apply(pr, (mk1, mk2), op).0, Apply(pr, (mk1, mk2), op).1)
  {
    match op
    case Rotating(rot) => RotationMatches(pr, mk1, mk2, rot);
    case Deriving(path) => DerivationMatches(pr, mk1, mk2, path);
  }

  lemma ApplyPublicChild(pr: Primitives, keys: (MasterKey1, MasterKey2), op: KeyOp, path: seq<int>)
    requires pr.Valid() && GoodOp(pr, op)
    ensures var own := if op.Deriving? then op.path else [];
            var child := GetChild2(pr, Apply(pr, keys, op).1, path);
            var plain := GetChild2(pr, keys.1, own + path);
            child.pub == plain.pub && child.cc == plain.cc
  {
    match op
    case Rotating(rot) =>
      assert [] + path == path;
      SamePublicChild(pr, Apply(pr, keys, op).1, keys.1, path);
    case Deriving(first) =>
      DerivationComposes(pr, PrivateShare("", keys.1), first, path);
  }

  /** After any interleaving of rotations and derivations the keys still match, and every further
      child has the public key and chain code it would have had without the rotations. */
  lemma {:induction false} RotationsInvisible(pr: Primitives, mk1: MasterKey1, mk2: MasterKey2, ops: seq<KeyOp>, path: seq<int>)
    requires Matches(pr, mk1, mk2) && GoodOps(pr, ops)
    ensures var (mk1', mk2') := ApplyAll(pr, (mk1, mk2), ops);
            && Matches(pr, mk1', mk2')
            && Decrypt(mk1'.paillier, mk2'.cKey) == mk1'.x1
            && GetChild2(pr, mk2', path).pub == GetChild2(pr, mk2, PathOf(ops) + path).pub
            && GetChild2(pr, mk2', path).cc == GetChild2(pr, mk2, PathOf(ops) + path).cc
    decreases |ops|
  {
    hide Apply, ApplyAll, PathOf, GetChild2;
    if ops == [] {
      ServerShareDecrypts(pr, mk1, mk2);
      EmptyHistory(pr, (mk1, mk2));
      assert [] + path == path;
    } else {
      ConsHistory(pr, (mk1, mk2), ops);
      var next := Apply(pr, (mk1, mk2), ops[0]);
      ApplyMatches(pr, mk1, mk2, ops[0]);
      RotationsInvisible(pr, next.0, next.1, ops[1..], path);
      var own := if ops[0].Deriving? then ops[0].path else [];
      ApplyPublicChild(pr, (mk1, mk2), ops[0], PathOf(ops[1..]) + path);
      assert own + (PathOf(ops[1..]) + path) == PathOf(ops) + path;
    }
  }

  lemma EmptyHistory(pr: Primitives, keys: (MasterKey1, MasterKey2))
    requires pr.Valid()
    ensures GoodOps(pr, []) && ApplyAll(pr, keys, []) == keys && PathOf([]) == []
  {
  }

  lemma ConsHistory(pr: Primitives, keys: (MasterKey1, MasterKey2), ops: seq<KeyOp>)
    requires pr.Valid() && ops != [] && GoodOps(pr, ops)
    ensures GoodOp(pr, ops[0]) && GoodOps(pr, ops[1..])
    ensures ApplyAll(pr, keys, ops) == ApplyAll(pr, Apply(pr, keys, ops[0]), ops[1..])
    ensures PathOf(ops) == (if ops[0].Deriving? then ops[0].path else []) + PathOf(ops[1..])
  {
    assert ops[0] in ops;
  }

  /** After any history of rotations and derivations, signing under any child still produces a
      signature that verifies under that child's public key, whenever r and s are nonzero. */
  lemma SigningSurvives(pr: Primitives, mk1: MasterKey1, mk2: MasterKey2, ops: seq<KeyOp>, path: seq<int>,
                        k1: int, eph: ClientNonce, e: int)
    requires Matches(pr, mk1, mk2) && GoodOps(pr, ops)
    requires GoodNonces(pr, ApplyAll(pr, (mk1, mk2), ops).0.paillier, k1, eph)
    ensures var (mk1', mk2') := ApplyAll(pr, (mk1, mk2), ops);
            var (child1, child2) := (GetChild1(pr, mk1', path), GetChild2(pr, mk2', path));
            && 2 <= child1.paillier.p && 2 <= child1.paillier.q && 0 < child2.n
            && Sign(pr, child1, child2, k1, eph, e) == EcdsaSign(pr, child2.pub, (k1 * eph.k2) % pr.q, e)
            && (Sign(pr, child1, child2, k1, eph, e).Some? ==>
                  var sig := Sign(pr, child1, child2, k1, eph, e).value;
                  pr.Verify(GetChild2(pr, mk2, PathOf(ops) + path).pub, e, sig.r, sig.s))
  {
    RotationsInvisible(pr, mk1, mk2, ops, path);
    var (mk1', mk2') := ApplyAll(pr, (mk1, mk2), ops);
    DerivationMatches(pr, mk1', mk2', path);
    SignedChildVerifies(pr, GetChild1(pr, mk1', path), GetChild2(pr, mk2', path), k1, eph, e);
  }
}
