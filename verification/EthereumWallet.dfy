/** The Ethereum wallet: one child key of the master share, its address, and signatures from which
    that address can be recovered, with the chain id folded into v as EIP-155 prescribes. */
module EthereumWallet {
  import opened Common
  import opened NumberTheory
  import opened Ecdsa
  import opened Paillier
  import opened MasterKeys
  import opened TwoPartySigning
  import opened BigEndian

  /** A transaction: what is signed, and the chain id if one is set. */
  datatype TypedTransaction = TypedTransaction(payload: string, chainId: Option<nat>)

  /** The Keccak address of a public key and the signature hash stay uninterpreted. */
  datatype Env = Env(pr: Primitives, address: Point -> string, sighash: TypedTransaction -> nat)

  datatype EthSignature = EthSignature(r: int, s: int, v: int)

  function ChildPath(hdPath: seq<nat>): seq<int>
    requires |hdPath| >= 2
  {
    [hdPath[0], hdPath[1]]
  }

  /** The server holds the key matching the share and the randomness is in range. */
  ghost predicate ReadyToSign(env: Env, share: PrivateShare, server: MasterKey1, k1: int, eph: ClientNonce) {
    Matches(env.pr, server, share.masterKey) && GoodNonces(env.pr, server.paillier, k1, eph)
  }

  /** The textbook signature of a hash under the child key, the same numbers as u256 words. */
  function HashSignature(env: Env, share: PrivateShare, hdPath: seq<nat>, k1: int, eph: ClientNonce, hash: nat): Option<EthSignature>
    requires 2 <= env.pr.q && |hdPath| >= 2
  {
    match EcdsaSign(env.pr, GetChild2(env.pr, share.masterKey, ChildPath(hdPath)).pub, (k1 * eph.k2) % env.pr.q, hash)
    case Some(sig) => Some(EthSignature(sig.r, sig.s, sig.recid))
    case None => None
  }

  class GothamWallet {
    const env: Env
    const privateShare: PrivateShare
    const hdPath: seq<nat>
    const address: string
    var chainId: nat

    ghost predicate Valid()
      reads this
    {
      && env.pr.Valid() && |hdPath| >= 2 && chainId < U64_LIMIT
      && address == env.address(GetChild2(env.pr, privateShare.masterKey, ChildPath(hdPath)).pub)
    }

    constructor (env: Env, masterShare: PrivateShare, hdPath: seq<nat>, chainId: nat)
      requires env.pr.Valid() && |hdPath| >= 2 && chainId < U64_LIMIT
      ensures Valid() && this.env == env && this.privateShare == masterShare && this.hdPath == hdPath && this.chainId == chainId
      ensures address == env.address(GetChild2(env.pr, masterShare.masterKey, [hdPath[0], hdPath[1]]).pub)
    {
      var child := masterShare.GetChild(env.pr, [hdPath[0], hdPath[1]]);
      this.env, this.privateShare, this.hdPath, this.chainId := env, masterShare, hdPath, chainId;
      this.address := env.address(child.masterKey.pub);
    }

    method WithChainId(chainId: nat)
      requires Valid() && chainId < U64_LIMIT
      modifies this`chainId
      ensures Valid() && this.chainId == chainId
    {
      this.chainId := chainId;
    }

    /** Signs a hash together with the server; None where the source unwraps a refusal. */
    method SignHash(hash: nat, server: MasterKey1, k1: int, eph: ClientNonce) returns (signature: Option<EthSignature>)
      requires Valid() && ReadyToSign(env, privateShare, server, k1, eph)
      ensures signature == HashSignature(env, privateShare, hdPath, k1, eph, hash)
      ensures var key := GetChild2(env.pr, privateShare.masterKey, [hdPath[0], hdPath[1]]).pub;
              var k := (k1 * eph.k2) % env.pr.q;
              && address == env.address(key)
              && (forall r, s, v :: signature == Some(EthSignature(r, s, v)) <==>
                    env.pr.Signs(k, key, hash, r, s) && r != 0 && 0 < s < env.pr.q && v == env.pr.parity(k))
    {
      hide Matches, GoodNonces, Sign, EcdsaSign, Encrypts;
      var path := ChildPath(hdPath);
      var child := GetChild2(env.pr, privateShare.masterKey, path);
      DerivationMatches(env.pr, server, privateShare.masterKey, path);
      SigningReady(env, server, privateShare, path, k1, eph, hash);
      HashSignatureExact(env, privateShare, hdPath, server, k1, eph, hash);
      var signed := Sign(env.pr, GetChild1(env.pr, server, path), child, k1, eph, hash);
      match signed
      case None => signature := None;
      case Some(sig) =>
        RoundTrip(sig.r);
        RoundTrip(sig.s);
        signature := Some(EthSignature(FromBytes(ToVec(sig.r)), FromBytes(ToVec(sig.s)), sig.recid));
    }

    /** Signs a transaction: the chain id of the transaction, or else the wallet's, is set for the
        hash and folded into v, in u64 arithmetic. */
    method SignTransaction(tx: TypedTransaction, server: MasterKey1, k1: int, eph: ClientNonce) returns (signature: Option<EthSignature>)
      requires Valid() && ReadyToSign(env, privateShare, server, k1, eph)
      ensures var chain := if tx.chainId.Some? then tx.chainId.value else chainId;
              var plain := HashSignature(env, privateShare, hdPath, k1, eph, env.sighash(tx.(chainId := Some(chain))));
              signature == if plain.Some? then Some(plain.value.(v := FoldChainId(chain, plain.value.v))) else None
      ensures var chain := if tx.chainId.Some? then tx.chainId.value else chainId;
              signature.Some? ==>
                var key := GetChild2(env.pr, privateShare.masterKey, [hdPath[0], hdPath[1]]).pub;
                var x := env.pr.xcoord((k1 * eph.k2) % env.pr.q);
                && address == env.address(key)
                && signature.value.v == (chain * 2 + 35 + env.pr.parity((k1 * eph.k2) % env.pr.q)) % 0x1_0000_0000_0000_0000
                && (SenderRecovered(env, tx, chain, signature.value, key) <==>
                      chain * 2 + 35 + env.pr.parity((k1 * eph.k2) % env.pr.q) < 0x1_0000_0000_0000_0000 && x < env.pr.q)
    {
      hide HashSignature, ReadyToSign, SenderRecovered, GetChild2, Primitives.Signs;
      var txWithChain := tx;
      if txWithChain.chainId.None? {
        txWithChain := txWithChain.(chainId := Some(chainId));
      }
      var chain := txWithChain.chainId.value;
      var sighash := env.sighash(txWithChain);
      assert txWithChain == tx.(chainId := Some(chain));
      signature := SignHash(sighash, server, k1, eph);
      if signature.Some? {
        TransactionRecovers(env, privateShare, hdPath, server, k1, eph, tx, chain);
        RecoveryIdIsParity(env, privateShare, hdPath, k1, eph, sighash);
        FoldWraps(chain, signature.value.v);
        signature := Some(signature.value.(v := (((chain * 2) % U64_LIMIT + 35) % U64_LIMIT + signature.value.v) % U64_LIMIT));
      }
    }
  }

  lemma SigningReady(env: Env, server: MasterKey1, share: PrivateShare, path: seq<int>, k1: int, eph: ClientNonce, hash: nat)
    requires ReadyToSign(env, share, server, k1, eph)
    ensures var (child1, child2) := (GetChild1(env.pr, server, path), GetChild2(env.pr, share.masterKey, path));
            && 2 <= env.pr.q && 0 < child2.n && 0 <= eph.rho && 2 <= child1.paillier.p && 2 <= child1.paillier.q
            && Sign(env.pr, child1, child2, k1, eph, hash)
               == EcdsaSign(env.pr, child2.pub, (k1 * eph.k2) % env.pr.q, hash)
            && (Sign(env.pr, child1, child2, k1, eph, hash).Some? ==>
                  var sig := Sign(env.pr, child1, child2, k1, eph, hash).value;
                  0 < sig.r < env.pr.q && 0 < sig.s < env.pr.q && (sig.recid == 0 || sig.recid == 1))
  {
    DerivationMatches(env.pr, server, share.masterKey, path);
    var (child1, child2) := (GetChild1(env.pr, server, path), GetChild2(env.pr, share.masterKey, path));
    SignedChildVerifies(env.pr, child1, child2, k1, eph, hash);
    EphemeralNonzero(env.pr, k1, eph);
    EcdsaVerifies(env.pr, child2.pub, (k1 * eph.k2) % env.pr.q, hash);
    assert env.pr.Symmetric((k1 * eph.k2) % env.pr.q);
  }

  /** The signature is the solution of the signing equation for the child at the two path entries. */
  lemma HashSignatureExact(env: Env, share: PrivateShare, hdPath: seq<nat>, server: MasterKey1, k1: int, eph: ClientNonce, hash: nat)
    requires |hdPath| >= 2 && ReadyToSign(env, share, server, k1, eph)
    ensures var key := GetChild2(env.pr, share.masterKey, [hdPath[0], hdPath[1]]).pub;
            var k := (k1 * eph.k2) % env.pr.q;
            forall r, s, v :: HashSignature(env, share, hdPath, k1, eph, hash) == Some(EthSignature(r, s, v)) <==>
              env.pr.Signs(k, key, hash, r, s) && r != 0 && 0 < s < env.pr.q && v == env.pr.parity(k)
  {
    hide GetChild1, GetChild2, EcdsaSign, Primitives.Signs, Sign;
    var path := ChildPath(hdPath);
    DerivationMatches(env.pr, server, share.masterKey, path);
    EphemeralNonzero(env.pr, k1, eph);
    var (key, k) := (GetChild2(env.pr, share.masterKey, path).pub, (k1 * eph.k2) % env.pr.q);
    EcdsaSignExact(env.pr, key, k, hash);
    forall r, s, v
      ensures HashSignature(env, share, hdPath, k1, eph, hash) == Some(EthSignature(r, s, v)) <==>
                EcdsaSign(env.pr, key, k, hash) == Some(Signature(r, s, v))
    {
    }
  }

  lemma RecoveryIdIsParity(env: Env, share: PrivateShare, hdPath: seq<nat>, k1: int, eph: ClientNonce, hash: nat)
    requires 2 <= env.pr.q && |hdPath| >= 2
    requires HashSignature(env, share, hdPath, k1, eph, hash).Some?
    ensures HashSignature(env, share, hdPath, k1, eph, hash).value.v == env.pr.parity((k1 * eph.k2) % env.pr.q)
  {
    var k := (k1 * eph.k2) % env.pr.q;
    ModUnique(k, env.pr.q, 0, k);
    assert k * env.pr.G == k;
  }

  // ---------- recovery of the address ----------

  /** The key recovered from a signature of a hash is the wallet's child key, hence its address the
      one stored, exactly when the x coordinate of the ephemeral point lies below the group order;
      and so it is for the signature with s negated and the recovery id flipped. */
  lemma SignatureRecovers(env: Env, share: PrivateShare, hdPath: seq<nat>, server: MasterKey1, k1: int, eph: ClientNonce, hash: nat)
    requires |hdPath| >= 2 && ReadyToSign(env, share, server, k1, eph)
    requires HashSignature(env, share, hdPath, k1, eph, hash).Some?
    ensures var sig := HashSignature(env, share, hdPath, k1, eph, hash).value;
            var key := GetChild2(env.pr, share.masterKey, ChildPath(hdPath)).pub;
            var x := env.pr.xcoord((k1 * eph.k2) % env.pr.q);
            && (sig.v == 0 || sig.v == 1)
            && env.pr.Verify(key, hash, sig.r, sig.s)
            && (env.pr.Recover(hash, sig.r, sig.s, sig.v) == Some(key) <==> x < env.pr.q)
            && (env.pr.Recover(hash, sig.r, env.pr.q - sig.s, 1 - sig.v) == Some(key) <==> x < env.pr.q)
  {
    hide Encrypts, WideKey, Inverse, Sign;
    var path := ChildPath(hdPath);
    DerivationMatches(env.pr, server, share.masterKey, path);
    SigningReady(env, server, share, path, k1, eph, hash);
    RecoverySteps(env.pr, GetChild1(env.pr, server, path), GetChild2(env.pr, share.masterKey, path), k1, eph, hash);
  }

  lemma RecoverySteps(pr: Primitives, mk1: MasterKey1, mk2: MasterKey2, k1: int, eph: ClientNonce, hash: nat)
    requires Matches(pr, mk1, mk2) && 0 < k1 < pr.q && 0 < eph.k2 < pr.q
    requires EcdsaSign(pr, mk2.pub, (k1 * eph.k2) % pr.q, hash).Some?
    ensures var sig := EcdsaSign(pr, mk2.pub, (k1 * eph.k2) % pr.q, hash).value;
            var x := pr.xcoord((k1 * eph.k2) % pr.q);
            && pr.Verify(mk2.pub, hash, sig.r, sig.s)
            && (pr.Recover(hash, sig.r, sig.s, sig.recid) == Some(mk2.pub) <==> x < pr.q)
            && (pr.Recover(hash, sig.r, pr.q - sig.s, 1 - sig.recid) == Some(mk2.pub) <==> x < pr.q)
  {
    hide EcdsaSign, Encrypts, WideKey;
    var k := (k1 * eph.k2) % pr.q;
    var sig := EcdsaSign(pr, mk2.pub, k, hash).value;
    EphemeralNonzero(pr, k1, eph);
    EcdsaVerifies(pr, mk2.pub, k, hash);
    pr.RecoverIff(k, mk2.pub, hash, sig.r, sig.s);
    pr.NegatedRecoverIff(k, mk2.pub, hash, sig.r, sig.s);
  }

  // ---------- EIP-155 ----------

  function FoldChainId(chain: nat, recid: int): nat {
    (chain * 2 + 35 + recid) % U64_LIMIT
  }

  /** Wrapping after every operation is wrapping once. */
  lemma FoldWraps(chain: nat, recid: int)
    ensures (((chain * 2) % U64_LIMIT + 35) % U64_LIMIT + recid) % U64_LIMIT == FoldChainId(chain, recid)
  {
  }

  /** What a verifier reads out of v: chain id and recovery id. */
  function DecodeV(v: nat): Option<(nat, nat)> {
    if v < 35 then None else Some(((v - 35) / 2, (v - 35) % 2))
  }

  /** v decodes to the chain id and recovery id that went into it exactly when the u64 arithmetic
      did not overflow. */
  lemma Eip155Decodes(chain: nat, recid: nat)
    requires recid == 0 || recid == 1
    ensures DecodeV(FoldChainId(chain, recid)) == Some((chain, recid)) <==> chain * 2 + 35 + recid < U64_LIMIT
  {
    var raw := chain * 2 + 35 + recid;
    var k := raw / U64_LIMIT;
    assert raw == k * U64_LIMIT + FoldChainId(chain, recid);
  }

  /** v decodes to another chain id, or not at all, when the u64 arithmetic did overflow. */
  lemma OverflowChangesChain(chain: nat, recid: nat)
    requires (recid == 0 || recid == 1) && chain * 2 + 35 + recid >= U64_LIMIT
    ensures DecodeV(FoldChainId(chain, recid)).Some? ==> DecodeV(FoldChainId(chain, recid)).value.0 < chain
  {
    assert FoldChainId(chain, recid) <= chain * 2 + 35 + recid - U64_LIMIT;
  }

  /** What a verifier holding the transaction and its signature concludes: v names the chain, and
      the key recovered from the hash under that chain id is the signer's. */
  ghost predicate SenderRecovered(env: Env, tx: TypedTransaction, chain: nat, sig: EthSignature, key: Point)
    requires 2 <= env.pr.q
  {
    sig.v >= 0 &&
    match DecodeV(sig.v)
    case None => false
    case Some((named, recid)) =>
      named == chain && env.pr.Recover(env.sighash(tx.(chainId := Some(named))), sig.r, sig.s, recid) == Some(key)
  }

  /** A signed transaction names its chain and recovers to the key of the wallet's address exactly
      when the u64 arithmetic did not overflow and the x coordinate was not reduced. */
  lemma TransactionRecovers(env: Env, share: PrivateShare, hdPath: seq<nat>, server: MasterKey1, k1: int, eph: ClientNonce,
                            tx: TypedTransaction, chain: nat)
    requires |hdPath| >= 2 && ReadyToSign(env, share, server, k1, eph)
    requires HashSignature(env, share, hdPath, k1, eph, env.sighash(tx.(chainId := Some(chain)))).Some?
    ensures var plain := HashSignature(env, share, hdPath, k1, eph, env.sighash(tx.(chainId := Some(chain)))).value;
            var key := GetChild2(env.pr, share.masterKey, ChildPath(hdPath)).pub;
            SenderRecovered(env, tx, chain, plain.(v := FoldChainId(chain, plain.v)), key) <==>
              chain * 2 + 35 + plain.v < U64_LIMIT && env.pr.xcoord((k1 * eph.k2) % env.pr.q) < env.pr.q
  {
    hide HashSignature, Matches, GoodNonces, Primitives.Recover, FoldChainId, DecodeV;
    var hash := env.sighash(tx.(chainId := Some(chain)));
    SignatureRecovers(env, share, hdPath, server, k1, eph, hash);
    var v := HashSignature(env, share, hdPath, k1, eph, hash).value.v;
    Eip155Decodes(chain, v);
    if chain * 2 + 35 + v >= U64_LIMIT { OverflowChangesChain(chain, v); }
  }
}
