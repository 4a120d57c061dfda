/** Rotation of a wallet's master key, followed by the rebuilding of its address map. The server's
    side, and the Paillier key the client is told, come from ShareRotation.Rotate1. */
module Rotation {
  import opened NumberTheory
  import opened MasterKeys
  import opened ShareRotation
  import opened Chain
  import opened WalletSpec
  import opened BitcoinWallet

  /** The wallet after a rotation: new master key, same positions, map rebuilt from scratch. */
  function RotateWallet(env: Env, w: Wallet, rot: ShareRotation.Rotation, cKey: int): Wallet
    requires 2 <= env.pr.q
  {
    var share := PrivateShare(w.share.id, Rotate2(env.pr, w.share.masterKey, rot, cKey));
    Wallet(w.network, share, w.last, MapUpTo(env, w.network, share, w.last))
  }

  method RotateMasterKey(wallet: BitcoinWallet, server: MasterKey1, rot: ShareRotation.Rotation)
    returns (rotated: BitcoinWallet, rotatedServer: MasterKey1)
    requires wallet.Valid() && Matches(wallet.env.pr, server, wallet.privateShare.masterKey)
    requires GoodRotation(wallet.env.pr, rot) && 0 < rot.paillier.N()
    ensures fresh(rotated) && rotated.Valid() && rotated.env == wallet.env
    ensures rotatedServer == Rotate1(wallet.env.pr, server, rot)
    ensures rotated.Model() == RotateWallet(wallet.env, wallet.Model(), rot, rotatedServer.cKey)
    ensures Matches(wallet.env.pr, rotatedServer, rotated.privateShare.masterKey)
  {
    RotationMatches(wallet.env.pr, server, wallet.privateShare.masterKey, rot);
    rotatedServer := Rotate1(wallet.env.pr, server, rot);
    var masterKey := Rotate2(wallet.env.pr, wallet.privateShare.masterKey, rot, rotatedServer.cKey);
    var privateShare := PrivateShare(wallet.privateShare.id, masterKey);
    rotated := new BitcoinWallet.Unbuilt(wallet.env, wallet.network, privateShare, wallet.lastDerivedPos);
    rotated.Derived();
  }

  /** Rotation keeps every address at its position: at each one the rotated wallet's child is the
      rotated child of the old wallet, with the same public key. */
  lemma RotatedChild(env: Env, w: Wallet, rot: ShareRotation.Rotation, cKey: int, pos: nat)
    requires 2 <= env.pr.q
    ensures var share := RotateWallet(env, w, rot, cKey).share;
            && Child(env, share, pos) == Rotate2(env.pr, Child(env, w.share, pos), rot, cKey)
            && AddressAt(env, w.network, share, pos) == AddressAt(env, w.network, w.share, pos)
  {
    ClientRotationCommutes(env.pr, w.share.masterKey, rot, cKey, [0, pos]);
  }

  lemma {:induction false} RotatedMap(env: Env, w: Wallet, rot: ShareRotation.Rotation, cKey: int, last: nat)
    requires 2 <= env.pr.q
    ensures var m := MapUpTo(env, w.network, w.share, last);
            var m' := MapUpTo(env, w.network, RotateWallet(env, w, rot, cKey).share, last);
            && m'.Keys == m.Keys
            && forall a :: a in m ==> m'[a] == AddressDerivation(m[a].pos, Rotate2(env.pr, m[a].mk, rot, cKey))
  {
    hide AddressAt, Child;
    if last != 0 {
      RotatedMap(env, w, rot, cKey, last - 1);
      RotatedChild(env, w, rot, cKey, last);
    }
  }

  /** A rotated wallet is consistent, holds the same addresses at the same positions, each with the
      child of the rotated master key and the public key it had, and still matches the server. */
  lemma RotationPreservesWallet(env: Env, server: MasterKey1, w: Wallet, rot: ShareRotation.Rotation)
    requires Consistent(env, w) && Matches(env.pr, server, w.share.masterKey) && GoodRotation(env.pr, rot)
    ensures 0 < rot.paillier.N()
    ensures var server' := Rotate1(env.pr, server, rot);
            var w' := RotateWallet(env, w, rot, server'.cKey);
            && Consistent(env, w') && Matches(env.pr, server', w'.share.masterKey)
            && w'.network == w.network && w'.share.id == w.share.id && w'.last == w.last
            && server'.x1 == (rot.factor * server.x1) % env.pr.q
            && Cong(rot.factor * w'.share.masterKey.x2, w.share.masterKey.x2, env.pr.q)
            && w'.derivations.Keys == w.derivations.Keys
            && (forall a :: a in w.derivations ==>
                  && w'.derivations[a].pos == w.derivations[a].pos
                  && w'.derivations[a].mk == Child(env, w'.share, w.derivations[a].pos)
                  && w'.derivations[a].mk.pub == w.derivations[a].mk.pub)
            && (InjectiveDerivation(env, w.share) ==> InjectiveDerivation(env, w'.share))
            && Owned(env, w') == Owned(env, w)
  {
    RotationMatches(env.pr, server, w.share.masterKey, rot);
    var cKey := Rotate1(env.pr, server, rot).cKey;
    var w' := RotateWallet(env, w, rot, cKey);
    RotatedMap(env, w, rot, cKey, w.last);
    MapSound(env, w.network, w'.share, w.last);
    forall pos: nat
      ensures Child(env, w'.share, pos).pub == Child(env, w.share, pos).pub
      ensures AddressAt(env, w.network, w'.share, pos) == AddressAt(env, w.network, w.share, pos)
    {
      RotatedChild(env, w, rot, cKey, pos);
    }
    assert ScanList(env, w.network, w'.share, w.last) == ScanList(env, w.network, w.share, w.last);
  }
}
