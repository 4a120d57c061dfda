/** From the first key generation request to any later payment: the server's interleaved sessions
    produce the keys, and the wallet made of them lives through any run. */
module Lifecycle {
  import opened Common
  import opened MasterKeys
  import opened Selection
  import opened Ledger
  import opened Chain
  import opened WalletSpec
  import opened WalletRuns
  import PublicGotham
  import Sessions

  /** One session's key generation has been served in full, among any others, by an empty server. */
  ghost predicate Generated(env: Env, ids: iset<PublicGotham.DbIndex>, requests: seq<Sessions.Event>, index: PublicGotham.DbIndex) {
    && env.Valid() && Sessions.Separate(ids) && index in ids && |Sessions.Only(requests, index)| >= 6
    && (Sessions.EmptySystemValid(env.pr, ids);
        Sessions.AllowedRun(env.pr, ids, Sessions.System(map[], map[]), requests))
  }

  /** The server's and the client's key of a generated session. */
  ghost function Keys(env: Env, ids: iset<PublicGotham.DbIndex>, requests: seq<Sessions.Event>, index: PublicGotham.DbIndex)
    : (MasterKey1, MasterKey2)
    requires Generated(env, ids, requests, index)
    ensures Matches(env.pr, Keys(env, ids, requests, index).0, Keys(env, ids, requests, index).1)
    ensures |Sessions.Draws(requests, index)| >= 6
    ensures var (own, keys) := (Sessions.Draws(requests, index), Keys(env, ids, requests, index));
            && keys.0.x1 == own[0].server && keys.1.x2 == own[1].client
            && keys.1.pub == (own[0].server * own[1].client) % env.pr.q
            && keys.1.cc == (own[4].server * own[5].client) % env.pr.q
  {
    hide Sessions.Run, Sessions.AllowedRun, Sessions.Only, Sessions.TablesOf, Sessions.ClientOf, Matches, Sessions.Draws;
    Sessions.OwnDraws(requests, index);
    Sessions.SessionsComplete(env.pr, ids, requests, index);
    Sessions.SessionTranscript(env.pr, ids, requests, index);
    var end := Sessions.Run(env.pr, ids, Sessions.System(map[], map[]), requests);
    (Sessions.TablesOf(end.db, index).master.value.mk1, Sessions.ClientOf(end, index).mk2)
  }

  /** A new wallet around a generated session's keys. */
  ghost function NewWorld(env: Env, ids: iset<PublicGotham.DbIndex>, requests: seq<Sessions.Event>, index: PublicGotham.DbIndex,
                          network: string, ledger: seq<Coin>): World
    requires Generated(env, ids, requests, index)
  {
    var (server, client) := Keys(env, ids, requests, index);
    World(Wallet(network, PrivateShare(index.id, client), 0, map[]), server, ledger)
  }

  lemma StartsInvariant(env: Env, ids: iset<PublicGotham.DbIndex>, requests: seq<Sessions.Event>, index: PublicGotham.DbIndex,
                        network: string, ledger: seq<Coin>)
    requires Generated(env, ids, requests, index) && WellFormed(ledger)
    requires var share := NewWorld(env, ids, requests, index, network, ledger).w.share;
             && InjectiveDerivation(env, share)
             && forall i, p: nat :: 0 <= i < |ledger| && p < U32_LIMIT ==>
                  ledger[i].unspent.address != AddressAt(env, network, share, p)
    ensures Invariant(env, NewWorld(env, ids, requests, index, network, ledger))
  {
    hide Keys, Invariant, InjectiveDerivation, WellFormed, AddressAt;
    var start := NewWorld(env, ids, requests, index, network, ledger);
    NewWalletStarts(env, network, start.w.share, start.server, ledger);
  }

  /** Whatever other sessions the server was serving in between, the keys it generated with one
      client, whose shares are the ones the two drew in that session, make a wallet from which, after any run of its life, a request is paid exactly under
      the stated conditions, and every payment that goes out is sound. */
  lemma KeygenToPayment(env: Env, ids: iset<PublicGotham.DbIndex>, requests: seq<Sessions.Event>, index: PublicGotham.DbIndex,
                        network: string, ledger: seq<Coin>, events: seq<Event>, to: string, amount: Amount, nonces: Nonces)
    requires Generated(env, ids, requests, index) && WellFormed(ledger)
    requires var start := NewWorld(env, ids, requests, index, network, ledger);
             && InjectiveDerivation(env, start.w.share)
             && (forall i, p: nat :: 0 <= i < |ledger| && p < U32_LIMIT ==>
                   ledger[i].unspent.address != AddressAt(env, network, start.w.share, p))
             && AllowedRun(env, start, events)
             && Allowed(env, Run(env, start, events), Pay(to, amount, nonces))
    ensures var start := NewWorld(env, ids, requests, index, network, ledger);
            var world := Run(env, start, events);
            && |Sessions.Draws(requests, index)| >= 6
            && start.server.x1 == Sessions.Draws(requests, index)[0].server
            && start.w.share == PrivateShare(index.id, start.w.share.masterKey)
            && start.w.share.masterKey.x2 == Sessions.Draws(requests, index)[1].client
            && Invariant(env, start) && Invariant(env, world) && PaidExactlyWhen(env, world, to, amount, nonces)
            && (Send(env, world.server, world.w, world.ledger, to, amount, nonces).2.Sent? ==>
                  PaidSoundly(env, start.w, world, to, amount, nonces))
  {
    var start := NewWorld(env, ids, requests, index, network, ledger);
    StartsInvariant(env, ids, requests, index, network, ledger);
    AnyPayment(env, start, events, to, amount, nonces);
  }
}
