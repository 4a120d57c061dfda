/** What whole runs do to the wallet's balance, its positions and the two secret shares. */
module Accounting {
  import opened Common
  import opened NumberTheory
  import opened Ecdsa
  import opened Paillier
  import opened MasterKeys
  import opened ShareRotation
  import opened Selection
  import opened Ledger
  import opened Chain
  import opened WalletSpec
  import opened Rotation
  import opened WalletRuns

  /** What leaves the wallet with a payment: nothing when the recipient is an address it watches or
      the one it issues next. */
  ghost function PaidAway(env: Env, w: Wallet, to: string, amount: Amount): int
    requires 2 <= env.pr.q
  {
    if to in Owned(env, w) || to == ChangeAddress(env, w) then 0 else 0 - amount.satoshi
  }

  /** What an event brings into the wallet or takes out of it. */
  ghost function Flow(env: Env, world: World, event: Event): int
    requires 2 <= env.pr.q && Allowed(env, world, event)
  {
    match event
    case NewAddress => 0
    case Pay(to, amount, nonces) =>
      if Send(env, world.server, world.w, world.ledger, to, amount, nonces).2.Sent?
      then PaidAway(env, world.w, to, amount) else 0
    case Rotate(_) => 0
    case Receive(_, outputs) => PaidTo(outputs, Owned(env, world.w))
    case Block => 0
  }

  /** How many positions an event issues. */
  ghost function Issues(env: Env, world: World, event: Event): nat
    requires 2 <= env.pr.q && Allowed(env, world, event)
  {
    match event
    case NewAddress => 1
    case Pay(to, amount, nonces) =>
      if Send(env, world.server, world.w, world.ledger, to, amount, nonces).2.Sent? then 1 else 0
    case Rotate(_) => 0
    case Receive(_, _) => 0
    case Block => 0
  }

  /** The factor an event rotates the shares by. */
  function FactorOf(event: Event): int {
    if event.Rotate? then event.rot.factor else 1
  }

  datatype Account = Account(flow: int, issued: nat, factor: int)

  ghost function AccountOf(env: Env, world: World, events: seq<Event>): Account
    requires 2 <= env.pr.q && AllowedRun(env, world, events)
    decreases |events|
  {
    if events == [] then Account(0, 0, 1)
    else
      var rest := AccountOf(env, Next(env, world, events[0]), events[1..]);
      Account(Flow(env, world, events[0]) + rest.flow, Issues(env, world, events[0]) + rest.issued,
              rest.factor * FactorOf(events[0]))
  }

  ghost predicate Accounted(env: Env, world: World, next: World, account: Account)
    requires 2 <= env.pr.q
  {
    && Total(next.ledger, Owned(env, next.w)) == Total(world.ledger, Owned(env, world.w)) + account.flow
    && next.w.last == world.w.last + account.issued
    && Cong(next.server.x1, account.factor * world.server.x1, env.pr.q)
    && Cong(account.factor * next.w.share.masterKey.x2, world.w.share.masterKey.x2, env.pr.q)
  }

  lemma NewAddressAccounted(env: Env, world: World)
    requires Invariant(env, world) && Allowed(env, world, NewAddress)
    ensures Accounted(env, world, Next(env, world, NewAddress), Account(0, 1, 1))
  {
    hide AddressAt, Child, GetChild2, FundsIssued, Owned, MapUpTo, InjectiveDerivation, Total, Matches, WellFormed;
    OwnedAdvance(env, world.w);
    AdvanceExact(env, world.w);
    var change := ChangeAddress(env, world.w);
    ChangeUnused(env, world.w, world.ledger);
    DisjointTotal(world.ledger, Owned(env, world.w), {change});
  }

  lemma PayAccounted(env: Env, world: World, to: string, amount: Amount, nonces: Nonces)
    requires Invariant(env, world) && Allowed(env, world, Pay(to, amount, nonces))
    ensures var event := Pay(to, amount, nonces);
            Accounted(env, world, Next(env, world, event), Account(Flow(env, world, event), Issues(env, world, event), 1))
  {
    hide AddressAt, Child, IssuedOnly, Owned, MapUpTo, InjectiveDerivation, Total, Chosen, SignedTransaction, Broadcast, FundsIssued;
    if Send(env, world.server, world.w, world.ledger, to, amount, nonces).2.Sent? {
      PaidBalance(env, world, to, amount, nonces);
      OwnedAdvance(env, world.w);
      AdvanceExact(env, world.w);
    }
  }

  lemma RotateAccounted(env: Env, world: World, rot: ShareRotation.Rotation)
    requires Invariant(env, world) && Allowed(env, world, Rotate(rot))
    ensures Accounted(env, world, Next(env, world, Rotate(rot)), Account(0, 0, rot.factor))
  {
    hide Rotate1, RotateWallet, Matches, Owned, Total, InjectiveDerivation, FundsIssued, MapUpTo;
    RotationPreservesWallet(env, world.server, world.w, rot);
    ModCong(rot.factor * world.server.x1, env.pr.q);
  }

  lemma ReceiveAccounted(env: Env, world: World, txid: string, outputs: seq<TxOut>)
    requires Invariant(env, world) && Allowed(env, world, Receive(txid, outputs))
    ensures Accounted(env, world, Next(env, world, Receive(txid, outputs)), Account(PaidTo(outputs, Owned(env, world.w)), 0, 1))
  {
    hide Owned, Total, IssuedOnly, InjectiveDerivation, NewCoins;
    AppendTotal(world.ledger, NewCoins(txid, outputs, 0), Owned(env, world.w));
    NewCoinsTotal(txid, outputs, 0, Owned(env, world.w));
  }

  lemma NextAccounted(env: Env, world: World, event: Event)
    requires Invariant(env, world) && Allowed(env, world, event)
    ensures Accounted(env, world, Next(env, world, event),
                      Account(Flow(env, world, event), Issues(env, world, event), FactorOf(event)))
  {
    hide Accounted, Invariant;
    match event
    case NewAddress => NewAddressAccounted(env, world);
    case Pay(to, amount, nonces) => PayAccounted(env, world, to, amount, nonces);
    case Rotate(rot) => RotateAccounted(env, world, rot);
    case Receive(txid, outputs) => ReceiveAccounted(env, world, txid, outputs);
    case Block => BlockAccounted(env, world);
  }

  lemma BlockAccounted(env: Env, world: World)
    requires Invariant(env, world)
    ensures Accounted(env, world, Next(env, world, Block), Account(0, 0, 1))
  {
    MineKeepsUnspent(world.ledger, Owned(env, world.w));
  }

  lemma FactorsMultiply(q: int, a: int, b: int, x: int, y: int, z: int, u: int, v: int, t: int)
    requires 2 <= q && Cong(y, a * x, q) && Cong(z, b * y, q) && Cong(a * v, u, q) && Cong(b * t, v, q)
    ensures Cong(z, (b * a) * x, q) && Cong((b * a) * t, u, q)
  {
    CongMul(b, b, y, a * x, q);
    Regroup(b, a, x);
    CongMul(a, a, b * t, v, q);
    Regroup(a, b, t);
    assert a * b == b * a;
  }

  /** The books of any run: the watched balance changes by exactly what was received at watched
      addresses less what was paid to outsiders, one position is issued for every address asked
      for and every payment made, and the shares are scaled by the product of the rotations'
      factors and by its inverse. */
  lemma {:induction false} RunAccounted(env: Env, world: World, events: seq<Event>)
    requires Invariant(env, world) && AllowedRun(env, world, events)
    ensures Accounted(env, world, Run(env, world, events), AccountOf(env, world, events))
    decreases |events|
  {
    hide Invariant, Allowed, Next, Flow, Issues, FactorOf, Owned, Total;
    InvariantConsistent(env, world);
    if events != [] {
      var next := Next(env, world, events[0]);
      var end := Run(env, world, events);
      NextAccounted(env, world, events[0]);
      NextKeeps(env, world, events[0]);
      RunAccounted(env, next, events[1..]);
      FactorsMultiply(env.pr.q, FactorOf(events[0]), AccountOf(env, next, events[1..]).factor,
                      world.server.x1, next.server.x1, end.server.x1,
                      world.w.share.masterKey.x2, next.w.share.masterKey.x2, end.w.share.masterKey.x2);
    }
  }

  /** A block settles every pending transaction, and nothing else moves a confirmed balance. */
  lemma BlocksConfirm(env: Env, world: World, event: Event, address: string)
    requires Invariant(env, world) && Allowed(env, world, event)
    ensures var after := Next(env, world, event).ledger;
            if event.Block? then Unconfirmed(after, address) == 0 && Confirmed(after, address) == Total(world.ledger, {address})
            else Confirmed(after, address) == Confirmed(world.ledger, address)
  {
    match event
    case NewAddress =>
    case Pay(to, amount, nonces) => PayKeepsConfirmed(env, world, to, amount, nonces, address);
    case Rotate(_) =>
    case Receive(txid, outputs) =>
      NewCoinsShape(txid, outputs, 0);
      ConfirmedFixed(world.ledger, world.ledger, NewCoins(txid, outputs, 0), address);
    case Block => MinedBalance(world.ledger, address);
  }

  lemma PayKeepsConfirmed(env: Env, world: World, to: string, amount: Amount, nonces: Nonces, address: string)
    requires Invariant(env, world) && Allowed(env, world, Pay(to, amount, nonces))
    ensures Confirmed(Next(env, world, Pay(to, amount, nonces)).ledger, address) == Confirmed(world.ledger, address)
  {
    hide SpendsRightly, PaysOut, Chosen, SignedTransaction, Broadcast, Confirmed, InjectiveDerivation, FundsIssued, Strip;
    if Send(env, world.server, world.w, world.ledger, to, amount, nonces).2.Sent? {
      PaidRightly(env, world, to, amount, nonces);
      var after := Send(env, world.server, world.w, world.ledger, to, amount, nonces).1;
      var tx :| Broadcast(env, world.w.network, world.ledger, tx) == Some(after);
      BroadcastKeepsConfirmed(env, world.w.network, world.ledger, tx, address);
    }
  }
}
