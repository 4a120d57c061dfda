/** Whole lives of a wallet: new addresses, payments, rotations, money received and blocks mined,
    in any order. Every state such a run reaches can pay from what it holds. */
module WalletRuns {
  import opened Common
  import opened Paillier
  import opened MasterKeys
  import opened ShareRotation
  import opened Selection
  import opened Ledger
  import opened Chain
  import opened WalletSpec
  import opened Rotation

  /** The saved wallet, the server's key for it, and the chain. */
  datatype World = World(w: Wallet, server: MasterKey1, ledger: seq<Coin>)

  datatype Event =
    | NewAddress
    | Pay(to: string, amount: Amount, nonces: Nonces)
    | Rotate(rot: ShareRotation.Rotation)
    | Receive(txid: string, outputs: seq<TxOut>)
    | Block

  /** Not the address of an own position outside 1 to last. */
  ghost predicate IssuedOnly(env: Env, w: Wallet, address: string)
    requires 2 <= env.pr.q
  {
    forall p: nat :: p < U32_LIMIT && address == AddressAt(env, w.network, w.share, p) ==> 1 <= p <= w.last
  }

  /** Funds of the wallet sit only at addresses it has issued. */
  ghost predicate FundsIssued(env: Env, w: Wallet, ledger: seq<Coin>)
    requires 2 <= env.pr.q
  {
    forall i :: 0 <= i < |ledger| ==> IssuedOnly(env, w, ledger[i].unspent.address)
  }

  ghost predicate Invariant(env: Env, world: World) {
    && Consistent(env, world.w) && InjectiveDerivation(env, world.w.share)
    && Matches(env.pr, world.server, world.w.share.masterKey)
    && WellFormed(world.ledger) && FundsIssued(env, world.w, world.ledger)
  }

  /** What the surroundings may do: stay below the u32 limit, draw randomness in range, and pay the
      wallet only at addresses it has issued (or issues with the payment, for the change). */
  ghost predicate Allowed(env: Env, world: World, event: Event)
    requires 2 <= env.pr.q
  {
    match event
    case NewAddress => world.w.last + 1 < U32_LIMIT
    case Pay(to, amount, nonces) =>
      SendReady(env, world.server, world.w, world.ledger, to, amount, nonces) && IssuedOnly(env, Advance(env, world.w), to)
    case Rotate(rot) => GoodRotation(env.pr, rot)
    case Receive(txid, outputs) =>
      FreshId(world.ledger, txid) && forall i :: 0 <= i < |outputs| ==> IssuedOnly(env, world.w, outputs[i].address)
    case Block => true
  }

  /** The next saved state. A payment that does not go out ends the process before it saves. */
  ghost function Next(env: Env, world: World, event: Event): World
    requires 2 <= env.pr.q && Allowed(env, world, event)
  {
    match event
    case NewAddress => world.(w := Advance(env, world.w))
    case Pay(to, amount, nonces) =>
      var (w, ledger, outcome) := Send(env, world.server, world.w, world.ledger, to, amount, nonces);
      if outcome.Sent? then world.(w := w, ledger := ledger) else world
    case Rotate(rot) =>
      KeyBounds(rot.paillier);
      var server := Rotate1(env.pr, world.server, rot);
      world.(w := RotateWallet(env, world.w, rot, server.cKey), server := server)
    case Receive(txid, outputs) => world.(ledger := world.ledger + NewCoins(txid, outputs, 0))
    case Block => world.(ledger := Mine(world.ledger))
  }

  ghost predicate AllowedRun(env: Env, world: World, events: seq<Event>)
    requires 2 <= env.pr.q
    decreases |events|
  {
    events == [] || (Allowed(env, world, events[0]) && AllowedRun(env, Next(env, world, events[0]), events[1..]))
  }

  ghost function Run(env: Env, world: World, events: seq<Event>): World
    requires 2 <= env.pr.q && AllowedRun(env, world, events)
    decreases |events|
  {
    if events == [] then world else Run(env, Next(env, world, events[0]), events[1..])
  }

  /** A wallet just created from a completed key generation starts in the invariant, on any chain
      that holds nothing at its addresses yet. */
  lemma NewWalletStarts(env: Env, network: string, share: PrivateShare, server: MasterKey1, ledger: seq<Coin>)
    requires env.Valid() && Matches(env.pr, server, share.masterKey) && InjectiveDerivation(env, share) && WellFormed(ledger)
    requires forall i, p: nat :: 0 <= i < |ledger| && p < U32_LIMIT ==> ledger[i].unspent.address != AddressAt(env, network, share, p)
    ensures Invariant(env, World(Wallet(network, share, 0, map[]), server, ledger))
  {
    hide AddressAt, Child, InjectiveDerivation;
    var w := Wallet(network, share, 0, map[]);
    forall i | 0 <= i < |ledger|
      ensures IssuedOnly(env, w, ledger[i].unspent.address)
    {
    }
  }

  // ---------- the invariant, event by event ----------

  /** The two wallets hand out the same address at every position. */
  ghost predicate SameAddresses(env: Env, a: Wallet, b: Wallet)
    requires 2 <= env.pr.q
  {
    a.network == b.network
    && forall p: nat :: AddressAt(env, a.network, a.share, p) == AddressAt(env, b.network, b.share, p)
  }

  lemma IssuedLater(env: Env, a: Wallet, b: Wallet, ledger: seq<Coin>)
    requires 2 <= env.pr.q && SameAddresses(env, a, b) && a.last <= b.last && FundsIssued(env, a, ledger)
    ensures FundsIssued(env, b, ledger)
  {
    forall i | 0 <= i < |ledger|
      ensures IssuedOnly(env, b, ledger[i].unspent.address)
    {
      assert IssuedOnly(env, a, ledger[i].unspent.address);
    }
  }

  lemma ChangeIssued(env: Env, w: Wallet)
    requires Consistent(env, w) && InjectiveDerivation(env, w.share) && w.last + 1 < U32_LIMIT
    ensures IssuedOnly(env, Advance(env, w), ChangeAddress(env, w))
  {
    hide AddressAt, Child, MapUpTo, InjectiveDerivation;
    forall p: nat | p < U32_LIMIT && ChangeAddress(env, w) == AddressAt(env, w.network, w.share, p)
      ensures p == w.last + 1
    {
      AddressesDiffer(env, w.network, w.share, p, w.last + 1);
    }
  }

  lemma AppendIssued(env: Env, w: Wallet, ledger: seq<Coin>, txid: string, outputs: seq<TxOut>)
    requires 2 <= env.pr.q && FundsIssued(env, w, ledger)
    requires forall i :: 0 <= i < |outputs| ==> IssuedOnly(env, w, outputs[i].address)
    ensures FundsIssued(env, w, ledger + NewCoins(txid, outputs, 0))
  {
    hide IssuedOnly;
    NewCoinsShape(txid, outputs, 0);
  }

  lemma PayKeeps(env: Env, world: World, to: string, amount: Amount, nonces: Nonces)
    requires Invariant(env, world) && Allowed(env, world, Pay(to, amount, nonces))
    requires Send(env, world.server, world.w, world.ledger, to, amount, nonces).2.Sent?
    ensures FundsIssued(env, Advance(env, world.w), Send(env, world.server, world.w, world.ledger, to, amount, nonces).1)
  {
    hide Send, IssuedOnly, AddressAt, Child, Chosen, InjectiveDerivation, Sum, Find, Distinct, Owned, SpendAll;
    var (w, ledger) := (world.w, world.ledger);
    var chosen := Chosen(env, w, ledger, amount);
    var tx := Payment(env, w, to, amount.satoshi, chosen);
    var next := Advance(env, w);
    SentShape(env, world.server, w, ledger, to, amount, nonces);
    ChosenSound(env, w, ledger, amount);
    SpendAllTotal(ledger, chosen, Owned(env, w));
    var spent := SpendAll(ledger, OutPoints(chosen)).value;
    IssuedLater(env, w, next, ledger);
    ChangeIssued(env, w);
    AppendIssued(env, next, spent, env.txid(tx), tx.outputs);
  }

  lemma {:induction false} MineKeeps(env: Env, w: Wallet, ledger: seq<Coin>)
    requires 2 <= env.pr.q && WellFormed(ledger) && FundsIssued(env, w, ledger)
    ensures WellFormed(Mine(ledger)) && FundsIssued(env, w, Mine(ledger))
    ensures forall c :: c in Mine(ledger) ==> exists i :: 0 <= i < |ledger| && ledger[i].unspent == c.unspent
  {
    hide IssuedOnly;
    if ledger != [] {
      var tail := ledger[1..];
      assert forall i :: 0 <= i < |tail| ==> tail[i] == ledger[i + 1];
      MineKeeps(env, w, tail);
      forall c | c in Mine(tail)
        ensures c.unspent.outpoint != ledger[0].unspent.outpoint
        ensures exists i :: 0 <= i < |ledger| && ledger[i].unspent == c.unspent
      {
        var i :| 0 <= i < |tail| && tail[i].unspent == c.unspent;
        assert ledger[i + 1].unspent == c.unspent;
      }
      if !ledger[0].spent {
        assert Mine(ledger) == [ledger[0].(confirmed := true)] + Mine(tail);
        assert ledger[0].unspent == Mine(ledger)[0].unspent;
      } else {
        assert Mine(ledger) == Mine(tail);
      }
    }
  }

  /** Every allowed event keeps the invariant and the address at every position, and never takes
      an issued position back. */
  lemma NextKeeps(env: Env, world: World, event: Event)
    requires Invariant(env, world) && Allowed(env, world, event)
    ensures Invariant(env, Next(env, world, event))
    ensures SameAddresses(env, world.w, Next(env, world, event).w) && world.w.last <= Next(env, world, event).w.last
  {
    hide IssuedOnly, AddressAt, Child, MapUpTo;
    match event
    case NewAddress =>
      AdvanceConsistent(env, world.w);
      IssuedLater(env, world.w, Advance(env, world.w), world.ledger);
    case Pay(to, amount, nonces) => PayNext(env, world, to, amount, nonces);
    case Rotate(rot) => RotateNext(env, world, rot);
    case Receive(txid, outputs) =>
      AppendIssued(env, world.w, world.ledger, txid, outputs);
      BroadcastWellFormed(world.ledger, world.ledger, txid, outputs);
    case Block => MineKeeps(env, world.w, world.ledger);
  }

  lemma PayNext(env: Env, world: World, to: string, amount: Amount, nonces: Nonces)
    requires Invariant(env, world) && Allowed(env, world, Pay(to, amount, nonces))
    ensures Invariant(env, Next(env, world, Pay(to, amount, nonces)))
    ensures SameAddresses(env, world.w, Next(env, world, Pay(to, amount, nonces)).w)
    ensures world.w.last <= Next(env, world, Pay(to, amount, nonces)).w.last
  {
    hide IssuedOnly, AddressAt, Child, Chosen, SignedTransaction, Broadcast, InjectiveDerivation, WellFormed, FundsIssued;
    if Send(env, world.server, world.w, world.ledger, to, amount, nonces).2.Sent? {
      AdvanceConsistent(env, world.w);
      PayKeeps(env, world, to, amount, nonces);
      SentLedger(env, world.server, world.w, world.ledger, to, amount, nonces, Owned(env, world.w));
    }
  }

  lemma RotateNext(env: Env, world: World, rot: ShareRotation.Rotation)
    requires Invariant(env, world) && Allowed(env, world, Rotate(rot))
    ensures Invariant(env, Next(env, world, Rotate(rot)))
    ensures SameAddresses(env, world.w, Next(env, world, Rotate(rot)).w)
    ensures world.w.last <= Next(env, world, Rotate(rot)).w.last
  {
    hide IssuedOnly, AddressAt, Child, MapUpTo, InjectiveDerivation, WellFormed, FundsIssued;
    RotationPreservesWallet(env, world.server, world.w, rot);
    var next := Next(env, world, Rotate(rot));
    forall p: nat
      ensures AddressAt(env, world.w.network, next.w.share, p) == AddressAt(env, world.w.network, world.w.share, p)
    {
      RotatedChild(env, world.w, rot, next.server.cKey, p);
    }
    IssuedLater(env, world.w, next.w, world.ledger);
  }

  lemma {:induction false} RunKeeps(env: Env, world: World, events: seq<Event>)
    requires Invariant(env, world) && AllowedRun(env, world, events)
    ensures Invariant(env, Run(env, world, events))
    ensures SameAddresses(env, world.w, Run(env, world, events).w) && world.w.last <= Run(env, world, events).w.last
    decreases |events|
  {
    hide Invariant, Allowed, Next;
    if events != [] {
      assert Consistent(env, world.w) by { InvariantConsistent(env, world); }
      NextKeeps(env, world, events[0]);
      RunKeeps(env, Next(env, world, events[0]), events[1..]);
    }
  }

  lemma InvariantConsistent(env: Env, world: World)
    requires Invariant(env, world)
    ensures Consistent(env, world.w)
  {
  }

  // ---------- the end-to-end theorem ----------

  /** Every input spends the given output with a signature of the unsigned transaction that
      verifies under the key whose address locks that output. */
  ghost predicate SpendsRightly(env: Env, network: string, tx: Transaction, chosen: seq<Unspent>)
    requires 2 <= env.pr.q
  {
    && |tx.inputs| == |chosen|
    && forall i :: 0 <= i < |chosen| ==>
         var w := tx.inputs[i].unlock;
         && tx.inputs[i].previous == chosen[i].outpoint
         && w.Witness? && w.hashType == 1 && env.address(network, w.key) == chosen[i].address
         && env.pr.Verify(w.key, env.sighash(Strip(tx), i, w.key, chosen[i].value), w.r, w.s)
  }

  lemma SignedSpendsRightly(env: Env, server: MasterKey1, w: Wallet, tx: Transaction, chosen: seq<Unspent>, nonces: Nonces)
    requires ReadyToSign(env, server, w, nonces) && Sound(env, w.network, w.share, w.derivations)
    requires |tx.inputs| == |chosen| && Strip(tx) == tx && Previous(tx) == OutPoints(chosen)
    requires SignedTransaction(env, server, w, tx, chosen, nonces).Some?
    ensures SpendsRightly(env, w.network, SignedTransaction(env, server, w, tx, chosen, nonces).value, chosen)
  {
    hide InputWitness, SignedTransaction, GetChild2, Strip, Previous, FullWidthSignature;
    StrippedSigned(env, server, w, tx, chosen, nonces);
    SameInputs(env, server, w, tx, chosen, nonces);
    forall i | 0 <= i < |chosen|
      ensures var input := SignedTransaction(env, server, w, tx, chosen, nonces).value.inputs[i];
              && input.previous == chosen[i].outpoint && input.unlock.Witness? && input.unlock.hashType == 1
              && env.address(w.network, input.unlock.key) == chosen[i].address
              && env.pr.Verify(input.unlock.key, env.sighash(tx, i, input.unlock.key, chosen[i].value), input.unlock.r, input.unlock.s)
    {
      SignedInput(env, server, w, tx, chosen, nonces, i);
      InputWitnessExact(env, server, w, tx, chosen[i], i, nonces);
    }
  }

  lemma SameInputs(env: Env, server: MasterKey1, w: Wallet, tx: Transaction, chosen: seq<Unspent>, nonces: Nonces)
    requires ReadyToSign(env, server, w, nonces) && |tx.inputs| == |chosen|
    requires SignedTransaction(env, server, w, tx, chosen, nonces).Some?
    ensures |SignedTransaction(env, server, w, tx, chosen, nonces).value.inputs| == |chosen|
  {
  }

  /** With funds only at issued addresses, every owned output's address is stored. */
  lemma IssuedStored(env: Env, w: Wallet, ledger: seq<Coin>, u: Unspent)
    requires Consistent(env, w) && InjectiveDerivation(env, w.share) && FundsIssued(env, w, ledger)
    requires u in UnspentAt(ledger, Owned(env, w))
    ensures u.address in w.derivations && u.address != AddressAt(env, w.network, w.share, 0)
  {
    UnspentMember(ledger, Owned(env, w), u);
    var i :| 0 <= i < |ledger| && ledger[i].unspent == u && !ledger[i].spent;
    assert IssuedOnly(env, w, ledger[i].unspent.address);
    ScanExact(env, w.network, w.share, w.last);
  }

  /** Every selected output has a stored key; and, for any amount, the payment goes out exactly when
      something is available, it adds up to the amount without a running total strictly between
      the target and the amount, and the signatures come out full width. For a whole amount the
      target is the amount, nothing lies between, and sufficient funds are all that is left. */
  ghost predicate PaidExactlyWhen(env: Env, world: World, to: string, amount: Amount, nonces: Nonces)
    requires ReadyToSign(env, world.server, world.w, nonces)
  {
    var (available, chosen) := (Available(env, world.w, world.ledger), Chosen(env, world.w, world.ledger, amount));
    var tx := Payment(env, world.w, to, amount.satoshi, chosen);
    && (forall u :: u in chosen ==> u.address in world.w.derivations)
    && (Send(env, world.server, world.w, world.ledger, to, amount, nonces).2.Sent? <==>
          && available != [] && NoSumBetween(available, amount.whole * 100_000_000, amount.satoshi)
          && forall i :: 0 <= i < |chosen| ==> InputEncodable(env, world.w, tx, chosen, i, nonces))
  }

  /** In every reachable state a payment goes out exactly when it should. */
  lemma ReachablePays(env: Env, start: World, events: seq<Event>, to: string, amount: Amount, nonces: Nonces)
    requires Invariant(env, start) && AllowedRun(env, start, events)
    requires Allowed(env, Run(env, start, events), Pay(to, amount, nonces))
    ensures PaidExactlyWhen(env, Run(env, start, events), to, amount, nonces)
  {
    RunKeeps(env, start, events);
    var world := Run(env, start, events);
    PaysExactly(env, world, to, amount, nonces);
  }

  lemma ChosenStored(env: Env, world: World, amount: Amount)
    requires Invariant(env, world)
    ensures forall u :: u in Chosen(env, world.w, world.ledger, amount) ==>
              u.address in world.w.derivations && u.address != AddressAt(env, world.w.network, world.w.share, 0)
  {
    hide IssuedOnly, AddressAt, Child, MapUpTo, Select, UnspentAt, Confirmed, FundsIssued;
    var (w, ledger) := (world.w, world.ledger);
    var list := ScanList(env, w.network, w.share, w.last);
    ScanExact(env, w.network, w.share, w.last);
    SpendableIsUnspent(ledger, list);
    GreedyExact(Spendable(ledger, list), amount.Target());
    var (funded, owned) := (Funded(ledger, list), Owned(env, w));
    DisjointTotal(ledger, funded, owned - funded);
    assert funded + (owned - funded) == owned;
    forall u | u in Chosen(env, w, ledger, amount)
      ensures u.address in w.derivations && u.address != AddressAt(env, w.network, w.share, 0)
    {
      assert u in multiset(Chosen(env, w, ledger, amount));
      assert u in multiset(UnspentAt(ledger, owned));
      IssuedStored(env, w, ledger, u);
    }
  }

  lemma PaysExactly(env: Env, world: World, to: string, amount: Amount, nonces: Nonces)
    requires Invariant(env, world) && Allowed(env, world, Pay(to, amount, nonces))
    ensures PaidExactlyWhen(env, world, to, amount, nonces)
  {
    hide IssuedOnly, AddressAt, Child, MapUpTo, FundsIssued, Chosen, Available, NoSumBetween, InjectiveDerivation, Send, InputEncodable;
    ChosenStored(env, world, amount);
    SendExact(env, world.server, world.w, world.ledger, to, amount, nonces);
  }

  /** Two outputs, the amount to the recipient and the rest to the wallet's next position, and the
      constant fields of the transactions the wallet builds. */
  ghost predicate PaysOut(env: Env, w: Wallet, tx: Transaction, chosen: seq<Unspent>, to: string, satoshi: nat)
    requires 2 <= env.pr.q
  {
    && tx.version == 0 && tx.lockTime == 0 && (forall i :: 0 <= i < |tx.inputs| ==> tx.inputs[i].sequence == 0xFFFF_FFFF)
    && satoshi <= Sum(chosen)
    && tx.outputs == [TxOut(satoshi, to),
                      TxOut(Sum(chosen) - satoshi, env.address(w.network, GetChild2(env.pr, w.share.masterKey, [0, w.last + 1]).pub))]
  }

  /** A payment from `world`, by the wallet that `origin` became: each chosen output is spent with
      a signature verifying under the key of the address that locks it, an address of the original
      wallet at an issued position; the recipient gets the amount and the next position the rest;
      the answer is the transaction's id; nothing is created or lost; and the watched balance falls
      by exactly the amount sent to an outside recipient. */
  ghost predicate PaidSoundly(env: Env, origin: Wallet, world: World, to: string, amount: Amount, nonces: Nonces)
    requires ReadyToSign(env, world.server, world.w, nonces)
  {
    var chosen := Chosen(env, world.w, world.ledger, amount);
    var (next, after, outcome) := Send(env, world.server, world.w, world.ledger, to, amount, nonces);
    && (exists tx :: SpendsRightly(env, world.w.network, tx, chosen) && PaysOut(env, world.w, tx, chosen, to, amount.satoshi)
                     && Broadcast(env, world.w.network, world.ledger, tx) == Some(after)
                     && outcome == Sent(env.txid(Strip(tx))))
    && (forall u :: u in chosen ==>
          exists p: nat :: 1 <= p <= world.w.last
            && u.address == env.address(origin.network, GetChild2(env.pr, origin.share.masterKey, [0, p]).pub))
    && Total(after, Owned(env, next) + {to}) == Total(world.ledger, Owned(env, next) + {to})
    && Total(after, Owned(env, next))
       == Total(world.ledger, Owned(env, world.w)) - if to in Owned(env, next) then 0 else amount.satoshi
  }

  /** End to end: whatever the wallet has done, a payment that goes out is sound. */
  lemma EndToEnd(env: Env, start: World, events: seq<Event>, to: string, amount: Amount, nonces: Nonces)
    requires Invariant(env, start) && AllowedRun(env, start, events)
    requires Allowed(env, Run(env, start, events), Pay(to, amount, nonces))
    requires var world := Run(env, start, events);
             Send(env, world.server, world.w, world.ledger, to, amount, nonces).2.Sent?
    ensures PaidSoundly(env, start.w, Run(env, start, events), to, amount, nonces)
  {
    RunKeeps(env, start, events);
    var world := Run(env, start, events);
    PaidRightly(env, world, to, amount, nonces);
    StoredAddresses(env, start.w, world, amount);
    PaidBalance(env, world, to, amount, nonces);
  }

  lemma AnyPayment(env: Env, start: World, events: seq<Event>, to: string, amount: Amount, nonces: Nonces)
    requires Invariant(env, start) && AllowedRun(env, start, events)
    requires Allowed(env, Run(env, start, events), Pay(to, amount, nonces))
    ensures var world := Run(env, start, events);
            && Invariant(env, world) && PaidExactlyWhen(env, world, to, amount, nonces)
            && (Send(env, world.server, world.w, world.ledger, to, amount, nonces).2.Sent? ==>
                  PaidSoundly(env, start.w, world, to, amount, nonces))
  {
    hide Invariant, PaidSoundly, PaidExactlyWhen, Run, AllowedRun, ReadyToSign, Send, InjectiveDerivation, WellFormed, Total;
    InvariantConsistent(env, start);
    RunKeeps(env, start, events);
    ReachablePays(env, start, events, to, amount, nonces);
    var world := Run(env, start, events);
    if Send(env, world.server, world.w, world.ledger, to, amount, nonces).2.Sent? {
      EndToEnd(env, start, events, to, amount, nonces);
    }
  }

  lemma PaidRightly(env: Env, world: World, to: string, amount: Amount, nonces: Nonces)
    requires Invariant(env, world) && Allowed(env, world, Pay(to, amount, nonces))
    requires Send(env, world.server, world.w, world.ledger, to, amount, nonces).2.Sent?
    ensures var chosen := Chosen(env, world.w, world.ledger, amount);
            var (_, after, outcome) := Send(env, world.server, world.w, world.ledger, to, amount, nonces);
            exists tx :: SpendsRightly(env, world.w.network, tx, chosen) && PaysOut(env, world.w, tx, chosen, to, amount.satoshi)
                         && Broadcast(env, world.w.network, world.ledger, tx) == Some(after)
                         && outcome == Sent(env.txid(Strip(tx)))
  {
    hide SignedTransaction, Broadcast, Chosen, AddressAt, GetChild2, SpendsRightly, PaysOut, FundsIssued, InjectiveDerivation;
    var w := world.w;
    var chosen := Chosen(env, w, world.ledger, amount);
    var tx := Payment(env, w, to, amount.satoshi, chosen);
    AdvanceReady(env, world.server, w, nonces);
    AdvanceConsistent(env, w);
    UnsignedShape(chosen, to, amount.satoshi, ChangeAddress(env, w));
    SignedSpendsRightly(env, world.server, Advance(env, w), tx, chosen, nonces);
    var signed := SignedTransaction(env, world.server, Advance(env, w), tx, chosen, nonces).value;
    assert SpendsRightly(env, w.network, signed, chosen);
    SignedPaysOut(env, world, to, amount, nonces, signed);
  }

  lemma SignedPaysOut(env: Env, world: World, to: string, amount: Amount, nonces: Nonces, signed: Transaction)
    requires Invariant(env, world) && Allowed(env, world, Pay(to, amount, nonces))
    requires Send(env, world.server, world.w, world.ledger, to, amount, nonces).2.Sent?
    requires var chosen := Chosen(env, world.w, world.ledger, amount);
             var tx := Payment(env, world.w, to, amount.satoshi, chosen);
             (AdvanceReady(env, world.server, world.w, nonces);
              SignedTransaction(env, world.server, Advance(env, world.w), tx, chosen, nonces) == Some(signed))
    ensures PaysOut(env, world.w, signed, Chosen(env, world.w, world.ledger, amount), to, amount.satoshi)
  {
    hide InputWitness, Chosen, Send, GetChild2, Sum, Total, FundsIssued, InjectiveDerivation, WellFormed, MapUpTo, FreshId;
    SentLedger(env, world.server, world.w, world.ledger, to, amount, nonces, Owned(env, world.w));
    ChosenSound(env, world.w, world.ledger, amount);
    AdvanceExact(env, world.w);
  }

  lemma StoredAddresses(env: Env, start: Wallet, world: World, amount: Amount)
    requires Invariant(env, world) && SameAddresses(env, start, world.w)
    ensures forall u :: u in Chosen(env, world.w, world.ledger, amount) ==>
              exists p: nat :: 1 <= p <= world.w.last && u.address == env.address(start.network, GetChild2(env.pr, start.share.masterKey, [0, p]).pub)
  {
    hide GetChild2, Chosen, FundsIssued, InjectiveDerivation, MapUpTo;
    ChosenStored(env, world, amount);
    MapSound(env, world.w.network, world.w.share, world.w.last);
    forall u | u in Chosen(env, world.w, world.ledger, amount)
      ensures exists p: nat :: 1 <= p <= world.w.last && u.address == env.address(start.network, GetChild2(env.pr, start.share.masterKey, [0, p]).pub)
    {
      var p := world.w.derivations[u.address].pos;
      assert AddressAt(env, start.network, start.share, p) == u.address;
      assert u.address == env.address(start.network, GetChild2(env.pr, start.share.masterKey, [0, p]).pub);
    }
  }

  lemma PaidBalance(env: Env, world: World, to: string, amount: Amount, nonces: Nonces)
    requires Invariant(env, world) && Allowed(env, world, Pay(to, amount, nonces))
    requires Send(env, world.server, world.w, world.ledger, to, amount, nonces).2.Sent?
    ensures var (next, after, _) := Send(env, world.server, world.w, world.ledger, to, amount, nonces);
            && Total(after, Owned(env, next) + {to}) == Total(world.ledger, Owned(env, next) + {to})
            && Total(after, Owned(env, next))
               == Total(world.ledger, Owned(env, world.w)) - if to in Owned(env, next) then 0 else amount.satoshi
  {
    hide IssuedOnly, AddressAt, Child, Owned, Chosen, SignedTransaction, Broadcast, Sum, InjectiveDerivation;
    var (next, after, _) := Send(env, world.server, world.w, world.ledger, to, amount, nonces);
    OwnedAdvance(env, world.w);
    BalanceAfterSend(env, world.server, world.w, world.ledger, to, amount, nonces);
    SendConserves(env, world.server, world.w, world.ledger, to, amount, nonces, Owned(env, next) + {to});
    ChangeUnused(env, world.w, world.ledger);
  }

  /** Nothing has been paid yet to the position a wallet issues next. */
  lemma ChangeUnused(env: Env, w: Wallet, ledger: seq<Coin>)
    requires Consistent(env, w) && w.last + 1 < U32_LIMIT && FundsIssued(env, w, ledger)
    ensures Total(ledger, {ChangeAddress(env, w)}) == 0
  {
    hide IssuedOnly, AddressAt, Child, MapUpTo, Total;
    var change := ChangeAddress(env, w);
    forall c | c in ledger
      ensures c.unspent.address !in {change}
    {
      var i :| 0 <= i < |ledger| && ledger[i] == c;
      NotYetIssued(env, w, c.unspent.address);
    }
    UnusedTotal(ledger, {change});
  }

  lemma NotYetIssued(env: Env, w: Wallet, address: string)
    requires Consistent(env, w) && w.last + 1 < U32_LIMIT && IssuedOnly(env, w, address)
    ensures address != ChangeAddress(env, w)
  {
    hide AddressAt, Child, MapUpTo;
  }
}
