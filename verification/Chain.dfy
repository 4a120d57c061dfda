/** Bitcoin transactions and the check a node makes before it accepts one: every input spends a
    distinct unspent output, carries a signature that verifies under a key whose address locks
    that output, and the outputs pay no more than the inputs hold. */
module Chain {
  import opened Common
  import opened NumberTheory
  import opened Ecdsa
  import opened Selection
  import opened Ledger

  const SIGHASH_ALL := 1

  datatype Witness = NoWitness | Witness(r: int, s: int, hashType: int, key: Point)

  datatype TxIn = TxIn(previous: OutPoint, sequence: int, unlock: Witness)

  datatype TxOut = TxOut(value: nat, address: string)

  datatype Transaction = Transaction(version: int, lockTime: int, inputs: seq<TxIn>, outputs: seq<TxOut>)

  /** The functions that stay uninterpreted: the P2WPKH address of a public key on a network, the
      BIP143 signature hash (of an unsigned transaction, an input index, the key whose P2PKH script
      is the script code, and the amount), and the transaction id. */
  datatype Env = Env(
    pr: Primitives,
    address: (string, Point) -> string,
    sighash: (Transaction, nat, Point, nat) -> nat,
    txid: Transaction -> string)
  {
    ghost predicate Valid() {
      && pr.Valid() && pr.q <= Pow(256, 32)
      && forall network, p, t :: 0 <= p < pr.q && 0 <= t < pr.q && address(network, p) == address(network, t) ==> p == t
    }
  }

  /** The transaction without its witnesses, which is what signature hashes and ids commit to. */
  function Strip(tx: Transaction): Transaction {
    tx.(inputs := seq(|tx.inputs|, i requires 0 <= i < |tx.inputs| => tx.inputs[i].(unlock := NoWitness)))
  }

  function Previous(tx: Transaction): seq<OutPoint> {
    seq(|tx.inputs|, i requires 0 <= i < |tx.inputs| => tx.inputs[i].previous)
  }

  function OutputTotal(outputs: seq<TxOut>): nat {
    if outputs == [] then 0 else outputs[0].value + OutputTotal(outputs[1..])
  }

  function InputTotal(ledger: seq<Coin>, outpoints: seq<OutPoint>): nat {
    if outpoints == [] then 0
    else (match Find(ledger, outpoints[0]) case Some(u) => u.value case None => 0)
         + InputTotal(ledger, outpoints[1..])
  }

  predicate InputValid(env: Env, network: string, ledger: seq<Coin>, tx: Transaction, i: nat)
    requires 2 <= env.pr.q && i < |tx.inputs|
  {
    var w := tx.inputs[i].unlock;
    match Find(ledger, tx.inputs[i].previous)
    case None => false
    case Some(u) =>
      && w.Witness? && w.hashType == SIGHASH_ALL
      && env.address(network, w.key) == u.address
      && env.pr.Verify(w.key, env.sighash(Strip(tx), i, w.key, u.value), w.r, w.s)
  }

  /** A transaction id that no output in the ledger carries already. */
  predicate FreshId(ledger: seq<Coin>, txid: string) {
    forall c :: c in ledger ==> c.unspent.outpoint.txid != txid
  }

  predicate Accepts(env: Env, network: string, ledger: seq<Coin>, tx: Transaction)
    requires 2 <= env.pr.q
  {
    && tx.inputs != []
    && SpendAll(ledger, Previous(tx)).Some?
    && (forall i :: 0 <= i < |tx.inputs| ==> InputValid(env, network, ledger, tx, i))
    && OutputTotal(tx.outputs) <= InputTotal(ledger, Previous(tx))
    && FreshId(ledger, env.txid(Strip(tx)))
  }

  function NewCoins(txid: string, outputs: seq<TxOut>, vout: nat): seq<Coin> {
    if outputs == [] then []
    else [Coin(Unspent(OutPoint(txid, vout), outputs[0].value, outputs[0].address), false, false)]
         + NewCoins(txid, outputs[1..], vout + 1)
  }

  /** The ledger after a broadcast, or None when the node rejects the transaction. */
  function Broadcast(env: Env, network: string, ledger: seq<Coin>, tx: Transaction): Option<seq<Coin>>
    requires 2 <= env.pr.q
  {
    if Accepts(env, network, ledger, tx)
    then Some(SpendAll(ledger, Previous(tx)).value + NewCoins(env.txid(Strip(tx)), tx.outputs, 0))
    else None
  }

  lemma {:induction false} InputTotalSum(ledger: seq<Coin>, list: seq<Unspent>)
    requires forall u :: u in list ==> Find(ledger, u.outpoint) == Some(u)
    ensures InputTotal(ledger, OutPoints(list)) == Sum(list)
  {
    if list != [] {
      assert list[0] in list;
      assert OutPoints(list)[1..] == OutPoints(list[1..]);
      InputTotalSum(ledger, list[1..]);
    }
  }

  lemma {:induction false} NewCoinsShape(txid: string, outputs: seq<TxOut>, vout: nat)
    ensures var coins := NewCoins(txid, outputs, vout);
            && |coins| == |outputs|
            && forall i :: 0 <= i < |coins| ==>
                 coins[i] == Coin(Unspent(OutPoint(txid, vout + i), outputs[i].value, outputs[i].address), false, false)
  {
    if outputs != [] {
      NewCoinsShape(txid, outputs[1..], vout + 1);
    }
  }

  /** Spent outputs keep their outpoints and the new ones carry a fresh id, so the ledger stays
      well formed. */
  lemma BroadcastWellFormed(ledger: seq<Coin>, after: seq<Coin>, txid: string, outputs: seq<TxOut>)
    requires WellFormed(ledger) && FreshId(ledger, txid) && |after| == |ledger|
    requires forall i :: 0 <= i < |ledger| ==> after[i].unspent == ledger[i].unspent
    ensures WellFormed(after + NewCoins(txid, outputs, 0))
  {
    NewCoinsShape(txid, outputs, 0);
    var coins := NewCoins(txid, outputs, 0);
    forall i, j | 0 <= i < j < |after + coins|
      ensures (after + coins)[i].unspent.outpoint != (after + coins)[j].unspent.outpoint
    {
      if i < |after| <= j {
        assert ledger[i] in ledger;
      }
    }
  }

  // ---------- what a node guarantees about any transaction ----------

  /** Input i spends an output the ledger holds unspent, with a signature over the unsigned
      transaction that verifies under a key whose address locks that output. */
  ghost predicate Unlocks(env: Env, network: string, ledger: seq<Coin>, tx: Transaction, i: nat)
    requires 2 <= env.pr.q && i < |tx.inputs|
  {
    var w := tx.inputs[i].unlock;
    exists j :: 0 <= j < |ledger| && !ledger[j].spent
      && ledger[j].unspent.outpoint == tx.inputs[i].previous
      && w.Witness? && w.hashType == 1
      && env.address(network, w.key) == ledger[j].unspent.address
      && env.pr.Verify(w.key, env.sighash(Strip(tx), i, w.key, ledger[j].unspent.value), w.r, w.s)
  }

  lemma UnlocksIff(env: Env, network: string, ledger: seq<Coin>, tx: Transaction, i: nat)
    requires 2 <= env.pr.q && WellFormed(ledger) && i < |tx.inputs|
    ensures Unlocks(env, network, ledger, tx, i) <==> InputValid(env, network, ledger, tx, i)
  {
    hide Primitives.Verify, Find;
    var (w, previous) := (tx.inputs[i].unlock, tx.inputs[i].previous);
    if Unlocks(env, network, ledger, tx, i) {
      var j :| 0 <= j < |ledger| && !ledger[j].spent && ledger[j].unspent.outpoint == previous
        && w.Witness? && w.hashType == 1 && env.address(network, w.key) == ledger[j].unspent.address
        && env.pr.Verify(w.key, env.sighash(Strip(tx), i, w.key, ledger[j].unspent.value), w.r, w.s);
      FindExact(ledger, previous, ledger[j].unspent);
    }
    if InputValid(env, network, ledger, tx, i) {
      var u := Find(ledger, previous).value;
      FindExact(ledger, previous, u);
      var j :| 0 <= j < |ledger| && ledger[j].unspent == u && !ledger[j].spent;
    }
  }

  /** Exactly what is accepted, in terms of the outputs the ledger holds. */
  lemma AcceptsExactly(env: Env, network: string, ledger: seq<Coin>, tx: Transaction)
    requires 2 <= env.pr.q && WellFormed(ledger)
    ensures Accepts(env, network, ledger, tx) <==>
              && tx.inputs != [] && NoRepeats(Previous(tx))
              && (forall i :: 0 <= i < |tx.inputs| ==> Unlocks(env, network, ledger, tx, i))
              && OutputTotal(tx.outputs) <= InputTotal(ledger, Previous(tx))
              && FreshId(ledger, env.txid(Strip(tx)))
  {
    hide Unlocks, InputValid, SpendAll, Find, Strip, WellFormed;
    SpendAllExact(ledger, Previous(tx));
    forall i | 0 <= i < |tx.inputs|
      ensures Unlocks(env, network, ledger, tx, i) <==> InputValid(env, network, ledger, tx, i)
      ensures InputValid(env, network, ledger, tx, i) ==> Find(ledger, Previous(tx)[i]).Some?
    {
      UnlocksIff(env, network, ledger, tx, i);
      ValidIsFound(env, network, ledger, tx, i);
    }
  }

  lemma ValidIsFound(env: Env, network: string, ledger: seq<Coin>, tx: Transaction, i: nat)
    requires 2 <= env.pr.q && i < |tx.inputs|
    ensures InputValid(env, network, ledger, tx, i) ==> Find(ledger, Previous(tx)[i]).Some?
  {
  }

  /** The part of the outputs that goes to the given addresses. */
  function PaidTo(outputs: seq<TxOut>, addresses: set<string>): nat {
    if outputs == [] then 0
    else (if outputs[0].address in addresses then outputs[0].value else 0) + PaidTo(outputs[1..], addresses)
  }

  lemma {:induction false} NewCoinsTotal(txid: string, outputs: seq<TxOut>, vout: nat, addresses: set<string>)
    ensures Total(NewCoins(txid, outputs, vout), addresses) == PaidTo(outputs, addresses) <= OutputTotal(outputs)
  {
    if outputs != [] {
      var coins := NewCoins(txid, outputs, vout);
      assert coins[1..] == NewCoins(txid, outputs[1..], vout + 1);
      NewCoinsTotal(txid, outputs[1..], vout + 1, addresses);
      HeadTotal(coins, addresses);
    }
  }

  function Inputs(ledger: seq<Coin>, outpoints: seq<OutPoint>): seq<Unspent>
    requires forall o :: o in outpoints ==> Find(ledger, o).Some?
  {
    seq(|outpoints|, i requires 0 <= i < |outpoints| => Find(ledger, outpoints[i]).value)
  }

  /** Whatever transaction a node accepts, it takes the inputs away, adds what the outputs pay, and
      never raises the total held. */
  lemma NodeConserves(env: Env, network: string, ledger: seq<Coin>, tx: Transaction, addresses: set<string>)
    requires 2 <= env.pr.q && WellFormed(ledger) && Broadcast(env, network, ledger, tx).Some?
    requires forall o :: o in Previous(tx) && Find(ledger, o).Some? ==> Find(ledger, o).value.address in addresses
    ensures var after := Broadcast(env, network, ledger, tx).value;
            && WellFormed(after)
            && Total(after, addresses) == Total(ledger, addresses) - InputTotal(ledger, Previous(tx)) + PaidTo(tx.outputs, addresses)
            && Total(after, addresses) <= Total(ledger, addresses)
  {
    hide InputValid, SpendAll, WellFormed, Strip, Find, Total, NewCoins, InputTotal, PaidTo, OutputTotal, FreshId;
    var outpoints := Previous(tx);
    SpendAllExact(ledger, outpoints);
    var list := Inputs(ledger, outpoints);
    forall i | 0 <= i < |list|
      ensures list[i].outpoint == outpoints[i] && list[i].address in addresses && Find(ledger, list[i].outpoint) == Some(list[i])
    {
      FindExact(ledger, outpoints[i], list[i]);
      assert outpoints[i] in outpoints;
    }
    assert OutPoints(list) == outpoints;
    SpendAllTotal(ledger, list, addresses);
    InputTotalSum(ledger, list);
    var spent := SpendAll(ledger, outpoints).value;
    var coins := NewCoins(env.txid(Strip(tx)), tx.outputs, 0);
    AppendTotal(spent, coins, addresses);
    NewCoinsTotal(env.txid(Strip(tx)), tx.outputs, 0, addresses);
    BroadcastWellFormed(ledger, spent, env.txid(Strip(tx)), tx.outputs);
  }

  /** Confirmed balances wait for a block. */
  lemma BroadcastKeepsConfirmed(env: Env, network: string, ledger: seq<Coin>, tx: Transaction, address: string)
    requires 2 <= env.pr.q && WellFormed(ledger) && Broadcast(env, network, ledger, tx).Some?
    ensures Confirmed(Broadcast(env, network, ledger, tx).value, address) == Confirmed(ledger, address)
  {
    hide InputValid, SpendAll, WellFormed, Strip, Find, NewCoins, InputTotal, OutputTotal, FreshId;
    SpendAllExact(ledger, Previous(tx));
    NewCoinsShape(env.txid(Strip(tx)), tx.outputs, 0);
    ConfirmedFixed(ledger, SpendAll(ledger, Previous(tx)).value, NewCoins(env.txid(Strip(tx)), tx.outputs, 0), address);
  }
}
