/** The Bitcoin wallet as the object the demo application keeps: fields updated in place and the
    loops of its methods, proved against the functions of WalletSpec. */
module BitcoinWallet {
  import opened Common
  import opened MasterKeys
  import opened TwoPartySigning
  import opened BigEndian
  import opened Selection
  import opened Ledger
  import opened Chain
  import opened WalletSpec

  /** The Electrum server the wallet talks to, over an abstract ledger. */
  class Electrumx {
    var ledger: seq<Coin>

    constructor (ledger: seq<Coin>)
      ensures this.ledger == ledger
    {
      this.ledger := ledger;
    }

    method GetBalance(address: string) returns (confirmed: nat, unconfirmed: int)
      ensures confirmed == Confirmed(ledger, address) && unconfirmed == Unconfirmed(ledger, address)
    {
      confirmed, unconfirmed := Confirmed(ledger, address), Unconfirmed(ledger, address);
    }

    method GetListUnspent(address: string) returns (list: seq<Unspent>)
      ensures list == UnspentAt(ledger, {address})
    {
      list := UnspentAt(ledger, {address});
    }

    method BroadcastTransaction(env: Env, network: string, tx: Transaction) returns (txid: Option<string>)
      requires 2 <= env.pr.q
      modifies this
      ensures match Broadcast(env, network, old(ledger), tx)
              case Some(after) => ledger == after && txid == Some(env.txid(Strip(tx)))
              case None => ledger == old(ledger) && txid == None
    {
      match Broadcast(env, network, ledger, tx)
      case Some(after) => ledger, txid := after, Some(env.txid(Strip(tx)));
      case None => txid := None;
    }
  }

  class BitcoinWallet {
    const env: Env
    var network: string
    var privateShare: PrivateShare
    var lastDerivedPos: nat
    var addressesDerivationMap: map<string, AddressDerivation>

    /** The fields as one value. */
    ghost function Model(): Wallet
      reads this
    {
      Wallet(network, privateShare, lastDerivedPos, addressesDerivationMap)
    }

    ghost predicate Valid()
      reads this
    {
      Consistent(env, Model())
    }

    constructor (env: Env, network: string, share: PrivateShare)
      requires env.Valid()
      ensures Valid() && this.env == env && Model() == Wallet(network, share, 0, map[])
    {
      this.env, this.network, this.privateShare := env, network, share;
      lastDerivedPos, addressesDerivationMap := 0, map[];
    }

    /** A wallet with issued positions whose map is still to be rebuilt. */
    constructor Unbuilt(env: Env, network: string, share: PrivateShare, last: nat)
      ensures this.env == env && Model() == Wallet(network, share, last, map[])
    {
      this.env, this.network, this.privateShare := env, network, share;
      lastDerivedPos, addressesDerivationMap := last, map[];
    }

    /** The next position, a u32 that wraps, and the child key there. */
    static function DeriveNewKey(env: Env, share: PrivateShare, pos: nat): (int, MasterKey2)
      requires 2 <= env.pr.q
    {
      var lastPos := (pos + 1) % U32_LIMIT;
      (lastPos, Child(env, share, lastPos))
    }

    method GetNewBitcoinAddress() returns (address: string)
      requires Valid()
      modifies this`lastDerivedPos, this`addressesDerivationMap
      ensures Model() == Advance(env, old(Model())) && address == ChangeAddress(env, old(Model()))
      ensures Valid() <==> old(lastDerivedPos) + 1 < 0x1_0000_0000
      ensures lastDerivedPos == if old(lastDerivedPos) == 0xFFFF_FFFF then 0 else old(lastDerivedPos) + 1
      ensures var key := GetChild2(env.pr, privateShare.masterKey, [0, lastDerivedPos]);
              && address == env.address(network, key.pub)
              && addressesDerivationMap == old(addressesDerivationMap)[address := AddressDerivation(lastDerivedPos, key)]
    {
      hide GetChild2, MapUpTo;
      AdvanceConsistent(env, Model());
      AdvanceExact(env, Model());
      var (pos, mk) := DeriveNewKey(env, privateShare, lastDerivedPos);
      address := env.address(network, mk.pub);
      addressesDerivationMap := addressesDerivationMap[address := AddressDerivation(pos, mk)];
      lastDerivedPos := pos;
    }

    /** Rebuilds the entries of every issued position. */
    method Derived()
      requires env.Valid() && lastDerivedPos < U32_LIMIT
      modifies this`addressesDerivationMap
      ensures Model() == old(Model()).(derivations := addressesDerivationMap)
      ensures addressesDerivationMap == old(addressesDerivationMap) + MapUpTo(env, network, privateShare, lastDerivedPos)
      ensures old(addressesDerivationMap) == map[] || old(Valid()) ==> Valid()
      ensures old(Valid()) ==> addressesDerivationMap == old(addressesDerivationMap)
    {
      hide Child;
      ghost var start := addressesDerivationMap;
      MergeSelf(MapUpTo(env, network, privateShare, lastDerivedPos));
      var i := 0;
      while i < lastDerivedPos
        invariant i <= lastDerivedPos && Model() == old(Model()).(derivations := addressesDerivationMap)
        invariant addressesDerivationMap == start + MapUpTo(env, network, privateShare, i)
      {
        var (pos, mk) := DeriveNewKey(env, privateShare, i);
        var address := env.address(network, mk.pub);
        ExtendMap(start, MapUpTo(env, network, privateShare, i), address, AddressDerivation(pos, mk));
        addressesDerivationMap := addressesDerivationMap[address := AddressDerivation(pos, mk)];
        i := i + 1;
      }
    }

    static lemma MergeSelf(m: map<string, AddressDerivation>)
      ensures map[] + m == m && m + m == m
    {
    }

    static lemma ExtendMap(a: map<string, AddressDerivation>, b: map<string, AddressDerivation>, k: string, v: AddressDerivation)
      ensures (a + b)[k := v] == a + b[k := v]
    {
    }

    method GetAllAddresses() returns (response: seq<string>)
      requires env.Valid()
      ensures response == ScanList(env, network, privateShare, lastDerivedPos)
    {
      response := [];
      var n := 0;
      while n <= lastDerivedPos
        invariant n <= lastDerivedPos + 1 && |response| == n
        invariant forall i :: 0 <= i < n ==> response[i] == AddressAt(env, network, privateShare, i)
      {
        var mk := GetChild2(env.pr, privateShare.masterKey, [0, n]);
        response := response + [env.address(network, mk.pub)];
        n := n + 1;
      }
    }

    /** The aggregated balance. Confirmed and unconfirmed together are the unspent outputs at the
        watched addresses, given that those are distinct. */
    method GetBalance(electrumx: Electrumx) returns (confirmed: nat, unconfirmed: int)
      requires Valid()
      ensures InjectiveDerivation(env, privateShare) ==>
                confirmed + unconfirmed == Total(electrumx.ledger, Owned(env, Model()))
      ensures confirmed == ConfirmedSum(electrumx.ledger, ScanList(env, network, privateShare, lastDerivedPos))
    {
      hide Confirmed, Unconfirmed, Total, AddressAt, MapUpTo;
      var addresses := GetAllAddresses();
      confirmed, unconfirmed := 0, 0;
      var i := 0;
      while i < |addresses|
        invariant i <= |addresses|
        invariant confirmed == ConfirmedSum(electrumx.ledger, addresses[..i])
        invariant confirmed + unconfirmed == TotalSum(electrumx.ledger, addresses[..i])
      {
        var c, u := electrumx.GetBalance(addresses[i]);
        assert addresses[..i + 1] == addresses[..i] + [addresses[i]];
        SumsAppend(electrumx.ledger, addresses[..i], addresses[i]);
        BalanceIsUnspent(electrumx.ledger, addresses[i]);
        unconfirmed := unconfirmed + u;
        confirmed := confirmed + c;
        i := i + 1;
      }
      assert addresses[..i] == addresses;
      if InjectiveDerivation(env, privateShare) {
        ScanExact(env, network, privateShare, lastDerivedPos);
        TotalSumIsTotal(electrumx.ledger, addresses);
      }
    }

    /** Greedy selection over the spendable outputs sorted by value. */
    method SelectTxIn(amount: Amount, electrumx: Electrumx) returns (selected: seq<Unspent>)
      requires Valid() && SumsFit(amount, electrumx)
      ensures selected == Chosen(env, Model(), electrumx.ledger, amount)
      ensures selected == Select(Available(env, Model(), electrumx.ledger), amount.whole * 100_000_000)
      ensures amount.satoshi <= Sum(selected) <==>
                NoSumBetween(Available(env, Model(), electrumx.ledger), amount.whole * 100_000_000, amount.satoshi)
    {
      ChosenCovers(env, Model(), electrumx.ledger, amount);
      var addresses := GetAllAddresses();
      var list := SortByValue(Spendable(electrumx.ledger, addresses));
      selected := TakeUntilExceeded(list, amount.whole * 100_000_000);
    }

    /** The signed 64-bit countdown of the selection does not overflow. */
    ghost predicate SumsFit(amount: Amount, electrumx: Electrumx)
      reads this, electrumx
      requires env.Valid()
    {
      CountdownFits(SortByValue(Available(env, Model(), electrumx.ledger)), amount.whole * 100_000_000)
    }

    static method TakeUntilExceeded(list: seq<Unspent>, target: int) returns (selected: seq<Unspent>)
      requires CountdownFits(list, target)
      ensures selected == Take(list, target)
    {
      var remaining := target;
      selected := [];
      var i := 0;
      assert list[0..] == list;
      while i < |list|
        invariant i <= |list|
        invariant selected + Take(list[i..], remaining) == Take(list, target)
        invariant CountdownFits(list[i..], remaining)
      {
        assert list[i..][1..] == list[i + 1..];
        assert FitsI64(list[i].value) && FitsI64(remaining - list[i].value);
        selected := selected + [list[i]];
        remaining := remaining - list[i].value;
        if remaining < 0 {
          return;
        }
        i := i + 1;
      }
    }

    /** One round of the signing loop: look the key up, sign the hash of the unsigned transaction
        with the server, and encode. It succeeds exactly for a stored address and a full-width
        solution of the signing equation, which then verifies under the key at the stored position. */
    method SignInput(transaction: Transaction, item: Unspent, idx: nat, server: MasterKey1, nonces: Nonces) returns (unlock: Option<Witness>)
      requires ReadyToSign(env, server, Model(), nonces)
      ensures unlock == InputWitness(env, server, Model(), transaction, item, idx, nonces)
      ensures unlock.Some? <==>
                item.address in addressesDerivationMap
                && var key := GetChild2(env.pr, privateShare.masterKey, [0, addressesDerivationMap[item.address].pos]).pub;
                   FullWidthSignature(env.pr, key, (nonces(idx).0 * nonces(idx).1.k2) % env.pr.q,
                                      env.sighash(transaction, idx, key, item.value))
      ensures unlock.Some? ==>
                var key := GetChild2(env.pr, privateShare.masterKey, [0, addressesDerivationMap[item.address].pos]).pub;
                && unlock.value.Witness? && unlock.value.hashType == 1 && unlock.value.key == key
                && env.pr.Verify(key, env.sighash(transaction, idx, key, item.value), unlock.value.r, unlock.value.s)
    {
      InputWitnessExact(env, server, Model(), transaction, item, idx, nonces);
      if item.address !in addressesDerivationMap {
        return None;
      }
      var addressDerivation := addressesDerivationMap[item.address];
      var mk := addressDerivation.mk;
      var sigHash := env.sighash(transaction, idx, mk.pub, item.value);
      var path := [0, addressDerivation.pos];
      DerivationMatches(env.pr, server, privateShare.masterKey, path);
      SignedChildVerifies(env.pr, GetChild1(env.pr, server, path), mk, nonces(idx).0, nonces(idx).1, sigHash);
      var signature := TwoPartySigning.Sign(env.pr, GetChild1(env.pr, server, path), mk, nonces(idx).0, nonces(idx).1, sigHash);
      if signature.None? {
        return None;
      }
      var compact := FromCompact(env.pr.q, ToVec(signature.value.r) + ToVec(signature.value.s));
      match compact
      case None => unlock := None;
      case Some((r, s)) => unlock := Some(Witness(r, s, SIGHASH_ALL, mk.pub));
    }

    /** The signing loop: witnesses are written into a copy of the transaction, hashes are taken
        over the original. */
    method SignInputs(transaction: Transaction, selected: seq<Unspent>, server: MasterKey1, nonces: Nonces) returns (signed: Option<Transaction>)
      requires ReadyToSign(env, server, Model(), nonces) && |transaction.inputs| == |selected|
      ensures signed == SignedTransaction(env, server, Model(), transaction, selected, nonces)
    {
      hide InputWitness;
      var signedTransaction := transaction;
      var idx := 0;
      while idx < |selected|
        invariant idx <= |selected| && |signedTransaction.inputs| == |selected|
        invariant signedTransaction.(inputs := transaction.inputs) == transaction
        invariant forall j :: 0 <= j < idx ==>
                    InputWitness(env, server, Model(), transaction, selected[j], j, nonces).Some?
        invariant forall j :: 0 <= j < idx ==>
                    signedTransaction.inputs[j] == transaction.inputs[j].(unlock :=
                      InputWitness(env, server, Model(), transaction, selected[j], j, nonces).value)
        invariant forall j :: idx <= j < |selected| ==> signedTransaction.inputs[j] == transaction.inputs[j]
      {
        var unlock := SignInput(transaction, selected[idx], idx, server, nonces);
        if unlock.None? {
          return None;
        }
        signedTransaction := signedTransaction.(inputs :=
          signedTransaction.inputs[idx := signedTransaction.inputs[idx].(unlock := unlock.value)]);
        idx := idx + 1;
      }
      assert signedTransaction.inputs == SignedTransaction(env, server, Model(), transaction, selected, nonces).value.inputs;
      signed := Some(signedTransaction);
    }

    /** Pays an address: select, issue a change address, build the transaction, have every input
        signed and broadcast. Panics of the source end in the outcome Panicked. */
    method Send(to: string, amount: Amount, server: MasterKey1, nonces: Nonces, electrumx: Electrumx) returns (outcome: Outcome)
      requires Valid() && SumsFit(amount, electrumx)
      requires ReadyToSign(env, server, Model(), nonces)
      modifies this`lastDerivedPos, this`addressesDerivationMap, electrumx
      ensures (Model(), electrumx.ledger, outcome)
              == WalletSpec.Send(env, server, old(Model()), old(electrumx.ledger), to, amount, nonces)
      ensures outcome.Sent? ==>
                outcome.txid == env.txid(Payment(env, old(Model()), to, amount.satoshi,
                                                 Chosen(env, old(Model()), old(electrumx.ledger), amount)))
      ensures outcome.InsufficientFunds? <==> Available(env, old(Model()), old(electrumx.ledger)) == []
      ensures !outcome.Sent? ==> electrumx.ledger == old(electrumx.ledger)
    {
      hide SignedTransaction, Chosen, Available, CountdownFits, SortByValue, Broadcast, AddressAt, Sum, ReadyToSign;
      ghost var before := Model();
      AdvanceReady(env, server, before, nonces);
      SendOutcome(env, server, before, electrumx.ledger, to, amount, nonces);
      var selected := SelectTxIn(amount, electrumx);
      if selected == [] {
        return InsufficientFunds;
      }
      var changeAddress := GetNewBitcoinAddress();
      var totalSelected := Sum(selected);
      var inputs := seq(|selected|, i requires 0 <= i < |selected| => TxIn(selected[i].outpoint, 0xFFFF_FFFF, NoWitness));
      var outputs := [TxOut(amount.satoshi, to), TxOut((totalSelected - amount.satoshi) % U64_LIMIT, changeAddress)];
      var transaction := Transaction(0, 0, inputs, outputs);
      assert transaction == Payment(env, before, to, amount.satoshi, selected);
      var signed := SignInputs(transaction, selected, server, nonces);
      if signed.None? {
        return Panicked;
      }
      var txid := electrumx.BroadcastTransaction(env, network, signed.value);
      outcome := if txid.Some? then Sent(txid.value) else Panicked;
    }
  }

  // ---------- sums over the watched addresses ----------

  function ConfirmedSum(ledger: seq<Coin>, addresses: seq<string>): nat {
    if addresses == [] then 0 else Confirmed(ledger, addresses[0]) + ConfirmedSum(ledger, addresses[1..])
  }

  function TotalSum(ledger: seq<Coin>, addresses: seq<string>): nat {
    if addresses == [] then 0 else Total(ledger, {addresses[0]}) + TotalSum(ledger, addresses[1..])
  }

  lemma {:induction false} SumsAppend(ledger: seq<Coin>, addresses: seq<string>, last: string)
    ensures ConfirmedSum(ledger, addresses + [last]) == ConfirmedSum(ledger, addresses) + Confirmed(ledger, last)
    ensures TotalSum(ledger, addresses + [last]) == TotalSum(ledger, addresses) + Total(ledger, {last})
  {
    if addresses != [] {
      assert (addresses + [last])[1..] == addresses[1..] + [last];
      SumsAppend(ledger, addresses[1..], last);
    }
  }

  lemma {:induction false} TotalSumIsTotal(ledger: seq<Coin>, addresses: seq<string>)
    requires forall i, j :: 0 <= i < j < |addresses| ==> addresses[i] != addresses[j]
    ensures TotalSum(ledger, addresses) == Total(ledger, set a | a in addresses)
  {
    hide UnspentAt;
    if addresses == [] {
      NothingAtNoAddress(ledger);
      assert (set a | a in addresses) == {};
    } else {
      var tail := addresses[1..];
      TotalSumIsTotal(ledger, tail);
      assert addresses == [addresses[0]] + tail;
      assert (set a | a in addresses) == {addresses[0]} + (set a | a in tail);
      DisjointTotal(ledger, {addresses[0]}, set a | a in tail);
    }
  }
}
