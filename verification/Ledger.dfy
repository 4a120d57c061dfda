/** The Electrum server's view of the chain: every output ever seen, whether its transaction is
    confirmed, and whether it has been spent (possibly by a transaction still unconfirmed). */
module Ledger {
  import opened Common
  import opened Selection

  datatype Coin = Coin(unspent: Unspent, confirmed: bool, spent: bool)

  /** No two outputs share an outpoint. */
  predicate WellFormed(ledger: seq<Coin>) {
    forall i, j :: 0 <= i < j < |ledger| ==> ledger[i].unspent.outpoint != ledger[j].unspent.outpoint
  }

  /** The unspent outputs held at a set of addresses, in ledger order. */
  function UnspentAt(ledger: seq<Coin>, addresses: set<string>): seq<Unspent> {
    if ledger == [] then []
    else (if !ledger[0].spent && ledger[0].unspent.address in addresses then [ledger[0].unspent] else [])
         + UnspentAt(ledger[1..], addresses)
  }

  function Total(ledger: seq<Coin>, addresses: set<string>): nat {
    Sum(UnspentAt(ledger, addresses))
  }

  /** What the confirmed chain alone says an address holds. */
  function Confirmed(ledger: seq<Coin>, address: string): nat {
    if ledger == [] then 0
    else (if ledger[0].confirmed && ledger[0].unspent.address == address then ledger[0].unspent.value else 0)
         + Confirmed(ledger[1..], address)
  }

  function Pending(coin: Coin, address: string): int {
    var value: int := coin.unspent.value;
    if coin.unspent.address != address then 0
    else if coin.confirmed then (if coin.spent then -value else 0)
    else (if coin.spent then 0 else value)
  }

  /** The effect of unconfirmed transactions on an address; negative when they spend from it. */
  function Unconfirmed(ledger: seq<Coin>, address: string): int {
    if ledger == [] then 0
    else Pending(ledger[0], address) + Unconfirmed(ledger[1..], address)
  }

  /** The two balances an Electrum server reports add up to the unspent outputs. */
  lemma {:induction false} BalanceIsUnspent(ledger: seq<Coin>, address: string)
    ensures Confirmed(ledger, address) + Unconfirmed(ledger, address) == Total(ledger, {address})
  {
    if ledger != [] {
      BalanceIsUnspent(ledger[1..], address);
      var head := if !ledger[0].spent && ledger[0].unspent.address in {address} then [ledger[0].unspent] else [];
      SumAppend(head, UnspentAt(ledger[1..], {address}));
      assert head != [] ==> head[1..] == [];
    }
  }

  function Find(ledger: seq<Coin>, outpoint: OutPoint): Option<Unspent> {
    if ledger == [] then None
    else if ledger[0].unspent.outpoint == outpoint then
      if ledger[0].spent then None else Some(ledger[0].unspent)
    else Find(ledger[1..], outpoint)
  }

  function Spend(ledger: seq<Coin>, outpoint: OutPoint): seq<Coin> {
    if ledger == [] then []
    else if ledger[0].unspent.outpoint == outpoint then [ledger[0].(spent := true)] + ledger[1..]
    else [ledger[0]] + Spend(ledger[1..], outpoint)
  }

  function SpendAll(ledger: seq<Coin>, outpoints: seq<OutPoint>): Option<seq<Coin>>
    decreases |outpoints|
  {
    if outpoints == [] then Some(ledger)
    else if Find(ledger, outpoints[0]).None? then None
    else SpendAll(Spend(ledger, outpoints[0]), outpoints[1..])
  }

  // ---------- what the listings mean ----------

  lemma {:induction false} UnspentExact(ledger: seq<Coin>, addresses: set<string>, u: Unspent)
    ensures u in UnspentAt(ledger, addresses) <==>
              u.address in addresses && exists i :: 0 <= i < |ledger| && ledger[i].unspent == u && !ledger[i].spent
  {
    if u in UnspentAt(ledger, addresses) { UnspentMember(ledger, addresses, u); }
    if i :| 0 <= i < |ledger| && ledger[i].unspent == u && !ledger[i].spent && u.address in addresses {
      if i > 0 {
        assert ledger[1..][i - 1] == ledger[i];
        UnspentExact(ledger[1..], addresses, u);
      }
    }
  }

  /** An outpoint is found exactly when the ledger holds it unspent. */
  lemma {:induction false} FindExact(ledger: seq<Coin>, outpoint: OutPoint, u: Unspent)
    requires WellFormed(ledger)
    ensures Find(ledger, outpoint) == Some(u) <==>
              u.outpoint == outpoint && exists i :: 0 <= i < |ledger| && ledger[i].unspent == u && !ledger[i].spent
  {
    if ledger != [] {
      var tail := ledger[1..];
      FindExact(tail, outpoint, u);
      if i :| 0 <= i < |ledger| && ledger[i].unspent == u && !ledger[i].spent && u.outpoint == outpoint {
        if i > 0 { assert tail[i - 1] == ledger[i]; }
      }
      if Find(tail, outpoint) == Some(u) {
        var i :| 0 <= i < |tail| && tail[i].unspent == u && !tail[i].spent;
        assert ledger[i + 1] == tail[i];
      }
      if Find(ledger, outpoint) == Some(u) && ledger[0].unspent.outpoint == outpoint { assert ledger[0].unspent == u; }
    }
  }

  /** Mining settles the balances: nothing is pending any more and the confirmed balance is what
      was unspent before. */
  lemma {:induction false} MinedBalance(ledger: seq<Coin>, address: string)
    ensures Unconfirmed(Mine(ledger), address) == 0
    ensures Confirmed(Mine(ledger), address) == Total(ledger, {address})
  {
    if ledger != [] {
      MinedBalance(ledger[1..], address);
      HeadTotal(ledger, {address});
      if ledger[0].spent {
        assert Mine(ledger) == Mine(ledger[1..]);
      } else {
        assert Mine(ledger)[1..] == Mine(ledger[1..]);
      }
    }
  }

  /** Spending and pending outputs never touch the confirmed balance. */
  lemma {:induction false} ConfirmedFixed(before: seq<Coin>, after: seq<Coin>, coins: seq<Coin>, address: string)
    requires |after| == |before|
    requires forall i :: 0 <= i < |before| ==> before[i].(spent := false) == after[i].(spent := false)
    requires forall i :: 0 <= i < |coins| ==> !coins[i].confirmed
    ensures Confirmed(after + coins, address) == Confirmed(before, address)
    decreases |before| + |coins|
  {
    if before != [] {
      assert forall i :: 0 <= i < |before| - 1 ==> before[1..][i] == before[i + 1] && after[1..][i] == after[i + 1];
      ConfirmedFixed(before[1..], after[1..], coins, address);
      assert before[0].(spent := false) == after[0].(spent := false);
      assert (after + coins)[1..] == after[1..] + coins;
    } else if coins != [] {
      ConfirmedFixed([], [], coins[1..], address);
      assert after + coins == coins && [] + coins[1..] == coins[1..];
    }
  }

  // ---------- facts about single coins ----------

  lemma {:induction false} UnspentMember(ledger: seq<Coin>, addresses: set<string>, u: Unspent)
    requires u in UnspentAt(ledger, addresses)
    ensures u.address in addresses && exists i :: 0 <= i < |ledger| && ledger[i].unspent == u && !ledger[i].spent
  {
    if u in UnspentAt(ledger[1..], addresses) {
      UnspentMember(ledger[1..], addresses, u);
      var i :| 0 <= i < |ledger[1..]| && ledger[1..][i].unspent == u && !ledger[1..][i].spent;
      assert ledger[i + 1].unspent == u;
    } else {
      assert ledger[0].unspent == u;
    }
  }

  lemma {:induction false} UnspentFound(ledger: seq<Coin>, addresses: set<string>, u: Unspent)
    requires WellFormed(ledger) && u in UnspentAt(ledger, addresses)
    ensures Find(ledger, u.outpoint) == Some(u) && multiset(UnspentAt(ledger, addresses))[u] == 1
  {
    var tail := ledger[1..];
    assert ledger == [ledger[0]] + tail;
    if u in UnspentAt(tail, addresses) {
      UnspentMember(tail, addresses, u);
      UnspentFound(tail, addresses, u);
    } else {
      assert u !in multiset(UnspentAt(tail, addresses));
    }
  }

  predicate Distinct(list: seq<Unspent>) {
    forall i, j :: 0 <= i < j < |list| ==> list[i].outpoint != list[j].outpoint
  }

  /** Whatever is drawn from the unspent outputs can be found in the ledger, each once. */
  lemma DrawnDistinct(ledger: seq<Coin>, addresses: set<string>, list: seq<Unspent>)
    requires WellFormed(ledger) && multiset(list) <= multiset(UnspentAt(ledger, addresses))
    ensures Distinct(list)
    ensures forall u :: u in list ==> u.address in addresses && Find(ledger, u.outpoint) == Some(u)
  {
    forall u | u in list
      ensures u.address in addresses && Find(ledger, u.outpoint) == Some(u)
      ensures multiset(list)[u] == 1
    {
      assert u in multiset(list) && u in multiset(UnspentAt(ledger, addresses));
      UnspentMember(ledger, addresses, u);
      UnspentFound(ledger, addresses, u);
    }
    forall i, j | 0 <= i < j < |list|
      ensures list[i].outpoint != list[j].outpoint
    {
      RepeatedTwice(list, i, j);
      assert list[i] in list && list[j] in list;
    }
  }

  lemma RepeatedTwice(list: seq<Unspent>, i: nat, j: nat)
    requires i < j < |list|
    ensures list[i] == list[j] ==> multiset(list)[list[i]] >= 2
  {
    assert list == list[..j] + [list[j]] + list[j + 1..];
    assert list[i] in list[..j];
  }

  // ---------- spending ----------

  lemma {:induction false} SpendOthers(ledger: seq<Coin>, outpoint: OutPoint)
    ensures |Spend(ledger, outpoint)| == |ledger|
    ensures forall i :: 0 <= i < |ledger| ==> Spend(ledger, outpoint)[i].unspent == ledger[i].unspent
    ensures forall other :: other != outpoint ==> Find(Spend(ledger, outpoint), other) == Find(ledger, other)
  {
    if ledger != [] && ledger[0].unspent.outpoint != outpoint {
      SpendOthers(ledger[1..], outpoint);
    }
  }

  lemma HeadTotal(ledger: seq<Coin>, addresses: set<string>)
    requires ledger != []
    ensures Total(ledger, addresses) == Total(ledger[1..], addresses)
            + if !ledger[0].spent && ledger[0].unspent.address in addresses then ledger[0].unspent.value else 0
  {
    var head := if !ledger[0].spent && ledger[0].unspent.address in addresses then [ledger[0].unspent] else [];
    SumAppend(head, UnspentAt(ledger[1..], addresses));
    assert head != [] ==> head[1..] == [];
  }

  lemma {:induction false} SpendTotal(ledger: seq<Coin>, outpoint: OutPoint, addresses: set<string>)
    requires Find(ledger, outpoint).Some?
    ensures var u := Find(ledger, outpoint).value;
            Total(Spend(ledger, outpoint), addresses)
            == Total(ledger, addresses) - if u.address in addresses then u.value else 0
  {
    HeadTotal(ledger, addresses);
    HeadTotal(Spend(ledger, outpoint), addresses);
    if ledger[0].unspent.outpoint != outpoint {
      SpendTotal(ledger[1..], outpoint, addresses);
    }
  }

  function OutPoints(list: seq<Unspent>): seq<OutPoint> {
    seq(|list|, i requires 0 <= i < |list| => list[i].outpoint)
  }

  /** Spending distinct unspent outputs of the given addresses succeeds and removes exactly their
      values from the total of any set of addresses that contains theirs. */
  lemma {:induction false} SpendAllTotal(ledger: seq<Coin>, list: seq<Unspent>, addresses: set<string>)
    requires WellFormed(ledger) && Distinct(list)
    requires forall u :: u in list ==> u.address in addresses && Find(ledger, u.outpoint) == Some(u)
    ensures SpendAll(ledger, OutPoints(list)).Some?
    ensures var after := SpendAll(ledger, OutPoints(list)).value;
            && |after| == |ledger| && (forall i :: 0 <= i < |ledger| ==> after[i].unspent == ledger[i].unspent)
            && Total(after, addresses) == Total(ledger, addresses) - Sum(list)
    decreases |list|
  {
    if list != [] {
      var u := list[0];
      assert u in list;
      SpendOthers(ledger, u.outpoint);
      SpendTotal(ledger, u.outpoint, addresses);
      assert OutPoints(list)[1..] == OutPoints(list[1..]);
      forall v | v in list[1..]
        ensures v.address in addresses && Find(Spend(ledger, u.outpoint), v.outpoint) == Some(v)
      {
        var i :| 0 <= i < |list[1..]| && list[1..][i] == v;
        assert v == list[i + 1] && v in list;
      }
      SpendAllTotal(Spend(ledger, u.outpoint), list[1..], addresses);
    }
  }

  lemma {:induction false} SpendAt(ledger: seq<Coin>, outpoint: OutPoint, k: nat)
    requires WellFormed(ledger) && k < |ledger|
    ensures |Spend(ledger, outpoint)| == |ledger|
    ensures Spend(ledger, outpoint)[k]
            == if ledger[k].unspent.outpoint == outpoint then ledger[k].(spent := true) else ledger[k]
  {
    SpendOthers(ledger, outpoint);
    if k > 0 && ledger[0].unspent.outpoint != outpoint { SpendAt(ledger[1..], outpoint, k - 1); }
  }

  lemma SpentLater(ledger: seq<Coin>, outpoint: OutPoint)
    requires WellFormed(ledger)
    ensures WellFormed(Spend(ledger, outpoint)) && Find(Spend(ledger, outpoint), outpoint) == None
  {
    SpendOthers(ledger, outpoint);
    var after := Spend(ledger, outpoint);
    assert forall i, j :: 0 <= i < j < |after| ==> ledger[i].unspent.outpoint != ledger[j].unspent.outpoint;
    if Find(after, outpoint).Some? {
      var u := Find(after, outpoint).value;
      FindExact(after, outpoint, u);
      var i :| 0 <= i < |after| && after[i].unspent == u && !after[i].spent;
      SpendAt(ledger, outpoint, i);
    }
  }

  predicate NoRepeats(outpoints: seq<OutPoint>) {
    forall i, j :: 0 <= i < j < |outpoints| ==> outpoints[i] != outpoints[j]
  }

  predicate AllFound(ledger: seq<Coin>, outpoints: seq<OutPoint>) {
    forall o :: o in outpoints ==> Find(ledger, o).Some?
  }

  lemma FirstRepeated(first: OutPoint, rest: seq<OutPoint>)
    ensures NoRepeats([first] + rest) <==> NoRepeats(rest) && first !in rest
  {
    var all := [first] + rest;
    forall i, j | NoRepeats(rest) && first !in rest && 0 <= i < j < |all|
      ensures all[i] != all[j]
    {
      assert all[j] == rest[j - 1];
    }
    forall i, j | NoRepeats(all) && 0 <= i < j < |rest|
      ensures rest[i] != rest[j]
    {
      assert all[i + 1] != all[j + 1];
    }
    if first in rest {
      var i :| 0 <= i < |rest| && rest[i] == first;
      assert all[0] == all[i + 1];
    }
  }

  lemma FirstFound(ledger: seq<Coin>, first: OutPoint, rest: seq<OutPoint>)
    requires WellFormed(ledger)
    ensures AllFound(Spend(ledger, first), rest) <==> first !in rest && AllFound(ledger, rest)
  {
    SpentLater(ledger, first);
    SpendOthers(ledger, first);
  }

  lemma SpendMarks(ledger: seq<Coin>, first: OutPoint)
    requires WellFormed(ledger)
    ensures WellFormed(Spend(ledger, first)) && |Spend(ledger, first)| == |ledger|
    ensures forall i :: 0 <= i < |ledger| ==>
              Spend(ledger, first)[i] == ledger[i].(spent := ledger[i].spent || ledger[i].unspent.outpoint == first)
  {
    SpentLater(ledger, first);
    SpendOthers(ledger, first);
    forall i | 0 <= i < |ledger|
      ensures Spend(ledger, first)[i] == ledger[i].(spent := ledger[i].spent || ledger[i].unspent.outpoint == first)
    {
      SpendAt(ledger, first, i);
    }
  }

  /** A list of outpoints can be spent exactly when they are all there, unspent, and none is repeated;
      and spending marks those coins and nothing else. */
  lemma {:induction false} SpendAllExact(ledger: seq<Coin>, outpoints: seq<OutPoint>)
    requires WellFormed(ledger)
    ensures SpendAll(ledger, outpoints).Some? <==> NoRepeats(outpoints) && AllFound(ledger, outpoints)
    ensures SpendAll(ledger, outpoints).Some? ==>
              var after := SpendAll(ledger, outpoints).value;
              && |after| == |ledger|
              && forall i :: 0 <= i < |ledger| ==>
                   after[i] == ledger[i].(spent := ledger[i].spent || ledger[i].unspent.outpoint in outpoints)
    decreases |outpoints|
  {
    hide Spend, Find, NoRepeats, WellFormed;
    if outpoints == [] {
      assert NoRepeats(outpoints) by { NothingRepeated(); }
    } else {
      var (first, rest) := (outpoints[0], outpoints[1..]);
      assert outpoints == [first] + rest;
      SpendMarks(ledger, first);
      FirstRepeated(first, rest);
      FirstFound(ledger, first, rest);
      SpendAllExact(Spend(ledger, first), rest);
      assert AllFound(ledger, outpoints) <==> Find(ledger, first).Some? && AllFound(ledger, rest);
    }
  }

  lemma NothingRepeated()
    ensures NoRepeats([])
  {
  }

  // ---------- sets of addresses ----------

  lemma {:induction false} AppendTotal(a: seq<Coin>, b: seq<Coin>, addresses: set<string>)
    ensures Total(a + b, addresses) == Total(a, addresses) + Total(b, addresses)
  {
    hide Total;
    if a == [] {
      assert a + b == b;
      EmptyTotal(addresses);
    } else {
      HeadTotal(a, addresses);
      HeadTotal(a + b, addresses);
      assert (a + b)[1..] == a[1..] + b;
      AppendTotal(a[1..], b, addresses);
    }
  }

  lemma EmptyTotal(addresses: set<string>)
    ensures Total([], addresses) == 0
  {
  }

  /** Disjoint sets of addresses hold disjoint outputs. */
  lemma {:induction false} DisjointTotal(ledger: seq<Coin>, a: set<string>, b: set<string>)
    requires a !! b
    ensures multiset(UnspentAt(ledger, a + b)) == multiset(UnspentAt(ledger, a)) + multiset(UnspentAt(ledger, b))
    ensures Total(ledger, a + b) == Total(ledger, a) + Total(ledger, b)
  {
    if ledger != [] {
      DisjointTotal(ledger[1..], a, b);
      HeadTotal(ledger, a);
      HeadTotal(ledger, b);
      HeadTotal(ledger, a + b);
    }
  }

  /** Addresses at which the ledger has no output add nothing. */
  lemma {:induction false} UnusedTotal(ledger: seq<Coin>, addresses: set<string>)
    requires forall c :: c in ledger ==> c.unspent.address !in addresses
    ensures Total(ledger, addresses) == 0
  {
    if ledger != [] {
      HeadTotal(ledger, addresses);
      assert forall c :: c in ledger[1..] ==> c in ledger;
      UnusedTotal(ledger[1..], addresses);
    }
  }

  /** A block confirms every pending transaction: spent outputs leave, the rest are confirmed. */
  function Mine(ledger: seq<Coin>): seq<Coin> {
    if ledger == [] then []
    else (if ledger[0].spent then [] else [ledger[0].(confirmed := true)]) + Mine(ledger[1..])
  }

  lemma {:induction false} MineKeepsUnspent(ledger: seq<Coin>, addresses: set<string>)
    ensures UnspentAt(Mine(ledger), addresses) == UnspentAt(ledger, addresses)
  {
    if ledger != [] {
      MineKeepsUnspent(ledger[1..], addresses);
      if ledger[0].spent {
        assert Mine(ledger) == Mine(ledger[1..]);
      } else {
        assert Mine(ledger)[1..] == Mine(ledger[1..]);
      }
    }
  }
}
