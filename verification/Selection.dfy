/** Greedy coin selection: sort the spendable outputs by value and take them, smallest first,
    until their total exceeds the target. */
module Selection {
  import opened Common

  datatype OutPoint = OutPoint(txid: string, vout: nat)

  datatype Unspent = Unspent(outpoint: OutPoint, value: nat, address: string)

  function Sum(list: seq<Unspent>): nat {
    if list == [] then 0 else list[0].value + Sum(list[1..])
  }

  // ---------- sorting ----------

  predicate Sorted(list: seq<Unspent>) {
    forall i, j :: 0 <= i < j < |list| ==> list[i].value <= list[j].value
  }

  /** A stable sort by value: an output goes before the later ones it equals. */
  function SortByValue(list: seq<Unspent>): (r: seq<Unspent>)
    ensures Sorted(r) && multiset(r) == multiset(list) && |r| == |list|
  {
    if list == [] then [] else
      assert list == [list[0]] + list[1..];
      Insert(list[0], SortByValue(list[1..]))
  }

  function Insert(u: Unspent, list: seq<Unspent>): (r: seq<Unspent>)
    requires Sorted(list)
    ensures Sorted(r) && multiset(r) == multiset(list) + multiset{u} && |r| == |list| + 1
    ensures r[0] == u || (list != [] && r[0] == list[0])
  {
    if list == [] then [u]
    else if u.value <= list[0].value then
      SortedCons(u, list);
      [u] + list
    else
      MultisetCons(list);
      var rest := Insert(u, list[1..]);
      SortedCons(list[0], rest);
      [list[0]] + rest
  }

  lemma SortedCons(u: Unspent, list: seq<Unspent>)
    requires Sorted(list) && (list != [] ==> u.value <= list[0].value)
    ensures Sorted([u] + list)
  {
  }

  function WithValue(list: seq<Unspent>, value: nat): seq<Unspent> {
    if list == [] then []
    else (if list[0].value == value then [list[0]] else []) + WithValue(list[1..], value)
  }

  lemma Exchanged(u: Unspent, v: Unspent, list: seq<Unspent>, value: nat)
    requires u.value != v.value
    ensures (if v.value == value then [v] else []) + ((if u.value == value then [u] else []) + list)
            == (if u.value == value then [u] else []) + ((if v.value == value then [v] else []) + list)
  {
  }

  lemma WithValueCons(u: Unspent, list: seq<Unspent>, value: nat)
    ensures WithValue([u] + list, value) == (if u.value == value then [u] else []) + WithValue(list, value)
  {
    assert ([u] + list)[1..] == list;
  }

  lemma InsertStep(u: Unspent, list: seq<Unspent>)
    requires Sorted(list)
    ensures Insert(u, list) == if list == [] || u.value <= list[0].value then [u] + list else [list[0]] + Insert(u, list[1..])
  {
  }

  lemma {:induction false} InsertStable(u: Unspent, list: seq<Unspent>, value: nat)
    requires Sorted(list)
    ensures WithValue(Insert(u, list), value) == (if u.value == value then [u] else []) + WithValue(list, value)
  {
    assert list != [] ==> Sorted(list[1..]);
    hide WithValue, Insert, Sorted;
    InsertStep(u, list);
    if list == [] || u.value <= list[0].value {
      WithValueCons(u, list, value);
    } else {
      var tail := list[1..];
      InsertStable(u, tail, value);
      WithValueCons(list[0], tail, value);
      WithValueCons(list[0], Insert(u, tail), value);
      assert list == [list[0]] + tail;
      Exchanged(u, list[0], WithValue(tail, value), value);
    }
  }

  /** Outputs of equal value keep their order. With sortedness and the multiset that determines the
      sorted list. */
  lemma {:induction false} SortStable(list: seq<Unspent>, value: nat)
    ensures WithValue(SortByValue(list), value) == WithValue(list, value)
  {
    if list != [] {
      SortStable(list[1..], value);
      InsertStable(list[0], SortByValue(list[1..]), value);
    }
  }

  // ---------- the greedy rule ----------

  /** What the selection loop keeps of a list when `remaining` is still to be covered. */
  function Take(list: seq<Unspent>, remaining: int): seq<Unspent> {
    if list == [] then []
    else if remaining - list[0].value < 0 then [list[0]]
    else [list[0]] + Take(list[1..], remaining - list[0].value)
  }

  /** Every value that the countdown takes and every remainder it reaches fits an i64. */
  predicate CountdownFits(list: seq<Unspent>, remaining: int) {
    FitsI64(remaining) &&
    (list == [] ||
     (FitsI64(list[0].value) && FitsI64(remaining - list[0].value)
      && (remaining - list[0].value < 0 || CountdownFits(list[1..], remaining - list[0].value))))
  }

  /** A non-negative target and outputs whose values fit never overflow, whatever they add up to. */
  lemma {:induction false} NoOverflow(list: seq<Unspent>, target: int)
    requires 0 <= target < 0x8000_0000_0000_0000 && forall u :: u in list ==> u.value < 0x8000_0000_0000_0000
    ensures CountdownFits(list, target)
  {
    if list != [] {
      assert list[0] in list;
      assert forall u :: u in list[1..] ==> u in list;
      if target - list[0].value >= 0 { NoOverflow(list[1..], target - list[0].value); }
    }
  }

  function Select(spendable: seq<Unspent>, target: int): seq<Unspent> {
    Take(SortByValue(spendable), target)
  }

  lemma {:induction false} SumAppend(a: seq<Unspent>, b: seq<Unspent>)
    ensures Sum(a + b) == Sum(a) + Sum(b)
  {
    if a == [] {
      assert a + b == b;
    } else {
      assert (a + b)[1..] == a[1..] + b;
      SumAppend(a[1..], b);
    }
  }

  lemma PrefixSum(list: seq<Unspent>, j: nat)
    requires 1 <= j <= |list|
    ensures list[..j] == [list[0]] + list[1..][..j - 1]
    ensures Sum(list[..j]) == list[0].value + Sum(list[1..][..j - 1])
  {
    assert list[..j][1..] == list[1..][..j - 1];
  }

  /** The loop keeps a prefix; every shorter nonempty prefix is within the target, and only the
      whole list can end within it. */
  lemma {:induction false} TakePrefix(list: seq<Unspent>, target: int)
    ensures var k := |Take(list, target)|;
            && k <= |list| && Take(list, target) == list[..k]
            && (forall j :: 1 <= j < k ==> Sum(list[..j]) <= target)
            && (list != [] ==> k >= 1)
            && (list != [] && Sum(list[..k]) <= target ==> k == |list|)
  {
    if list != [] && target - list[0].value >= 0 {
      TakePrefix(list[1..], target - list[0].value);
      var k := |Take(list, target)|;
      forall j | 1 <= j < k
        ensures Sum(list[..j]) <= target
      {
        PrefixSum(list, j);
        if j == 1 { assert list[1..][..0] == []; }
      }
      PrefixSum(list, k);
    } else if list != [] {
      PrefixSum(list, 1);
      assert list[1..][..0] == [];
    }
  }

  // ---------- exchange argument ----------

  function RemoveAt(list: seq<Unspent>, i: nat): seq<Unspent>
    requires i < |list|
  {
    list[..i] + list[i + 1..]
  }

  lemma MultisetCons(list: seq<Unspent>)
    requires list != []
    ensures multiset(list) == multiset(list[1..]) + multiset{list[0]}
  {
    assert list == [list[0]] + list[1..];
  }

  lemma MultisetRemove(list: seq<Unspent>, i: nat)
    requires i < |list|
    ensures multiset(list) == multiset(RemoveAt(list, i)) + multiset{list[i]}
  {
    assert list == list[..i] + [list[i]] + list[i + 1..];
  }

  lemma MultisetCancel(a: multiset<Unspent>, b: multiset<Unspent>, u: Unspent)
    requires a + multiset{u} <= b + multiset{u}
    ensures a <= b
  {
    forall x
      ensures a[x] <= b[x]
    {
      assert (a + multiset{u})[x] <= (b + multiset{u})[x];
    }
  }

  lemma {:induction false} SumRemove(list: seq<Unspent>, i: nat)
    requires i < |list|
    ensures Sum(list) == list[i].value + Sum(RemoveAt(list, i))
  {
    if i == 0 {
      assert RemoveAt(list, 0) == list[1..];
    } else {
      SumRemove(list[1..], i - 1);
      assert RemoveAt(list, i)[1..] == RemoveAt(list[1..], i - 1);
    }
  }

  /** Removing an element from a sorted list lowers the prefix sum by at most that element. */
  lemma PrefixAfterRemoval(list: seq<Unspent>, i: nat, k: nat)
    requires Sorted(list) && i < |list| && 0 < k <= |list|
    ensures Sum(list[..k]) <= list[i].value + Sum(RemoveAt(list, i)[..k - 1])
  {
    var last := if i < k then i else k - 1;
    SumRemove(list[..k], last);
    assert RemoveAt(list[..k], last) == RemoveAt(list, i)[..k - 1];
    assert list[last].value <= list[i].value;
  }

  lemma SortedRemoval(list: seq<Unspent>, i: nat)
    requires Sorted(list) && i < |list|
    ensures Sorted(RemoveAt(list, i))
  {
  }

  /** Any k outputs of a sorted list weigh at least as much as its first k. */
  lemma {:induction false} PrefixIsLightest(list: seq<Unspent>, some: seq<Unspent>)
    requires Sorted(list) && multiset(some) <= multiset(list) && |some| <= |list|
    ensures Sum(list[..|some|]) <= Sum(some)
    decreases |some|
  {
    hide RemoveAt, Sorted;
    if some != [] {
      var u := some[0];
      MultisetCons(some);
      assert u in multiset(list);
      var i :| 0 <= i < |list| && list[i] == u;
      SumRemove(list, i);
      MultisetRemove(list, i);
      MultisetCancel(multiset(some[1..]), multiset(RemoveAt(list, i)), u);
      SortedRemoval(list, i);
      assert |multiset(list)| == |list| && |multiset(RemoveAt(list, i))| == |RemoveAt(list, i)|;
      PrefixIsLightest(RemoveAt(list, i), some[1..]);
      PrefixAfterRemoval(list, i, |some|);
    } else {
      assert list[..0] == [];
    }
  }

  /** Every choice of k spendable outputs exceeds the target. */
  ghost predicate AllExceed(spendable: seq<Unspent>, target: int, k: nat) {
    forall some :: multiset(some) <= multiset(spendable) && |some| == k ==> Sum(some) > target
  }

  lemma PrefixMultiset(list: seq<Unspent>, k: nat)
    requires k <= |list|
    ensures multiset(list[..k]) <= multiset(list)
  {
    assert list == list[..k] + list[k..];
  }

  lemma AllExceedIff(spendable: seq<Unspent>, target: int, k: nat)
    requires k <= |spendable|
    ensures AllExceed(spendable, target, k) <==> Sum(SortByValue(spendable)[..k]) > target
  {
    hide SortByValue, Sum;
    var sorted := SortByValue(spendable);
    PrefixMultiset(sorted, k);
    assert |sorted[..k]| == k;
    forall some | multiset(some) <= multiset(spendable) && |some| == k
      ensures Sum(sorted[..k]) <= Sum(some)
    {
      PrefixIsLightest(sorted, some);
    }
  }

  /** Exact characterisation of the selection. It is drawn from the spendable outputs. It exceeds
      the target precisely when some count does for every choice of that many outputs; its size is
      then the least such positive count and no choice of that size is lighter. Otherwise it is
      all the spendable outputs and their total is within the target. */
  lemma GreedyExact(spendable: seq<Unspent>, target: int)
    ensures var chosen := Select(spendable, target);
            && multiset(chosen) <= multiset(spendable)
            && (chosen == [] <==> spendable == [])
            && (forall some :: multiset(some) <= multiset(spendable) && |some| == |chosen| ==> Sum(chosen) <= Sum(some))
            && (forall j :: 1 <= j < |chosen| ==> !AllExceed(spendable, target, j))
            && (Sum(chosen) > target ==> AllExceed(spendable, target, |chosen|))
            && (chosen != [] && Sum(chosen) <= target ==>
                  multiset(chosen) == multiset(spendable) && Sum(chosen) == Sum(SortByValue(spendable))
                  && forall j :: 1 <= j <= |spendable| ==> !AllExceed(spendable, target, j))
  {
    var sorted := SortByValue(spendable);
    var chosen := Select(spendable, target);
    TakePrefix(sorted, target);
    PrefixMultiset(sorted, |chosen|);
    AllExceedIff(spendable, target, |chosen|);
    forall some | multiset(some) <= multiset(spendable) && |some| == |chosen|
      ensures Sum(chosen) <= Sum(some)
    {
      PrefixIsLightest(sorted, some);
    }
    forall j | 1 <= j < |chosen|
      ensures !AllExceed(spendable, target, j)
    {
      AllExceedIff(spendable, target, j);
    }
    if chosen != [] && Sum(chosen) <= target {
      assert chosen == sorted;
      AllExceedIff(spendable, target, |spendable|);
    }
  }

  lemma {:induction false} SumOfMultiset(a: seq<Unspent>, b: seq<Unspent>)
    requires multiset(a) == multiset(b)
    ensures Sum(a) == Sum(b)
    decreases |a|
  {
    hide RemoveAt;
    assert |a| == |multiset(a)| == |b|;
    if a != [] {
      assert a[0] in multiset(b);
      var i :| 0 <= i < |b| && b[i] == a[0];
      SumRemove(b, i);
      MultisetRemove(b, i);
      MultisetCons(a);
      MultisetCancel(multiset(a[1..]), multiset(RemoveAt(b, i)), a[0]);
      MultisetCancel(multiset(RemoveAt(b, i)), multiset(a[1..]), a[0]);
      SumOfMultiset(a[1..], RemoveAt(b, i));
    }
  }

  lemma SelectionWithin(spendable: seq<Unspent>, target: int)
    ensures Sum(Select(spendable, target)) <= Sum(spendable)
    ensures Sum(Select(spendable, target)) <= target || spendable == [] ==>
              Sum(Select(spendable, target)) == Sum(spendable)
  {
    hide SortByValue, Take, Sorted;
    var sorted := SortByValue(spendable);
    SumOfMultiset(sorted, spendable);
    TakePrefix(sorted, target);
    var k := |Take(sorted, target)|;
    assert sorted == sorted[..k] + sorted[k..];
    SumAppend(sorted[..k], sorted[k..]);
    assert k == |sorted| ==> sorted[k..] == [];
  }

  lemma {:induction false} PrefixesGrow(list: seq<Unspent>, j: nat, k: nat)
    requires j <= k <= |list|
    ensures Sum(list[..j]) <= Sum(list[..k])
  {
    assert list[..k] == list[..j] + list[j..k];
    SumAppend(list[..j], list[j..k]);
  }

  /** The funds reach the amount, and every count of outputs that is sure to exceed the target is
      also sure to reach the amount. */
  ghost predicate TargetServes(spendable: seq<Unspent>, target: int, amount: int) {
    && Sum(spendable) >= amount
    && forall k :: 1 <= k <= |spendable| && AllExceed(spendable, target, k) ==> AllExceed(spendable, amount - 1, k)
  }

  /** The same, read off the sorted values: no prefix sum lies strictly between target and amount. */
  ghost predicate NoSumBetween(spendable: seq<Unspent>, target: int, amount: int) {
    && Sum(spendable) >= amount
    && forall k :: 1 <= k <= |spendable| ==> !(target < Sum(SortByValue(spendable)[..k]) < amount)
  }

  lemma TargetServesIff(spendable: seq<Unspent>, target: int, amount: int)
    ensures TargetServes(spendable, target, amount) <==> NoSumBetween(spendable, target, amount)
  {
    hide AllExceed, SortByValue, Sum, Sorted;
    forall k | 1 <= k <= |spendable|
      ensures AllExceed(spendable, target, k) <==> Sum(SortByValue(spendable)[..k]) > target
      ensures AllExceed(spendable, amount - 1, k) <==> Sum(SortByValue(spendable)[..k]) >= amount
    {
      AllExceedIff(spendable, target, k);
      AllExceedIff(spendable, amount - 1, k);
    }
  }

  /** Exactly when a selection made for one number covers another: for every target and amount, in
      terms of the spendable outputs alone. */
  lemma CoversIff(spendable: seq<Unspent>, target: int, amount: int)
    ensures Sum(Select(spendable, target)) >= amount <==> NoSumBetween(spendable, target, amount)
    ensures Sum(Select(spendable, target)) >= amount <==> TargetServes(spendable, target, amount)
  {
    hide SortByValue, Take, Sorted, AllExceed;
    TargetServesIff(spendable, target, amount);
    SelectionWithin(spendable, target);
    var sorted := SortByValue(spendable);
    TakePrefix(sorted, target);
    var chosen := |Take(sorted, target)|;
    forall k | 1 <= k <= |sorted|
      ensures k < chosen ==> Sum(sorted[..k]) <= target
      ensures k >= chosen ==> Sum(sorted[..k]) >= Sum(sorted[..chosen])
    {
      if k >= chosen { PrefixesGrow(sorted, chosen, k); }
    }
  }

  /** In particular, when the target is the amount itself, a selection covers it if and only if the
      spendable funds do. */
  lemma SelectionCovers(spendable: seq<Unspent>, amount: nat)
    ensures Sum(Select(spendable, amount)) >= amount <==> Sum(spendable) >= amount
  {
    hide Select, SortByValue, Sum;
    CoversIff(spendable, amount, amount);
  }

  /** The target counts whole bitcoins only, so for a fractional amount the selection can fall
      short although the funds suffice: 1.5 BTC from outputs of 1.2 and 5 BTC selects 1.2. */
  lemma FractionFallsShort()
    ensures var spendable := [Unspent(OutPoint("a", 0), 120000000, "p"), Unspent(OutPoint("b", 0), 500000000, "p")];
            Sum(spendable) >= 150000000 > Sum(Select(spendable, 100000000))
  {
    var u, v := Unspent(OutPoint("a", 0), 120000000, "p"), Unspent(OutPoint("b", 0), 500000000, "p");
    var spendable := [u, v];
    assert spendable[1..] == [v] && [v][1..] == [];
    assert SortByValue([v]) == [v] && SortByValue(spendable) == [u, v];
    assert Take([u, v], 100000000) == [u];
    assert [u][1..] == [];
  }
}
