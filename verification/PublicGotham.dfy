/** The server's store: one flat map from composed string keys to serialised values, standing in
    for a separate table of each kind per customer and session. */
module PublicGotham {
  import opened Common

  datatype DbIndex = DbIndex(customerId: string, id: string)

  datatype Slot = Slot(index: DbIndex, table: string)

  /** The key of a slot: customer, session and table name joined by underscores. */
  function Idify(slot: Slot): string {
    slot.index.customerId + "_" + slot.index.id + "_" + slot.table
  }

  /** What precedes the table name in a key. */
  function Prefix(index: DbIndex): string {
    index.customerId + "_" + index.id + "_"
  }

  predicate NoUnderscore(s: string) {
    '_' !in s
  }

  predicate Plain(index: DbIndex) {
    NoUnderscore(index.customerId) && NoUnderscore(index.id)
  }

  class Store<V> {
    var rocksdb: map<string, V>
    /** Every write the server was asked for, with whether the database accepted it. */
    ghost var history: seq<Write<V>>

    ghost predicate Valid()
      reads this
    {
      rocksdb == WrittenAll(map[], history)
    }

    constructor ()
      ensures Valid() && history == []
    {
      rocksdb, history := map[], [];
    }

    /** Reports success whether or not the database accepted the write. */
    method Insert(key: DbIndex, table: string, value: V, accepted: bool) returns (ok: bool)
      requires Valid()
      modifies this
      ensures Valid() && ok && history == old(history) + [Write(Slot(key, table), value, accepted)]
      ensures rocksdb == if accepted then old(rocksdb)[key.customerId + "_" + key.id + "_" + table := value] else old(rocksdb)
    {
      var identifier := Idify(Slot(key, table));
      if accepted {
        rocksdb := rocksdb[identifier := value];
      }
      history := history + [Write(Slot(key, table), value, accepted)];
      ok := true;
    }

    /** What is read is the last value accepted under the composed key, and so what a table of its
        own would hold for that customer and session, unless another slot written shares the key. */
    method Get(key: DbIndex, table: string) returns (result: Option<V>)
      requires Valid()
      ensures result == LastUnderKey(history, Idify(Slot(key, table)))
      ensures Unshared(history, Slot(key, table)) ==> result == LastWritten(history, Slot(key, table))
    {
      var identifier := Idify(Slot(key, table));
      ReadsLastUnderKey(history, Slot(key, table));
      if Unshared(history, Slot(key, table)) { FlatRefinesTables(history, Slot(key, table)); }
      result := if identifier in rocksdb then Some(rocksdb[identifier]) else None;
    }
  }

  datatype Write<V> = Write(slot: Slot, value: V, accepted: bool)

  function Written<V>(db: map<string, V>, write: Write<V>): map<string, V> {
    if write.accepted then db[Idify(write.slot) := write.value] else db
  }

  function WrittenAll<V>(db: map<string, V>, writes: seq<Write<V>>): map<string, V> {
    if writes == [] then db
    else Written(WrittenAll(db, writes[..|writes| - 1]), writes[|writes| - 1])
  }

  function Read<V>(db: map<string, V>, slot: Slot): Option<V> {
    if Idify(slot) in db then Some(db[Idify(slot)]) else None
  }

  /** The last value the database accepted for a slot: what separate tables would hold. */
  function LastWritten<V>(writes: seq<Write<V>>, slot: Slot): Option<V> {
    if writes == [] then None
    else
      var last := writes[|writes| - 1];
      if last.accepted && last.slot == slot then Some(last.value) else LastWritten(writes[..|writes| - 1], slot)
  }

  /** The last value the database accepted under a composed key, from whichever slot. */
  function LastUnderKey<V>(writes: seq<Write<V>>, key: string): Option<V> {
    if writes == [] then None
    else
      var last := writes[|writes| - 1];
      if last.accepted && Idify(last.slot) == key then Some(last.value) else LastUnderKey(writes[..|writes| - 1], key)
  }

  /** No other slot that was written has the slot's key. */
  ghost predicate Unshared<V>(writes: seq<Write<V>>, slot: Slot) {
    forall w :: w in writes && Idify(w.slot) == Idify(slot) ==> w.slot == slot
  }

  // ---------- injectivity of the composed keys ----------

  lemma UnderscoreInside(a: string, x: string, b: string, y: string)
    requires a + "_" + x == b + "_" + y && |a| < |b|
    ensures '_' in b
  {
    assert (a + "_" + x)[|a|] == '_' && (b + "_" + y)[|a|] == b[|a|];
  }

  lemma FirstUnderscore(a: string, x: string, b: string, y: string)
    requires NoUnderscore(a) && NoUnderscore(b) && a + "_" + x == b + "_" + y
    ensures a == b && x == y
  {
    if |a| < |b| { UnderscoreInside(a, x, b, y); }
    if |b| < |a| { UnderscoreInside(b, y, a, x); }
    assert a == (a + "_" + x)[..|a|] && b == (b + "_" + y)[..|b|];
    assert x == (a + "_" + x)[|a| + 1..] && y == (b + "_" + y)[|b| + 1..];
  }

  /** Without underscores in the customer and session ids, keys determine their slots, whatever the
      table names. */
  lemma IdifyInjective(a: Slot, b: Slot)
    requires Plain(a.index) && Plain(b.index) && Idify(a) == Idify(b)
    ensures a == b
  {
    var (x, y) := (a.index.id + "_" + a.table, b.index.id + "_" + b.table);
    assert Idify(a) == a.index.customerId + "_" + x;
    assert Idify(b) == b.index.customerId + "_" + y;
    FirstUnderscore(a.index.customerId, x, b.index.customerId, y);
    FirstUnderscore(a.index.id, a.table, b.index.id, b.table);
  }

  lemma PrefixOf(s: string, t: string)
    requires s <= t
    ensures exists rest :: t == s + rest
  {
    assert t == s + t[|s|..];
  }

  /** Exactly when slots of two different sessions can share a key for some table names: when one
      session's key prefix is a prefix of the other's. */
  lemma CollisionIff(a: DbIndex, b: DbIndex)
    ensures (exists s, t :: Idify(Slot(a, s)) == Idify(Slot(b, t))) <==> Prefix(a) <= Prefix(b) || Prefix(b) <= Prefix(a)
  {
    forall s, t | Idify(Slot(a, s)) == Idify(Slot(b, t))
      ensures Prefix(a) <= Prefix(b) || Prefix(b) <= Prefix(a)
    {
      var key := Idify(Slot(a, s));
      assert key == Prefix(a) + s == Prefix(b) + t;
      assert key[..|Prefix(a)|] == Prefix(a) && key[..|Prefix(b)|] == Prefix(b);
    }
    if Prefix(a) <= Prefix(b) {
      PrefixOf(Prefix(a), Prefix(b));
      var rest :| Prefix(b) == Prefix(a) + rest;
      assert Idify(Slot(a, rest)) == Idify(Slot(b, ""));
    } else if Prefix(b) <= Prefix(a) {
      PrefixOf(Prefix(b), Prefix(a));
      var rest :| Prefix(a) == Prefix(b) + rest;
      assert Idify(Slot(a, "")) == Idify(Slot(b, rest));
    }
  }

  /** In one and the same table two sessions collide exactly when their key prefixes are equal. */
  lemma SameTableCollisionIff(a: DbIndex, b: DbIndex, table: string)
    ensures Idify(Slot(a, table)) == Idify(Slot(b, table)) <==> Prefix(a) == Prefix(b)
  {
    var (x, y) := (Idify(Slot(a, table)), Idify(Slot(b, table)));
    assert x == Prefix(a) + table && y == Prefix(b) + table;
    assert x[..|Prefix(a)|] == Prefix(a) && y[..|Prefix(b)|] == Prefix(b);
  }

  lemma PrefixEndsFirst(a: DbIndex, s: string, b: DbIndex, t: string)
    requires Prefix(a) + s == Prefix(b) + t && |Prefix(a)| < |Prefix(b)|
    ensures '_' in s
  {
    var end := |Prefix(b)| - 1;
    assert (Prefix(b) + t)[end] == '_';
    assert s[end - |Prefix(a)|] == '_';
  }

  /** For tables whose names have no underscore, whatever the ids look like, a key determines the
      table and the key prefix, and nothing more. */
  lemma KeysEqualIff(a: Slot, b: Slot)
    requires NoUnderscore(a.table) && NoUnderscore(b.table)
    ensures Idify(a) == Idify(b) <==> Prefix(a.index) == Prefix(b.index) && a.table == b.table
  {
    var (x, y) := (Idify(a), Idify(b));
    assert x == Prefix(a.index) + a.table && y == Prefix(b.index) + b.table;
    if x == y {
      if |Prefix(a.index)| < |Prefix(b.index)| { PrefixEndsFirst(a.index, a.table, b.index, b.table); }
      if |Prefix(b.index)| < |Prefix(a.index)| { PrefixEndsFirst(b.index, b.table, a.index, a.table); }
      assert x[..|Prefix(a.index)|] == Prefix(a.index) && y[..|Prefix(b.index)|] == Prefix(b.index);
      assert x[|Prefix(a.index)|..] == a.table && y[|Prefix(b.index)|..] == b.table;
    }
  }

  /** With underscores two different sessions can collide even in the same table. */
  lemma UnderscoresCollide()
    ensures var (a, b) := (Slot(DbIndex("a_b", "c"), "t"), Slot(DbIndex("a", "b_c"), "t"));
            a.index != b.index && Idify(a) == Idify(b)
  {
    assert "a_b" + "_" + "c" + "_" + "t" == "a" + "_" + "b_c" + "_" + "t";
  }

  // ---------- refinement of separate tables ----------

  lemma {:induction false} ReadsLastUnderKey<V>(writes: seq<Write<V>>, slot: Slot)
    ensures Read(WrittenAll(map[], writes), slot) == LastUnderKey(writes, Idify(slot))
    decreases |writes|
  {
    if writes != [] { ReadsLastUnderKey(writes[..|writes| - 1], slot); }
  }

  /** After any sequence of writes, reading a slot whose key no other written slot shares gives the
      last value the database accepted for exactly that customer, session and table, and nothing
      otherwise. */
  lemma {:induction false} FlatRefinesTables<V>(writes: seq<Write<V>>, slot: Slot)
    requires Unshared(writes, slot)
    ensures Read(WrittenAll(map[], writes), slot) == LastWritten(writes, slot)
    decreases |writes|
  {
    if writes != [] {
      var (before, last) := (writes[..|writes| - 1], writes[|writes| - 1]);
      assert last in writes && forall w :: w in before ==> w in writes;
      FlatRefinesTables(before, slot);
    }
  }

  /** For plain ids no two slots share a key, whatever the table names. */
  lemma PlainUnshared<V>(writes: seq<Write<V>>, slot: Slot)
    requires Plain(slot.index) && forall w :: w in writes ==> Plain(w.slot.index)
    ensures Unshared(writes, slot)
  {
    forall w | w in writes && Idify(w.slot) == Idify(slot)
      ensures w.slot == slot
    {
      IdifyInjective(w.slot, slot);
    }
  }

  ghost predicate ReadsAsTables<V>(writes: seq<Write<V>>, slot: Slot) {
    Read(WrittenAll(map[], writes), slot) == LastWritten(writes, slot)
  }

  ghost predicate Within<V>(writes: seq<Write<V>>, slots: iset<Slot>) {
    forall w :: w in writes ==> w.slot in slots
  }

  /** The flat map behaves like separate tables on a collection of slots, whatever is written, if
      and only if no two of them have the same key. */
  lemma RefinementIff<V(!new)>(slots: iset<Slot>, v: V)
    ensures (forall writes: seq<Write<V>>, slot :: slot in slots && Within(writes, slots) ==> ReadsAsTables(writes, slot))
            <==> (forall a, b :: a in slots && b in slots && Idify(a) == Idify(b) ==> a == b)
  {
    if forall a, b :: a in slots && b in slots && Idify(a) == Idify(b) ==> a == b {
      forall writes: seq<Write<V>>, slot | slot in slots && Within(writes, slots)
        ensures ReadsAsTables(writes, slot)
      {
        FlatRefinesTables(writes, slot);
      }
    } else {
      var a, b :| a in slots && b in slots && Idify(a) == Idify(b) && a != b;
      var writes := [Write(a, v, true)];
      SharedKeyLeaks(a, b, v);
      assert Within(writes, slots);
    }
  }

  lemma SharedKeyLeaks<V>(a: Slot, b: Slot, v: V)
    requires Idify(a) == Idify(b) && a != b
    ensures !ReadsAsTables([Write(a, v, true)], b)
  {
    var writes := [Write(a, v, true)];
    assert writes[..0] == [] && LastWritten<V>([], b) == None;
    assert WrittenAll(map[], writes) == map[Idify(a) := v];
  }
}
