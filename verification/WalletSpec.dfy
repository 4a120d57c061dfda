/** What the Bitcoin wallet's operations mean, as functions of the wallet state and the ledger,
    and the theorems about them. The class in BitcoinWallet.dfy is proved against these. */
module WalletSpec {
  import opened Common
  import opened NumberTheory
  import opened Ecdsa
  import opened MasterKeys
  import opened TwoPartySigning
  import opened BigEndian
  import opened Selection
  import opened Ledger
  import opened Chain

  datatype AddressDerivation = AddressDerivation(pos: nat, mk: MasterKey2)

  datatype Wallet = Wallet(
    network: string, share: PrivateShare, last: nat, derivations: map<string, AddressDerivation>)

  // ---------- addresses ----------

  function Child(env: Env, share: PrivateShare, pos: nat): MasterKey2
    requires 2 <= env.pr.q
  {
    GetChild2(env.pr, share.masterKey, [0, pos])
  }

  function AddressAt(env: Env, network: string, share: PrivateShare, pos: nat): string
    requires 2 <= env.pr.q
  {
    env.address(network, Child(env, share, pos).pub)
  }

  /** The derivation map of positions 1 to last. */
  function MapUpTo(env: Env, network: string, share: PrivateShare, last: nat): map<string, AddressDerivation>
    requires 2 <= env.pr.q
  {
    if last == 0 then map[]
    else MapUpTo(env, network, share, last - 1)
           [AddressAt(env, network, share, last) := AddressDerivation(last, Child(env, share, last))]
  }

  /** The addresses the wallet watches: positions 0 to last. */
  function ScanList(env: Env, network: string, share: PrivateShare, last: nat): seq<string>
    requires 2 <= env.pr.q
  {
    seq(last + 1, i requires 0 <= i => AddressAt(env, network, share, i))
  }

  function Owned(env: Env, w: Wallet): set<string>
    requires 2 <= env.pr.q
  {
    set a | a in ScanList(env, w.network, w.share, w.last)
  }

  /** Children at different positions below the u32 limit have different public keys. */
  ghost predicate InjectiveDerivation(env: Env, share: PrivateShare)
    requires 2 <= env.pr.q
  {
    forall i, j :: 0 <= i < j < U32_LIMIT ==> Child(env, share, i).pub != Child(env, share, j).pub
  }

  lemma ChildInRange(env: Env, share: PrivateShare, pos: nat)
    requires 2 <= env.pr.q
    ensures 0 <= Child(env, share, pos).pub < env.pr.q
  {
    var step := ChildStep2(env.pr, share.masterKey, 0);
    assert [0, pos][1..] == [pos] && [pos][1..] == [];
    assert Child(env, share, pos) == GetChild2(env.pr, step, [pos]) == ChildStep2(env.pr, step, pos);
  }

  lemma AddressesDiffer(env: Env, network: string, share: PrivateShare, i: nat, j: nat)
    requires env.Valid() && InjectiveDerivation(env, share) && i < U32_LIMIT && j < U32_LIMIT
    ensures AddressAt(env, network, share, i) == AddressAt(env, network, share, j) ==> i == j
  {
    ChildInRange(env, share, i);
    ChildInRange(env, share, j);
  }

  /** Each entry sits under the address of its position and holds the child key there. */
  ghost predicate Sound(env: Env, network: string, share: PrivateShare, m: map<string, AddressDerivation>)
    requires 2 <= env.pr.q
  {
    forall a :: a in m ==> a == AddressAt(env, network, share, m[a].pos) && m[a].mk == Child(env, share, m[a].pos)
  }

  lemma {:induction false} MapSound(env: Env, network: string, share: PrivateShare, last: nat)
    requires 2 <= env.pr.q
    ensures Sound(env, network, share, MapUpTo(env, network, share, last))
    ensures forall a :: a in MapUpTo(env, network, share, last) ==> 1 <= MapUpTo(env, network, share, last)[a].pos <= last
  {
    if last != 0 { MapSound(env, network, share, last - 1); }
  }

  lemma {:induction false} MapComplete(env: Env, network: string, share: PrivateShare, last: nat, p: nat)
    requires env.Valid() && InjectiveDerivation(env, share) && 1 <= p <= last < U32_LIMIT
    ensures var a := AddressAt(env, network, share, p);
            a in MapUpTo(env, network, share, last) && MapUpTo(env, network, share, last)[a].pos == p
  {
    if p != last {
      AddressesDiffer(env, network, share, p, last);
      MapComplete(env, network, share, last - 1, p);
    }
  }

  lemma FreshKeySize(m: map<string, AddressDerivation>, key: string, value: AddressDerivation)
    requires key !in m
    ensures |m[key := value]| == |m| + 1
  {
    assert m[key := value].Keys == m.Keys + {key};
  }

  lemma FreshAddress(env: Env, network: string, share: PrivateShare, last: nat, pos: nat)
    requires env.Valid() && InjectiveDerivation(env, share) && last < pos < U32_LIMIT
    ensures AddressAt(env, network, share, pos) !in MapUpTo(env, network, share, last)
  {
    MapSound(env, network, share, last);
    var m := MapUpTo(env, network, share, last);
    forall a | a in m
      ensures a != AddressAt(env, network, share, pos)
    {
      AddressesDiffer(env, network, share, m[a].pos, pos);
    }
  }

  lemma {:induction false} MapSize(env: Env, network: string, share: PrivateShare, last: nat)
    requires env.Valid() && InjectiveDerivation(env, share) && last < U32_LIMIT
    ensures |MapUpTo(env, network, share, last)| == last
  {
    hide AddressAt, Child;
    if last != 0 {
      MapSize(env, network, share, last - 1);
      FreshAddress(env, network, share, last - 1, last);
      FreshKeySize(MapUpTo(env, network, share, last - 1), AddressAt(env, network, share, last),
                   AddressDerivation(last, Child(env, share, last)));
    }
  }

  /** The map holds exactly the addresses of positions 1 to last, each with its position and the
      child key there, and no two positions share an address. */
  lemma MapExact(env: Env, network: string, share: PrivateShare, last: nat)
    requires env.Valid() && InjectiveDerivation(env, share) && last < U32_LIMIT
    ensures var m := MapUpTo(env, network, share, last);
            && |m| == last
            && (forall p :: 1 <= p <= last ==>
                  var a := AddressAt(env, network, share, p);
                  a in m && m[a] == AddressDerivation(p, Child(env, share, p)))
            && (forall a :: a in m ==> 1 <= m[a].pos <= last && a == AddressAt(env, network, share, m[a].pos))
  {
    hide AddressAt, Child, MapUpTo;
    MapSound(env, network, share, last);
    MapSize(env, network, share, last);
    var m := MapUpTo(env, network, share, last);
    forall p | 1 <= p <= last
      ensures var a := AddressAt(env, network, share, p);
              a in m && m[a] == AddressDerivation(p, Child(env, share, p))
    {
      MapComplete(env, network, share, last, p);
    }
  }

  /** Watched addresses are those in the map and the one at position 0, all distinct. */
  lemma ScanExact(env: Env, network: string, share: PrivateShare, last: nat)
    requires env.Valid() && InjectiveDerivation(env, share) && last < U32_LIMIT
    ensures var list := ScanList(env, network, share, last);
            && (set a | a in list) == MapUpTo(env, network, share, last).Keys + {AddressAt(env, network, share, 0)}
            && (forall i, j :: 0 <= i < j < |list| ==> list[i] != list[j])
            && AddressAt(env, network, share, 0) !in MapUpTo(env, network, share, last)
  {
    var list := ScanList(env, network, share, last);
    var m := MapUpTo(env, network, share, last);
    MapExact(env, network, share, last);
    forall i, j | 0 <= i < j < |list|
      ensures list[i] != list[j]
    {
      AddressesDiffer(env, network, share, i, j);
    }
    forall a | a in m
      ensures a in list && a != AddressAt(env, network, share, 0)
    {
      assert list[m[a].pos] == a;
      AddressesDiffer(env, network, share, 0, m[a].pos);
    }
    forall a | a in list
      ensures a in m.Keys + {AddressAt(env, network, share, 0)}
    {
      var i :| 0 <= i < |list| && list[i] == a;
    }
    assert list[0] == AddressAt(env, network, share, 0);
  }

  /** The wallet's addresses, spelled out: position p has the address of the child key at [0, p];
      the scan covers positions 0 to last in order, without repetition; and the map holds exactly
      positions 1 to last, each with that key. */
  lemma AddressesExact(env: Env, w: Wallet, p: nat)
    requires Consistent(env, w) && InjectiveDerivation(env, w.share) && p <= w.last
    ensures var list := ScanList(env, w.network, w.share, w.last);
            && |list| == w.last + 1 && (forall i, j :: 0 <= i < j < |list| ==> list[i] != list[j])
            && list[p] == env.address(w.network, GetChild2(env.pr, w.share.masterKey, [0, p]).pub)
            && Owned(env, w) == (set a | a in list)
    ensures var key := GetChild2(env.pr, w.share.masterKey, [0, p]);
            var a := env.address(w.network, key.pub);
            && |w.derivations| == w.last
            && (a in w.derivations <==> p != 0)
            && (a in w.derivations ==> w.derivations[a] == AddressDerivation(p, key))
  {
    hide GetChild2, MapUpTo, InjectiveDerivation;
    MapExact(env, w.network, w.share, w.last);
    ScanExact(env, w.network, w.share, w.last);
    assert AddressAt(env, w.network, w.share, p) == env.address(w.network, GetChild2(env.pr, w.share.masterKey, [0, p]).pub);
  }

  // ---------- spending ----------

  /** The unspent outputs of the watched addresses that have a confirmed balance. */
  function Spendable(ledger: seq<Coin>, addresses: seq<string>): seq<Unspent> {
    if addresses == [] then []
    else (if Confirmed(ledger, addresses[0]) > 0 then UnspentAt(ledger, {addresses[0]}) else [])
         + Spendable(ledger, addresses[1..])
  }

  function Funded(ledger: seq<Coin>, addresses: seq<string>): set<string> {
    set a | a in addresses && Confirmed(ledger, a) > 0
  }

  lemma {:induction false} SpendableIsUnspent(ledger: seq<Coin>, addresses: seq<string>)
    requires forall i, j :: 0 <= i < j < |addresses| ==> addresses[i] != addresses[j]
    ensures multiset(Spendable(ledger, addresses)) == multiset(UnspentAt(ledger, Funded(ledger, addresses)))
  {
    hide Confirmed, UnspentAt;
    if addresses == [] {
      NothingAtNoAddress(ledger);
      assert Funded(ledger, addresses) == {};
    } else {
      var tail := addresses[1..];
      SpendableIsUnspent(ledger, tail);
      assert addresses == [addresses[0]] + tail;
      if Confirmed(ledger, addresses[0]) > 0 {
        assert Funded(ledger, addresses) == {addresses[0]} + Funded(ledger, tail);
        DisjointTotal(ledger, {addresses[0]}, Funded(ledger, tail));
      } else {
        assert Funded(ledger, addresses) == Funded(ledger, tail);
      }
    }
  }

  lemma SpendableStep(ledger: seq<Coin>, list: seq<string>)
    ensures Spendable(ledger, []) == []
    ensures list != [] ==>
              Spendable(ledger, list)
              == (if Confirmed(ledger, list[0]) > 0 then UnspentAt(ledger, {list[0]}) else []) + Spendable(ledger, list[1..])
  {
  }

  /** Position by position: what one address contributes, and in which order. */
  lemma {:induction false} SpendableAppend(ledger: seq<Coin>, a: seq<string>, b: seq<string>)
    ensures Spendable(ledger, a + b) == Spendable(ledger, a) + Spendable(ledger, b)
    ensures |a| == 1 ==> Spendable(ledger, a) == if Confirmed(ledger, a[0]) > 0 then UnspentAt(ledger, {a[0]}) else []
  {
    hide Spendable, Confirmed, UnspentAt;
    SpendableStep(ledger, a);
    if a == [] {
      assert a + b == b;
    } else {
      SpendableStep(ledger, a + b);
      assert (a + b)[1..] == a[1..] + b && (a + b)[0] == a[0];
      SpendableAppend(ledger, a[1..], b);
    }
  }

  lemma {:induction false} NothingAtNoAddress(ledger: seq<Coin>)
    ensures UnspentAt(ledger, {}) == []
  {
    if ledger != [] { NothingAtNoAddress(ledger[1..]); }
  }

  /** What the user asks for: the whole bitcoins that the selection targets, and the satoshis sent. */
  datatype Amount = Amount(whole: int, satoshi: nat) {
    function Target(): int { whole * 100_000_000 }
  }

  /** Everything a payment can draw on. */
  function Available(env: Env, w: Wallet, ledger: seq<Coin>): seq<Unspent>
    requires 2 <= env.pr.q
  {
    Spendable(ledger, ScanList(env, w.network, w.share, w.last))
  }

  function Chosen(env: Env, w: Wallet, ledger: seq<Coin>, amount: Amount): seq<Unspent>
    requires 2 <= env.pr.q
  {
    Select(Available(env, w, ledger), amount.Target())
  }

  /** Handing out the next address; the position is a u32 and wraps. */
  function Advance(env: Env, w: Wallet): Wallet
    requires 2 <= env.pr.q
  {
    var pos := (w.last + 1) % U32_LIMIT;
    w.(last := pos,
       derivations := w.derivations[AddressAt(env, w.network, w.share, pos) := AddressDerivation(pos, Child(env, w.share, pos))])
  }

  /** The unsigned transaction: pay the recipient and return the rest, a u64 difference. */
  function Unsigned(chosen: seq<Unspent>, to: string, satoshi: nat, change: string): Transaction {
    Transaction(0, 0,
      seq(|chosen|, i requires 0 <= i < |chosen| => TxIn(chosen[i].outpoint, 0xFFFF_FFFF, NoWitness)),
      [TxOut(satoshi, to), TxOut((Sum(chosen) - satoshi) % U64_LIMIT, change)])
  }

  /** The randomness of each signature: the server's and the client's. */
  type Nonces = nat -> (int, ClientNonce)

  /** Every stored key is the child of the master key at the stored position. */
  ghost predicate Stored(env: Env, w: Wallet)
    requires 2 <= env.pr.q
  {
    forall a :: a in w.derivations ==> w.derivations[a].mk == Child(env, w.share, w.derivations[a].pos)
  }

  /** The server holds the key that matches the wallet's, and all randomness is in range. */
  ghost predicate ReadyToSign(env: Env, server: MasterKey1, w: Wallet, nonces: Nonces) {
    && env.Valid() && Matches(env.pr, server, w.share.masterKey) && Stored(env, w)
    && forall i: nat :: GoodNonces(env.pr, server.paillier, nonces(i).0, nonces(i).1)
  }

  /** The compact form of the concatenated encodings as a witness; None where it is rejected. */
  function EncodeWitness(q: int, sig: Signature, key: Point): Option<Witness>
    requires 0 <= sig.r && 0 <= sig.s
  {
    match FromCompact(q, ToVec(sig.r) + ToVec(sig.s))
    case Some((r, s)) => Some(Witness(r, s, SIGHASH_ALL, key))
    case None => None
  }

  /** What the signing loop puts on one input: nothing when no key is stored for the address, when
      the server refuses, or when the encoding is rejected. */
  function InputWitness(env: Env, server: MasterKey1, w: Wallet, tx: Transaction, item: Unspent, i: nat, nonces: Nonces): Option<Witness>
    requires ReadyToSign(env, server, w, nonces)
  {
    if item.address !in w.derivations then None
    else
      var derivation := w.derivations[item.address];
      var (mk, path) := (derivation.mk, [0, derivation.pos]);
      DerivationMatches(env.pr, server, w.share.masterKey, path);
      SignedChildVerifies(env.pr, GetChild1(env.pr, server, path), mk, nonces(i).0, nonces(i).1,
                          env.sighash(tx, i, mk.pub, item.value));
      match Sign(env.pr, GetChild1(env.pr, server, path), mk, nonces(i).0, nonces(i).1,
                 env.sighash(tx, i, mk.pub, item.value))
      case None => None
      case Some(sig) => EncodeWitness(env.pr.q, sig, mk.pub)
  }

  /** The transaction with every input's witness in place. */
  function SignedTransaction(env: Env, server: MasterKey1, w: Wallet, tx: Transaction, chosen: seq<Unspent>, nonces: Nonces): Option<Transaction>
    requires ReadyToSign(env, server, w, nonces) && |tx.inputs| == |chosen|
  {
    if forall i :: 0 <= i < |chosen| ==> InputWitness(env, server, w, tx, chosen[i], i, nonces).Some? then
      Some(tx.(inputs := seq(|chosen|, i requires 0 <= i < |chosen| =>
        tx.inputs[i].(unlock := InputWitness(env, server, w, tx, chosen[i], i, nonces).value))))
    else None
  }

  lemma AdvanceReady(env: Env, server: MasterKey1, w: Wallet, nonces: Nonces)
    requires ReadyToSign(env, server, w, nonces)
    ensures ReadyToSign(env, server, Advance(env, w), nonces)
  {
  }

  datatype Outcome = Sent(txid: string) | InsufficientFunds | Panicked

  function ChangeAddress(env: Env, w: Wallet): string
    requires 2 <= env.pr.q
  {
    AddressAt(env, w.network, w.share, (w.last + 1) % U32_LIMIT)
  }

  function Payment(env: Env, w: Wallet, to: string, satoshi: nat, chosen: seq<Unspent>): Transaction
    requires 2 <= env.pr.q
  {
    Unsigned(chosen, to, satoshi, ChangeAddress(env, w))
  }

  /** The whole of send: the wallet, the ledger and the outcome afterwards. */
  function Send(env: Env, server: MasterKey1, w: Wallet, ledger: seq<Coin>, to: string, amount: Amount, nonces: Nonces)
    : (Wallet, seq<Coin>, Outcome)
    requires ReadyToSign(env, server, w, nonces)
  {
    AdvanceReady(env, server, w, nonces);
    var chosen := Chosen(env, w, ledger, amount);
    if chosen == [] then (w, ledger, InsufficientFunds)
    else
      var next := Advance(env, w);
      match SignedTransaction(env, server, next, Payment(env, w, to, amount.satoshi, chosen), chosen, nonces)
      case None => (next, ledger, Panicked)
      case Some(tx) =>
        match Broadcast(env, w.network, ledger, tx)
        case None => (next, ledger, Panicked)
        case Some(after) => (next, after, Sent(env.txid(Strip(tx))))
  }

  // ---------- what a witness is worth ----------

  /** The signing equation s * k = e + r * x of the ephemeral key k, for the key with private key x,
      is solved by an r and an s that both need 32 bytes. */
  ghost predicate FullWidthSignature(pr: Primitives, key: Point, k: int, e: int)
    requires 2 <= pr.q
  {
    exists r: nat, s: nat :: pr.Signs(k, key, e, r, s) && s < pr.q && FullWidth(r) && FullWidth(s)
  }

  /** An input is signed exactly when its address is stored and the signing equation for the key at
      the stored position has a full-width solution; the witness holds it and verifies under that key. */
  lemma InputWitnessExact(env: Env, server: MasterKey1, w: Wallet, tx: Transaction, item: Unspent, i: nat, nonces: Nonces)
    requires ReadyToSign(env, server, w, nonces)
    ensures InputWitness(env, server, w, tx, item, i, nonces).Some? <==>
              item.address in w.derivations &&
              var key := GetChild2(env.pr, w.share.masterKey, [0, w.derivations[item.address].pos]).pub;
              FullWidthSignature(env.pr, key, (nonces(i).0 * nonces(i).1.k2) % env.pr.q, env.sighash(tx, i, key, item.value))
    ensures InputWitness(env, server, w, tx, item, i, nonces).Some? ==>
              var witn := InputWitness(env, server, w, tx, item, i, nonces).value;
              var key := GetChild2(env.pr, w.share.masterKey, [0, w.derivations[item.address].pos]).pub;
              var e := env.sighash(tx, i, key, item.value);
              && witn.Witness? && witn.hashType == 1 && witn.key == key
              && env.pr.Signs((nonces(i).0 * nonces(i).1.k2) % env.pr.q, key, e, witn.r, witn.s)
              && env.pr.Verify(key, e, witn.r, witn.s)
  {
    hide Sign, EcdsaSign, Primitives.Verify, Primitives.Signs, GetChild1, GetChild2, WideKey, ToVec, FromCompact;
    if item.address in w.derivations {
      var derivation := w.derivations[item.address];
      var (mk, path) := (derivation.mk, [0, derivation.pos]);
      DerivationMatches(env.pr, server, w.share.masterKey, path);
      var e := env.sighash(tx, i, mk.pub, item.value);
      var mk1 := GetChild1(env.pr, server, path);
      SignedChildVerifies(env.pr, mk1, mk, nonces(i).0, nonces(i).1, e);
      FullWidthIff(env.pr, mk1, mk, nonces(i).0, nonces(i).1, e);
      var signed := Sign(env.pr, mk1, mk, nonces(i).0, nonces(i).1, e);
      if signed.Some? {
        ConcatenationIff(env.pr.q, signed.value.r, signed.value.s);
      }
    }
  }

  lemma FullWidthIff(pr: Primitives, mk1: MasterKey1, mk2: MasterKey2, k1: int, eph: ClientNonce, e: int)
    requires Matches(pr, mk1, mk2) && GoodNonces(pr, mk1.paillier, k1, eph)
    ensures 0 < mk2.n
    ensures var k := (k1 * eph.k2) % pr.q;
            var signed := Sign(pr, mk1, mk2, k1, eph, e);
            && (FullWidthSignature(pr, mk2.pub, k, e) <==>
                  signed.Some? && FullWidth(signed.value.r) && FullWidth(signed.value.s))
            && (signed.Some? ==> pr.Signs(k, mk2.pub, e, signed.value.r, signed.value.s))
  {
    hide Sign, Primitives.Signs, WideKey;
    SignExact(pr, mk1, mk2, k1, eph, e);
    var k := (k1 * eph.k2) % pr.q;
    PowPositive(256, 31);
    var signed := Sign(pr, mk1, mk2, k1, eph, e);
    if FullWidthSignature(pr, mk2.pub, k, e) {
      var r: nat, s: nat :| pr.Signs(k, mk2.pub, e, r, s) && s < pr.q && FullWidth(r) && FullWidth(s);
      var sig := Signature(r, s, pr.parity(k));
      assert signed == Some(sig);
    }
    if signed.Some? {
      var sig := signed.value;
      assert signed == Some(sig);
      SignedChildVerifies(pr, mk1, mk2, k1, eph, e);
    }
  }

  lemma StrippedSigned(env: Env, server: MasterKey1, w: Wallet, tx: Transaction, chosen: seq<Unspent>, nonces: Nonces)
    requires ReadyToSign(env, server, w, nonces) && |tx.inputs| == |chosen| && Strip(tx) == tx
    requires SignedTransaction(env, server, w, tx, chosen, nonces).Some?
    ensures var signed := SignedTransaction(env, server, w, tx, chosen, nonces).value;
            Strip(signed) == tx && Previous(signed) == Previous(tx) && signed.outputs == tx.outputs
  {
    var signed := SignedTransaction(env, server, w, tx, chosen, nonces).value;
    forall i | 0 <= i < |chosen|
      ensures Strip(signed).inputs[i] == tx.inputs[i]
    {
      assert tx.inputs[i] == Strip(tx).inputs[i];
    }
    assert Strip(signed).inputs == tx.inputs;
  }

  // ---------- when a payment is accepted ----------

  /** The map is the one of positions 1 to last, and last is a u32. */
  ghost predicate Consistent(env: Env, w: Wallet) {
    env.Valid() && w.last < U32_LIMIT && w.derivations == MapUpTo(env, w.network, w.share, w.last)
  }

  lemma OutputsBalance(total: nat, satoshi: nat, to: string, change: string)
    requires total < U64_LIMIT && satoshi < U64_LIMIT
    ensures var outputs := [TxOut(satoshi, to), TxOut((total - satoshi) % U64_LIMIT, change)];
            && OutputTotal(outputs) == satoshi + (total - satoshi) % U64_LIMIT
            && (OutputTotal(outputs) <= total <==> satoshi <= total)
            && (satoshi <= total ==> OutputTotal(outputs) == total)
  {
    var outputs := [TxOut(satoshi, to), TxOut((total - satoshi) % U64_LIMIT, change)];
    assert outputs[1..] == [outputs[1]] && [outputs[1]][1..] == [];
    assert OutputTotal([outputs[1]]) == outputs[1].value;
  }

  lemma SignedInputValid(env: Env, server: MasterKey1, w: Wallet, ledger: seq<Coin>, tx: Transaction, chosen: seq<Unspent>,
                         nonces: Nonces, i: nat)
    requires ReadyToSign(env, server, w, nonces) && Sound(env, w.network, w.share, w.derivations)
    requires |tx.inputs| == |chosen| && Strip(tx) == tx && Previous(tx) == OutPoints(chosen)
    requires i < |chosen| && Find(ledger, chosen[i].outpoint) == Some(chosen[i])
    requires SignedTransaction(env, server, w, tx, chosen, nonces).Some?
    ensures InputValid(env, w.network, ledger, SignedTransaction(env, server, w, tx, chosen, nonces).value, i)
  {
    hide InputWitness, SignedTransaction, Find, GetChild2, Strip, Previous, FullWidthSignature;
    var signed := SignedTransaction(env, server, w, tx, chosen, nonces).value;
    StrippedSigned(env, server, w, tx, chosen, nonces);
    InputWitnessExact(env, server, w, tx, chosen[i], i, nonces);
    SignedInput(env, server, w, tx, chosen, nonces, i);
  }

  lemma SignedInput(env: Env, server: MasterKey1, w: Wallet, tx: Transaction, chosen: seq<Unspent>, nonces: Nonces, i: nat)
    requires ReadyToSign(env, server, w, nonces) && |tx.inputs| == |chosen| && Previous(tx) == OutPoints(chosen)
    requires i < |chosen| && SignedTransaction(env, server, w, tx, chosen, nonces).Some?
    ensures var input := SignedTransaction(env, server, w, tx, chosen, nonces).value.inputs[i];
            && input.previous == chosen[i].outpoint
            && InputWitness(env, server, w, tx, chosen[i], i, nonces) == Some(input.unlock)
  {
    hide InputWitness;
    assert tx.inputs[i].previous == Previous(tx)[i] == OutPoints(chosen)[i];
  }

  /** Once signed, a payment of distinct unspent outputs is accepted exactly when the selection
      covers the amount. */
  lemma SignedAccepted(env: Env, server: MasterKey1, w: Wallet, ledger: seq<Coin>, chosen: seq<Unspent>,
                       to: string, satoshi: nat, change: string, nonces: Nonces)
    requires ReadyToSign(env, server, w, nonces) && Sound(env, w.network, w.share, w.derivations)
    requires WellFormed(ledger) && Distinct(chosen) && chosen != []
    requires forall u :: u in chosen ==> Find(ledger, u.outpoint) == Some(u)
    requires Sum(chosen) < U64_LIMIT && satoshi < U64_LIMIT
    requires FreshId(ledger, env.txid(Unsigned(chosen, to, satoshi, change)))
    requires SignedTransaction(env, server, w, Unsigned(chosen, to, satoshi, change), chosen, nonces).Some?
    ensures var signed := SignedTransaction(env, server, w, Unsigned(chosen, to, satoshi, change), chosen, nonces).value;
            Accepts(env, w.network, ledger, signed) <==> satoshi <= Sum(chosen)
  {
    hide SignedTransaction, InputValid, SpendAll, Sum, InputTotal, OutputTotal, Find, Sound;
    var tx := Unsigned(chosen, to, satoshi, change);
    UnsignedShape(chosen, to, satoshi, change);
    StrippedSigned(env, server, w, tx, chosen, nonces);
    SpendAllTotal(ledger, chosen, set u | u in chosen :: u.address);
    InputTotalSum(ledger, chosen);
    OutputsBalance(Sum(chosen), satoshi, to, change);
    var signed := SignedTransaction(env, server, w, tx, chosen, nonces).value;
    assert |Previous(signed)| == |signed.inputs|;
    assert 2 <= env.pr.q;
    forall i | 0 <= i < |signed.inputs|
      ensures InputValid(env, w.network, ledger, signed, i)
    {
      assert chosen[i] in chosen;
      SignedInputValid(env, server, w, ledger, tx, chosen, nonces, i);
    }
  }

  lemma UnsignedShape(chosen: seq<Unspent>, to: string, satoshi: nat, change: string)
    ensures var tx := Unsigned(chosen, to, satoshi, change);
            Strip(tx) == tx && Previous(tx) == OutPoints(chosen) && |tx.inputs| == |chosen|
  {
    var tx := Unsigned(chosen, to, satoshi, change);
    assert Strip(tx).inputs == tx.inputs;
    assert Previous(tx) == OutPoints(chosen);
  }

  /** The chosen outputs are distinct, unspent and at watched addresses. */
  lemma ChosenSound(env: Env, w: Wallet, ledger: seq<Coin>, amount: Amount)
    requires Consistent(env, w) && InjectiveDerivation(env, w.share) && WellFormed(ledger)
    ensures var chosen := Chosen(env, w, ledger, amount);
            && Distinct(chosen) && Sum(chosen) <= Total(ledger, Owned(env, w))
            && forall u :: u in chosen ==> u.address in Owned(env, w) && Find(ledger, u.outpoint) == Some(u)
  {
    var list := ScanList(env, w.network, w.share, w.last);
    var chosen := Chosen(env, w, ledger, amount);
    ScanExact(env, w.network, w.share, w.last);
    SpendableIsUnspent(ledger, list);
    GreedyExact(Spendable(ledger, list), amount.Target());
    DrawnDistinct(ledger, Funded(ledger, list), chosen);
    SpendAllTotal(ledger, chosen, Owned(env, w));
  }

  /** What the theorems about send ask of the wallet, the chain and the request. */
  ghost predicate SendReady(env: Env, server: MasterKey1, w: Wallet, ledger: seq<Coin>, to: string, amount: Amount, nonces: Nonces) {
    && ReadyToSign(env, server, w, nonces) && Consistent(env, w) && w.last + 1 < U32_LIMIT
    && InjectiveDerivation(env, w.share)
    && WellFormed(ledger) && Total(ledger, Owned(env, w)) < U64_LIMIT && amount.satoshi < U64_LIMIT
    && FreshId(ledger, env.txid(Payment(env, w, to, amount.satoshi, Chosen(env, w, ledger, amount))))
  }

  /** The signature needed for the i-th chosen output, under the key of the address that locks it. */
  ghost predicate InputEncodable(env: Env, w: Wallet, tx: Transaction, chosen: seq<Unspent>, i: nat, nonces: Nonces)
    requires 2 <= env.pr.q && i < |chosen| && chosen[i].address in w.derivations
  {
    var key := GetChild2(env.pr, w.share.masterKey, [0, w.derivations[chosen[i].address].pos]).pub;
    FullWidthSignature(env.pr, key, (nonces(i).0 * nonces(i).1.k2) % env.pr.q, env.sighash(tx, i, key, chosen[i].value))
  }

  lemma AdvanceConsistent(env: Env, w: Wallet)
    requires Consistent(env, w)
    ensures Consistent(env, Advance(env, w)) <==> w.last + 1 < 0x1_0000_0000
    ensures Sound(env, w.network, w.share, Advance(env, w).derivations)
  {
    hide AddressAt, Child;
    MapSound(env, w.network, w.share, w.last);
    var next := Advance(env, w);
    if w.last + 1 == U32_LIMIT {
      assert AddressAt(env, w.network, w.share, 0) in next.derivations;
    }
  }

  /** Issuing an address: the next position, or 0 when the u32 wraps, with its child key. */
  lemma AdvanceExact(env: Env, w: Wallet)
    requires 2 <= env.pr.q && w.last < 0x1_0000_0000
    ensures var pos := if w.last == 0xFFFF_FFFF then 0 else w.last + 1;
            var key := GetChild2(env.pr, w.share.masterKey, [0, pos]);
            && ChangeAddress(env, w) == env.address(w.network, key.pub)
            && Advance(env, w) == w.(last := pos, derivations := w.derivations[ChangeAddress(env, w) := AddressDerivation(pos, key)])
  {
    hide GetChild2;
  }

  /** An owned address is stored unless it is the one at position 0. */
  lemma OwnedStored(env: Env, w: Wallet, address: string)
    requires Consistent(env, w) && InjectiveDerivation(env, w.share) && w.last + 1 < U32_LIMIT
    requires address in Owned(env, w)
    ensures address in w.derivations <==> address != AddressAt(env, w.network, w.share, 0)
    ensures address in Advance(env, w).derivations <==> address in w.derivations
    ensures address in w.derivations ==> Advance(env, w).derivations[address] == w.derivations[address]
    ensures ChangeAddress(env, w) !in Owned(env, w)
  {
    hide AddressAt, Child, InjectiveDerivation, ScanList;
    ScanExact(env, w.network, w.share, w.last);
    FreshAddress(env, w.network, w.share, w.last, w.last + 1);
    AddressesDiffer(env, w.network, w.share, 0, w.last + 1);
  }

  /** What is available, in terms of the ledger alone: the unspent outputs at the addresses of
      positions 0 to last that have a confirmed balance, each once. */
  lemma AvailableExact(env: Env, w: Wallet, ledger: seq<Coin>, u: Unspent)
    requires Consistent(env, w) && InjectiveDerivation(env, w.share) && WellFormed(ledger)
    ensures Distinct(Available(env, w, ledger))
    ensures u in Available(env, w, ledger) <==>
              && (exists i :: 0 <= i < |ledger| && ledger[i].unspent == u && !ledger[i].spent)
              && (exists p :: 0 <= p <= w.last && u.address == env.address(w.network, GetChild2(env.pr, w.share.masterKey, [0, p]).pub))
              && Confirmed(ledger, u.address) > 0
  {
    hide GetChild2, MapUpTo, InjectiveDerivation, WellFormed, UnspentAt, Confirmed;
    var list := ScanList(env, w.network, w.share, w.last);
    ScanExact(env, w.network, w.share, w.last);
    SpendableIsUnspent(ledger, list);
    DrawnDistinct(ledger, Funded(ledger, list), Available(env, w, ledger));
    UnspentExact(ledger, Funded(ledger, list), u);
    assert u in Available(env, w, ledger) <==> u in multiset(UnspentAt(ledger, Funded(ledger, list)));
    forall p | 0 <= p <= w.last
      ensures list[p] == env.address(w.network, GetChild2(env.pr, w.share.masterKey, [0, p]).pub)
    {
    }
  }

  /** When the selection is nonempty and covers the amount, in terms of what is available. */
  lemma ChosenCovers(env: Env, w: Wallet, ledger: seq<Coin>, amount: Amount)
    requires 2 <= env.pr.q
    ensures Chosen(env, w, ledger, amount) == [] <==> Available(env, w, ledger) == []
    ensures amount.satoshi <= Sum(Chosen(env, w, ledger, amount)) <==>
              NoSumBetween(Available(env, w, ledger), amount.whole * 100_000_000, amount.satoshi)
    ensures amount.satoshi == amount.whole * 100_000_000 ==>
              (amount.satoshi <= Sum(Chosen(env, w, ledger, amount)) <==> amount.satoshi <= Sum(Available(env, w, ledger)))
  {
    hide Available, Select, Sum, SortByValue;
    GreedyExact(Available(env, w, ledger), amount.Target());
    CoversIff(Available(env, w, ledger), amount.Target(), amount.satoshi);
  }

  /** Exactly when send succeeds: something is available; it adds up to the amount, and taking it
      smallest first the running total never lands strictly between the target and the amount;
      nothing selected is at the unissued position 0; and every input's signature is full width. */
  lemma SendExact(env: Env, server: MasterKey1, w: Wallet, ledger: seq<Coin>, to: string, amount: Amount, nonces: Nonces)
    requires SendReady(env, server, w, ledger, to, amount, nonces)
    ensures var chosen := Chosen(env, w, ledger, amount);
            var tx := Payment(env, w, to, amount.satoshi, chosen);
            Send(env, server, w, ledger, to, amount, nonces).2.Sent? <==>
              && Available(env, w, ledger) != []
              && NoSumBetween(Available(env, w, ledger), amount.whole * 100_000_000, amount.satoshi)
              && forall i :: 0 <= i < |chosen| ==>
                   && chosen[i].address != AddressAt(env, w.network, w.share, 0)
                   && chosen[i].address in w.derivations
                   && InputEncodable(env, w, tx, chosen, i, nonces)
  {
    hide Chosen, InputWitness, Accepts, AddressAt, Child, Sum, InjectiveDerivation, WellFormed, Find, Distinct, Owned;
    hide Available, NoSumBetween;
    AdvanceReady(env, server, w, nonces);
    AdvanceConsistent(env, w);
    ChosenCovers(env, w, ledger, amount);
    ChosenSound(env, w, ledger, amount);
    var chosen := Chosen(env, w, ledger, amount);
    var next := Advance(env, w);
    var tx := Payment(env, w, to, amount.satoshi, chosen);
    UnsignedShape(chosen, to, amount.satoshi, ChangeAddress(env, w));
    forall i | 0 <= i < |chosen|
      ensures InputWitness(env, server, next, tx, chosen[i], i, nonces).Some? <==>
                && chosen[i].address != AddressAt(env, w.network, w.share, 0)
                && chosen[i].address in w.derivations
                && InputEncodable(env, w, tx, chosen, i, nonces)
    {
      InputWitnessExact(env, server, next, tx, chosen[i], i, nonces);
      OwnedStored(env, w, chosen[i].address);
    }
    if chosen != [] && SignedTransaction(env, server, next, tx, chosen, nonces).Some? {
      SignedAccepted(env, server, next, ledger, chosen, to, amount.satoshi, ChangeAddress(env, w), nonces);
    }
  }

  /** What send answers and leaves behind, in every case: the id of the transaction it built, an
      untouched wallet when nothing is available, a wallet one address further otherwise, and an
      untouched ledger unless the payment went out. */
  lemma SendOutcome(env: Env, server: MasterKey1, w: Wallet, ledger: seq<Coin>, to: string, amount: Amount, nonces: Nonces)
    requires ReadyToSign(env, server, w, nonces)
    ensures var (next, after, outcome) := Send(env, server, w, ledger, to, amount, nonces);
            && (outcome.Sent? ==> outcome.txid == env.txid(Payment(env, w, to, amount.satoshi, Chosen(env, w, ledger, amount))))
            && (outcome.InsufficientFunds? <==> Available(env, w, ledger) == [])
            && next == (if outcome.InsufficientFunds? then w else Advance(env, w))
            && (!outcome.Sent? ==> after == ledger)
  {
    hide Chosen, Available, SignedTransaction, Broadcast, Unsigned, AddressAt, Strip, Previous, Advance, NoSumBetween;
    AdvanceReady(env, server, w, nonces);
    ChosenCovers(env, w, ledger, amount);
    var chosen := Chosen(env, w, ledger, amount);
    var tx := Payment(env, w, to, amount.satoshi, chosen);
    UnsignedShape(chosen, to, amount.satoshi, ChangeAddress(env, w));
    if SignedTransaction(env, server, Advance(env, w), tx, chosen, nonces).Some? {
      StrippedSigned(env, server, Advance(env, w), tx, chosen, nonces);
    }
  }

  // ---------- conservation ----------

  lemma TwoCoins(txid: string, a: TxOut, b: TxOut, addresses: set<string>)
    ensures Total(NewCoins(txid, [a, b], 0), addresses)
            == (if a.address in addresses then a.value else 0) + (if b.address in addresses then b.value else 0)
  {
    var coins := NewCoins(txid, [a, b], 0);
    NewCoinsShape(txid, [a, b], 0);
    HeadTotal(coins, addresses);
    HeadTotal(coins[1..], addresses);
    assert coins[1..][1..] == [];
  }

  /** A successful send spends the chosen outputs and adds the payment's. */
  lemma SentShape(env: Env, server: MasterKey1, w: Wallet, ledger: seq<Coin>, to: string, amount: Amount, nonces: Nonces)
    requires SendReady(env, server, w, ledger, to, amount, nonces)
    requires Send(env, server, w, ledger, to, amount, nonces).2.Sent?
    ensures var chosen := Chosen(env, w, ledger, amount);
            var tx := Payment(env, w, to, amount.satoshi, chosen);
            && SpendAll(ledger, OutPoints(chosen)).Some?
            && Send(env, server, w, ledger, to, amount, nonces).1
               == SpendAll(ledger, OutPoints(chosen)).value + NewCoins(env.txid(tx), tx.outputs, 0)
  {
    hide Chosen, SignedTransaction, AddressAt, Child, InjectiveDerivation, WellFormed, Sum, Owned, SpendAll, Total, Unsigned, Strip, Previous;
    var chosen := Chosen(env, w, ledger, amount);
    var tx := Payment(env, w, to, amount.satoshi, chosen);
    AdvanceReady(env, server, w, nonces);
    UnsignedShape(chosen, to, amount.satoshi, ChangeAddress(env, w));
    StrippedSigned(env, server, Advance(env, w), tx, chosen, nonces);
  }

  /** What a successful send did to the ledger. */
  lemma SentLedger(env: Env, server: MasterKey1, w: Wallet, ledger: seq<Coin>, to: string, amount: Amount, nonces: Nonces,
                   addresses: set<string>)
    requires SendReady(env, server, w, ledger, to, amount, nonces)
    requires Send(env, server, w, ledger, to, amount, nonces).2.Sent?
    requires Owned(env, w) <= addresses
    ensures var after := Send(env, server, w, ledger, to, amount, nonces).1;
            var chosen := Chosen(env, w, ledger, amount);
            && WellFormed(after) && amount.satoshi <= Sum(chosen)
            && Total(after, addresses) == Total(ledger, addresses) - Sum(chosen)
                 + (if to in addresses then amount.satoshi else 0)
                 + (if ChangeAddress(env, w) in addresses then Sum(chosen) - amount.satoshi else 0)
  {
    hide Send, Chosen, AddressAt, Child, InjectiveDerivation, Find, Distinct, Sum, Owned, SpendAll, Total, NewCoins;
    hide Available, NoSumBetween;
    var chosen := Chosen(env, w, ledger, amount);
    var change := ChangeAddress(env, w);
    var tx := Payment(env, w, to, amount.satoshi, chosen);
    SendExact(env, server, w, ledger, to, amount, nonces);
    ChosenCovers(env, w, ledger, amount);
    SentShape(env, server, w, ledger, to, amount, nonces);
    ChosenSound(env, w, ledger, amount);
    SpendAllTotal(ledger, chosen, addresses);
    OutputsBalance(Sum(chosen), amount.satoshi, to, change);
    var spent := SpendAll(ledger, OutPoints(chosen)).value;
    var coins := NewCoins(env.txid(tx), tx.outputs, 0);
    AppendTotal(spent, coins, addresses);
    TwoCoins(env.txid(tx), tx.outputs[0], tx.outputs[1], addresses);
    BroadcastWellFormed(ledger, spent, env.txid(tx), tx.outputs);
  }

  /** Conservation: the outputs of a successful send sum to its inputs, so over any addresses that
      include the wallet's, the recipient's and the change address nothing is created or lost. */
  lemma SendConserves(env: Env, server: MasterKey1, w: Wallet, ledger: seq<Coin>, to: string, amount: Amount, nonces: Nonces,
                      addresses: set<string>)
    requires SendReady(env, server, w, ledger, to, amount, nonces)
    requires Send(env, server, w, ledger, to, amount, nonces).2.Sent?
    requires Owned(env, w) + {to, ChangeAddress(env, w)} <= addresses
    ensures Total(Send(env, server, w, ledger, to, amount, nonces).1, addresses) == Total(ledger, addresses)
  {
    SentLedger(env, server, w, ledger, to, amount, nonces, addresses);
  }

  lemma OwnedAdvance(env: Env, w: Wallet)
    requires Consistent(env, w) && InjectiveDerivation(env, w.share) && w.last + 1 < U32_LIMIT
    ensures Owned(env, Advance(env, w)) == Owned(env, w) + {ChangeAddress(env, w)}
    ensures ChangeAddress(env, w) !in Owned(env, w)
  {
    hide AddressAt, Child, InjectiveDerivation, ScanList;
    AdvanceConsistent(env, w);
    ScanExact(env, w.network, w.share, w.last);
    ScanExact(env, w.network, w.share, w.last + 1);
    assert MapUpTo(env, w.network, w.share, w.last + 1).Keys == w.derivations.Keys + {ChangeAddress(env, w)};
    FreshAddress(env, w.network, w.share, w.last, w.last + 1);
    AddressesDiffer(env, w.network, w.share, 0, w.last + 1);
  }

  /** The wallet's watched balance after a successful send. The change comes back at an address
      now watched, so the balance falls by exactly the amount for an outside recipient and stays
      for an own one, plus whatever the new address held before it was issued. */
  lemma BalanceAfterSend(env: Env, server: MasterKey1, w: Wallet, ledger: seq<Coin>, to: string, amount: Amount, nonces: Nonces)
    requires SendReady(env, server, w, ledger, to, amount, nonces)
    requires Send(env, server, w, ledger, to, amount, nonces).2.Sent?
    ensures var (next, after, _) := Send(env, server, w, ledger, to, amount, nonces);
            && ChangeAddress(env, w) in Owned(env, next)
            && Total(after, Owned(env, next))
               == Total(ledger, Owned(env, w)) + Total(ledger, {ChangeAddress(env, w)})
                  - if to in Owned(env, next) then 0 else amount.satoshi
  {
    hide Owned, Total, Chosen, AddressAt, Child, InjectiveDerivation, WellFormed, Sum;
    OwnedAdvance(env, w);
    SentLedger(env, server, w, ledger, to, amount, nonces, Owned(env, Advance(env, w)));
    DisjointTotal(ledger, Owned(env, w), {ChangeAddress(env, w)});
  }
}
