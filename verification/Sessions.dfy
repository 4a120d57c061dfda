/** Key generation and signing sessions of many clients against one server and its one flat store.
    A session is the client program of keygen.rs followed by any number of runs of sign.rs; the
    requests of different sessions interleave freely, each request being served atomically. */
module Sessions {
  import opened Common
  import opened NumberTheory
  import opened Ecdsa
  import opened Paillier
  import opened MasterKeys
  import opened TwoPartySigning
  import opened PublicGotham

  // ---------- what the server stores and the client remembers ----------

  datatype Value =
    | KeyShare(x1: int)
    | PaillierPair(key: DecryptionKey, cKey: int, p2: Point)
    | ChainShare(cc1: int)
    | Master(mk1: MasterKey1)
    | Ephemeral(k1: int)

  const KEY_SHARE := "EcKeyPair"
  const PAILLIER := "PaillierKeyPair"
  const CHAIN_SHARE := "CCEcKeyPair"
  const MASTER := "Party1MasterKey"
  const EPHEMERAL := "EphEcKeyPair"

  /** One session's tables. */
  datatype Tables = Tables(
    keyShare: Option<Value>, paillier: Option<Value>, chainShare: Option<Value>, master: Option<Value>, ephemeral: Option<Value>)

  function TablesOf(db: map<string, Value>, index: DbIndex): Tables {
    Tables(Read(db, Slot(index, KEY_SHARE)), Read(db, Slot(index, PAILLIER)), Read(db, Slot(index, CHAIN_SHARE)),
           Read(db, Slot(index, MASTER)), Read(db, Slot(index, EPHEMERAL)))
  }

  datatype SignResult = SignResult(path: seq<int>, message: nat, signature: Option<Signature>)

  /** Where the client program stands, with the local variables it still needs. */
  datatype Client =
    | Waiting
    | Identified
    | Exchanged(x2: int, q1: Point, n: int, cKey: int, proofs: nat)
    | ChainStarted(x2: int, q1: Point, n: int, cKey: int)
    | Ready(mk2: MasterKey2, last: Option<SignResult>)
    | Signing(mk2: MasterKey2, eph: ClientNonce, r1: Point, path: seq<int>, message: nat)

  /** Everything either side may draw in one exchange, and what the client asks to be signed. */
  datatype Draw = Draw(server: int, client: int, paillier: DecryptionKey, blind: int, eph: ClientNonce, path: seq<int>, message: nat)

  // ---------- one request and its reply ----------

  function ServerMasterKey(pr: Primitives, x1: int, pair: Value, cc: Point): MasterKey1
    requires 2 <= pr.q && pair.PaillierPair?
  {
    MasterKey1(pr.Times(x1, pair.p2), pr.Times(x1, pr.G), pair.p2, x1, pair.key, pair.cKey, cc)
  }

  function ClientMasterKey(pr: Primitives, x2: int, q1: Point, n: int, cKey: int, cc: Point): MasterKey2
    requires 2 <= pr.q
  {
    MasterKey2(pr.Times(x2, q1), q1, pr.Times(x2, pr.G), x2, n, cKey, cc)
  }

  /** Keys and moduli are in the range where encryption and decryption are defined. */
  ghost predicate Sane(pr: Primitives, t: Tables, client: Client, draw: Draw) {
    && 2 <= pr.q && 2 <= draw.paillier.p && 2 <= draw.paillier.q && 0 < draw.paillier.N()
    && (client.Signing? && t.master.Some? && t.master.value.Master? ==>
          2 <= t.master.value.mk1.paillier.p && 2 <= t.master.value.mk1.paillier.q)
    && (client.Signing? ==> 0 < client.mk2.n && 0 <= client.eph.rho)
  }

  /** The session's next request: the client's step afterwards and the table the server writes. A
      request whose tables are missing is an error and changes nothing. */
  function Exchange(pr: Primitives, t: Tables, client: Client, draw: Draw): (Client, Option<(string, Value)>)
    requires Sane(pr, t, client, draw)
  {
    match client
    case Waiting => (Identified, Some((KEY_SHARE, KeyShare(draw.server))))
    case Identified =>
      if t.keyShare.Some? && t.keyShare.value.KeyShare? then
        var x1 := t.keyShare.value.x1;
        var cKey := Encrypt(draw.paillier.N(), x1 % pr.q, draw.blind);
        (Exchanged(draw.client, pr.Times(x1, pr.G), draw.paillier.N(), cKey, 0),
         Some((PAILLIER, PaillierPair(draw.paillier, cKey, pr.Times(draw.client, pr.G)))))
      else (client, None)
    case Exchanged(x2, q1, n, cKey, proofs) =>
      if proofs < 2 then
        (if t.paillier.Some? then client.(proofs := proofs + 1) else client, None)
      else (ChainStarted(x2, q1, n, cKey), Some((CHAIN_SHARE, ChainShare(draw.server))))
    case ChainStarted(x2, q1, n, cKey) =>
      if t.chainShare.Some? && t.chainShare.value.ChainShare? && t.keyShare.Some? && t.keyShare.value.KeyShare?
         && t.paillier.Some? && t.paillier.value.PaillierPair? then
        var cc1 := t.chainShare.value.cc1;
        var serverCc := pr.Times(cc1, pr.Times(draw.client, pr.G));
        var clientCc := pr.Times(draw.client, pr.Times(cc1, pr.G));
        (Ready(ClientMasterKey(pr, x2, q1, n, cKey, clientCc), None),
         Some((MASTER, Master(ServerMasterKey(pr, t.keyShare.value.x1, t.paillier.value, serverCc)))))
      else (client, None)
    case Ready(mk2, _) =>
      (Signing(mk2, draw.eph, pr.Times(draw.server, pr.G), draw.path, draw.message),
       Some((EPHEMERAL, Ephemeral(draw.server))))
    case Signing(mk2, eph, r1, path, message) =>
      if t.master.Some? && t.master.value.Master? && t.ephemeral.Some? && t.ephemeral.value.Ephemeral? then
        SameModuli(pr, t.master.value.mk1, mk2, path);
        var request := SignSecondMessage(pr, GetChild2(pr, mk2, path), eph, r1, message);
        var reply := SignFinish(pr, GetChild1(pr, t.master.value.mk1, path), t.ephemeral.value.k1, request, message);
        (Ready(mk2, Some(SignResult(path, message, reply))), None)
      else (client, None)
  }

  lemma {:induction false} SameModuli(pr: Primitives, mk1: MasterKey1, mk2: MasterKey2, path: seq<int>)
    requires 2 <= pr.q
    ensures GetChild1(pr, mk1, path).paillier == mk1.paillier && GetChild2(pr, mk2, path).n == mk2.n
    decreases |path|
  {
    if path != [] { SameModuli(pr, ChildStep1(pr, mk1, path[0]), ChildStep2(pr, mk2, path[0]), path[1..]); }
  }

  // ---------- the invariant of one session ----------

  ghost predicate SharesAgree(pr: Primitives, t: Tables, x2: int, q1: Point, n: int, cKey: int) {
    && pr.Valid() && 0 < x2 < pr.q
    && t.keyShare.Some? && t.keyShare.value.KeyShare? && 0 < t.keyShare.value.x1 < pr.q
    && t.paillier.Some? && t.paillier.value.PaillierPair?
    && q1 == pr.Times(t.keyShare.value.x1, pr.G)
    && t.paillier.value.p2 == pr.Times(x2, pr.G)
    && t.paillier.value.cKey == cKey && t.paillier.value.key.N() == n
    && WideKey(pr, t.paillier.value.key) && Encrypts(t.paillier.value.key, cKey, t.keyShare.value.x1)
  }

  ghost predicate KeysMatch(pr: Primitives, t: Tables, mk2: MasterKey2) {
    t.master.Some? && t.master.value.Master? && Matches(pr, t.master.value.mk1, mk2)
  }

  /** A recorded signature verifies under the public key of the child it was asked for. */
  ghost predicate ResultVerifies(pr: Primitives, mk2: MasterKey2, last: Option<SignResult>)
    requires 2 <= pr.q
  {
    last.Some? && last.value.signature.Some? ==>
      var sig := last.value.signature.value;
      pr.Verify(GetChild2(pr, mk2, last.value.path).pub, last.value.message, sig.r, sig.s)
  }

  /** Client and server agree on whatever they have established so far. */
  ghost predicate SessionValid(pr: Primitives, t: Tables, client: Client) {
    pr.Valid() &&
    match client
    case Waiting => true
    case Identified => t.keyShare.Some? && t.keyShare.value.KeyShare? && 0 < t.keyShare.value.x1 < pr.q
    case Exchanged(x2, q1, n, cKey, proofs) => proofs <= 2 && SharesAgree(pr, t, x2, q1, n, cKey)
    case ChainStarted(x2, q1, n, cKey) =>
      SharesAgree(pr, t, x2, q1, n, cKey) && t.chainShare.Some? && t.chainShare.value.ChainShare?
    case Ready(mk2, last) => KeysMatch(pr, t, mk2) && ResultVerifies(pr, mk2, last)
    case Signing(mk2, eph, r1, path, message) =>
      && KeysMatch(pr, t, mk2) && t.ephemeral.Some? && t.ephemeral.value.Ephemeral?
      && r1 == pr.Times(t.ephemeral.value.k1, pr.G)
      && GoodNonces(pr, t.master.value.mk1.paillier, t.ephemeral.value.k1, eph)
  }

  /** Everything drawn is in range; encryption randomness fits the key it is used with. */
  ghost predicate GoodDraw(pr: Primitives, t: Tables, client: Client, draw: Draw) {
    && 0 < draw.server < pr.q && 0 < draw.client < pr.q
    && WideKey(pr, draw.paillier) && draw.paillier.Unit(draw.blind)
    && (client.Ready? && t.master.Some? && t.master.value.Master? ==>
          GoodNonces(pr, t.master.value.mk1.paillier, draw.server, draw.eph))
  }

  lemma ValidIsSane(pr: Primitives, t: Tables, client: Client, draw: Draw)
    requires SessionValid(pr, t, client) && GoodDraw(pr, t, client, draw)
    ensures Sane(pr, t, client, draw)
  {
    hide WideKey;
    WideKeyRange(pr, draw.paillier);
    if client.Signing? { WideKeyRange(pr, t.master.value.mk1.paillier); }
  }

  // ---------- one exchange keeps the invariant ----------

  function Update(t: Tables, write: Option<(string, Value)>): Tables {
    match write
    case None => t
    case Some((table, v)) =>
      Tables(if table == KEY_SHARE then Some(v) else t.keyShare,
             if table == PAILLIER then Some(v) else t.paillier,
             if table == CHAIN_SHARE then Some(v) else t.chainShare,
             if table == MASTER then Some(v) else t.master,
             if table == EPHEMERAL then Some(v) else t.ephemeral)
  }

  function Phase(client: Client): nat {
    match client
    case Waiting => 0
    case Identified => 1
    case Exchanged(_, _, _, _, proofs) => 2 + proofs
    case ChainStarted(_, _, _, _) => 5
    case Ready(_, _) => 6
    case Signing(_, _, _, _, _) => 7
  }

  lemma TableNamesDiffer()
    ensures KEY_SHARE != PAILLIER && KEY_SHARE != CHAIN_SHARE && KEY_SHARE != MASTER && KEY_SHARE != EPHEMERAL
    ensures PAILLIER != CHAIN_SHARE && PAILLIER != MASTER && PAILLIER != EPHEMERAL
    ensures CHAIN_SHARE != MASTER && CHAIN_SHARE != EPHEMERAL && MASTER != EPHEMERAL
  {
    assert KEY_SHARE[1] == 'c' && PAILLIER[1] == 'a' && CHAIN_SHARE[1] == 'C' && EPHEMERAL[1] == 'p';
    assert MASTER[2] == 'r' && PAILLIER[2] == 'i';
  }

  lemma SharesExchanged(pr: Primitives, t: Tables, draw: Draw)
    requires SessionValid(pr, t, Identified) && GoodDraw(pr, t, Identified, draw) && Sane(pr, t, Identified, draw)
    ensures var (client, write) := Exchange(pr, t, Identified, draw);
            client.Exchanged? && client.proofs == 0 && SessionValid(pr, Update(t, write), client)
  {
    TableNamesDiffer();
    var x1 := t.keyShare.value.x1;
    ModUnique(x1, pr.q, 0, x1);
    EncryptEncrypts(draw.paillier, x1, draw.blind);
  }

  /** The client's and the server's view of the joint key and the chain code coincide. */
  lemma SharesCombine(pr: Primitives, t: Tables, x2: int, q1: Point, n: int, cKey: int, cc1: int, cc2: int)
    requires SharesAgree(pr, t, x2, q1, n, cKey)
    ensures var serverCc := pr.Times(cc1, pr.Times(cc2, pr.G));
            var clientCc := pr.Times(cc2, pr.Times(cc1, pr.G));
            && serverCc == clientCc == (cc1 * cc2) % pr.q
            && ClientMasterKey(pr, x2, q1, n, cKey, clientCc).pub == (t.keyShare.value.x1 * x2) % pr.q
            && Matches(pr, ServerMasterKey(pr, t.keyShare.value.x1, t.paillier.value, serverCc),
                       ClientMasterKey(pr, x2, q1, n, cKey, clientCc))
  {
    hide Primitives.Times, Primitives.Valid, WideKey, Encrypts;
    SharedPoint(pr, cc1, cc2);
    SharedPoint(pr, t.keyShare.value.x1, x2);
  }

  /** Diffie-Hellman: each side multiplies the other's public share by its own secret. */
  lemma SharedPoint(pr: Primitives, a: int, b: int)
    requires 2 <= pr.q
    ensures pr.Times(a, pr.Times(b, pr.G)) == pr.Times(b, pr.Times(a, pr.G)) == pr.Times(a * b, pr.G) == (a * b) % pr.q
  {
    TimesTimes(pr, a, b);
    TimesTimes(pr, b, a);
    assert a * b == b * a;
  }

  lemma ChainCompleted(pr: Primitives, t: Tables, client: Client, draw: Draw)
    requires client.ChainStarted? && SessionValid(pr, t, client) && Sane(pr, t, client, draw)
    ensures var (next, write) := Exchange(pr, t, client, draw);
            && next.Ready? && SessionValid(pr, Update(t, write), next)
            && next.mk2.cc == (t.chainShare.value.cc1 * draw.client) % pr.q
            && next.mk2.pub == (t.keyShare.value.x1 * client.x2) % pr.q
  {
    hide Matches, WideKey, Encrypts, ServerMasterKey, Primitives.Times, Primitives.Valid;
    TableNamesDiffer();
    SharesCombine(pr, t, client.x2, client.q1, client.n, client.cKey, t.chainShare.value.cc1, draw.client);
  }

  /** The textbook signature a signing session is to end with: private key x1 * x2 of the child,
      ephemeral key k1 * k2. */
  function SessionSignature(pr: Primitives, t: Tables, client: Client): Option<Signature>
    requires 2 <= pr.q && client.Signing? && t.ephemeral.Some? && t.ephemeral.value.Ephemeral?
  {
    EcdsaSign(pr, GetChild2(pr, client.mk2, client.path).pub, (t.ephemeral.value.k1 * client.eph.k2) % pr.q, client.message)
  }

  lemma SignatureReturned(pr: Primitives, t: Tables, client: Client, draw: Draw)
    requires client.Signing? && SessionValid(pr, t, client) && Sane(pr, t, client, draw)
    ensures var (next, write) := Exchange(pr, t, client, draw);
            && next.Ready? && SessionValid(pr, Update(t, write), next)
            && next.last == Some(SignResult(client.path, client.message, SessionSignature(pr, t, client)))
  {
    hide WideKey, Encrypts, SignSecondMessage, SignFinish, EcdsaSign;
    var (mk1, mk2) := (t.master.value.mk1, client.mk2);
    DerivationMatches(pr, mk1, mk2, client.path);
    SignedChildVerifies(pr, GetChild1(pr, mk1, client.path), GetChild2(pr, mk2, client.path),
                        t.ephemeral.value.k1, client.eph, client.message);
    SignUnfolds(pr, GetChild1(pr, mk1, client.path), GetChild2(pr, mk2, client.path),
                t.ephemeral.value.k1, client.eph, client.message);
  }

  lemma SignUnfolds(pr: Primitives, mk1: MasterKey1, mk2: MasterKey2, k1: int, eph: ClientNonce, e: int)
    requires 2 <= pr.q && 0 < mk2.n && 0 <= eph.rho && 2 <= mk1.paillier.p && 2 <= mk1.paillier.q
    ensures SignFinish(pr, mk1, k1, SignSecondMessage(pr, mk2, eph, pr.Times(k1, pr.G), e), e) == Sign(pr, mk1, mk2, k1, eph, e)
  {
  }

  /** No request of a valid session fails: each moves the session one phase on (signing returns to
      the ready phase) and keeps client and server in agreement. */
  lemma ExchangeValid(pr: Primitives, t: Tables, client: Client, draw: Draw)
    requires SessionValid(pr, t, client) && GoodDraw(pr, t, client, draw) && Sane(pr, t, client, draw)
    ensures var (next, write) := Exchange(pr, t, client, draw);
            && SessionValid(pr, Update(t, write), next)
            && Phase(next) == (if Phase(client) == 7 then 6 else Phase(client) + 1)
            && (client.Ready? ==>
                  next.Signing? && next.mk2 == client.mk2 && next.path == draw.path && next.message == draw.message)
            && (client.Signing? ==>
                  next.last == Some(SignResult(client.path, client.message, SessionSignature(pr, t, client))))
  {
    TableNamesDiffer();
    match client
    case Waiting =>
    case Identified => SharesExchanged(pr, t, draw);
    case Exchanged(_, _, _, _, _) => hide WideKey, Encrypts;
    case ChainStarted(_, _, _, _) => ChainCompleted(pr, t, client, draw);
    case Ready(_, _) => hide Matches;
    case Signing(_, _, _, _, _) => SignatureReturned(pr, t, client, draw);
  }

  // ---------- what a session's own draws determine ----------

  /** Key generation so far used the first request's x1 and the second's x2 and Paillier key. */
  ghost predicate SharesFrom(pr: Primitives, t: Tables, x2: int, cKey: int, own: seq<Draw>)
    requires 2 <= pr.q && |own| >= 2
  {
    && WideKey(pr, own[1].paillier) && 0 < own[0].server
    && t.keyShare == Some(KeyShare(own[0].server)) && x2 == own[1].client
    && t.paillier == Some(PaillierPair(own[1].paillier, cKey, pr.Times(x2, pr.G)))
    && EncryptsWith(own[1].paillier, cKey, own[0].server, own[1].blind)
  }

  /** The master keys are those of the session's draws: x1 of the first request, x2 and the Paillier
      key of the second, the chain code of the fifth and sixth. */
  ghost predicate KeysFrom(pr: Primitives, t: Tables, mk2: MasterKey2, own: seq<Draw>)
    requires 2 <= pr.q && |own| >= 6
  {
    && WideKey(pr, own[1].paillier) && 0 < own[0].server
    && t.master.Some? && t.master.value.Master?
    && var mk1 := t.master.value.mk1;
       && mk1.x1 == own[0].server && mk2.x2 == own[1].client
       && mk2.pub == (own[0].server * own[1].client) % pr.q
       && mk1.paillier == own[1].paillier
       && EncryptsWith(own[1].paillier, mk1.cKey, own[0].server, own[1].blind)
       && mk2.cc == (own[4].server * own[5].client) % pr.q
  }

  /** The result answers what was drawn when the signing was asked for: its path and message, and
      the one solution of the signing equation for that child key and the joint ephemeral key. */
  ghost predicate Answers(pr: Primitives, mk2: MasterKey2, asked: Draw, result: SignResult)
    requires 2 <= pr.q
  {
    var (key, k) := (GetChild2(pr, mk2, asked.path).pub, (asked.server * asked.eph.k2) % pr.q);
    && result.path == asked.path && result.message == asked.message
    && forall sig :: result.signature == Some(sig) <==>
         pr.Signs(k, key, asked.message, sig.r, sig.s) && sig.r != 0 && 0 < sig.s < pr.q && sig.recid == pr.parity(k)
  }

  /** Where the session stands is what its own draws say, the last signing request included. */
  ghost predicate Traced(pr: Primitives, t: Tables, client: Client, own: seq<Draw>)
    requires 2 <= pr.q
  {
    var n := |own|;
    match client
    case Waiting => n == 0
    case Identified => n == 1 && t.keyShare == Some(KeyShare(own[0].server))
    case Exchanged(x2, _, _, cKey, proofs) => n == 2 + proofs && SharesFrom(pr, t, x2, cKey, own)
    case ChainStarted(x2, _, _, cKey) =>
      n == 5 && SharesFrom(pr, t, x2, cKey, own) && t.chainShare == Some(ChainShare(own[4].server))
    case Ready(mk2, last) =>
      && n >= 6 && n % 2 == 0 && KeysFrom(pr, t, mk2, own)
      && (if n == 6 then last == None else last.Some? && Answers(pr, mk2, own[n - 2], last.value))
    case Signing(mk2, eph, _, path, message) =>
      && n >= 7 && n % 2 == 1 && KeysFrom(pr, t, mk2, own)
      && path == own[n - 1].path && message == own[n - 1].message && eph == own[n - 1].eph
      && t.ephemeral == Some(Ephemeral(own[n - 1].server))
  }

  lemma SharesTraced(pr: Primitives, t: Tables, draw: Draw, own: seq<Draw>)
    requires SessionValid(pr, t, Identified) && GoodDraw(pr, t, Identified, draw) && Sane(pr, t, Identified, draw)
    requires Traced(pr, t, Identified, own)
    ensures var (next, write) := Exchange(pr, t, Identified, draw);
            Traced(pr, Update(t, write), next, own + [draw])
  {
    hide Encrypt, EncryptsWith;
    TableNamesDiffer();
    var x1 := t.keyShare.value.x1;
    ModUnique(x1, pr.q, 0, x1);
    EncryptEncrypts(draw.paillier, x1, draw.blind);
  }

  lemma ChainTraced(pr: Primitives, t: Tables, client: Client, draw: Draw, own: seq<Draw>)
    requires client.ChainStarted? && SessionValid(pr, t, client) && Sane(pr, t, client, draw) && Traced(pr, t, client, own)
    ensures var (next, write) := Exchange(pr, t, client, draw);
            Traced(pr, Update(t, write), next, own + [draw])
  {
    hide EncryptsWith, WideKey, Encrypts;
    TableNamesDiffer();
    ChainCompleted(pr, t, client, draw);
  }

  lemma SignatureTraced(pr: Primitives, t: Tables, client: Client, draw: Draw, own: seq<Draw>)
    requires client.Signing? && SessionValid(pr, t, client) && Sane(pr, t, client, draw) && Traced(pr, t, client, own)
    ensures var (next, write) := Exchange(pr, t, client, draw);
            Traced(pr, Update(t, write), next, own + [draw])
  {
    hide EncryptsWith, WideKey, Encrypts, SignSecondMessage, SignFinish, EcdsaSign, Primitives.Signs, GetChild1, GetChild2;
    SignatureReturned(pr, t, client, draw);
    DerivationMatches(pr, t.master.value.mk1, client.mk2, client.path);
    var k := (t.ephemeral.value.k1 * client.eph.k2) % pr.q;
    EphemeralNonzero(pr, t.ephemeral.value.k1, client.eph);
    EcdsaSignExact(pr, GetChild2(pr, client.mk2, client.path).pub, k, client.message);
    var result := SignResult(client.path, client.message, SessionSignature(pr, t, client));
    assert Answers(pr, client.mk2, own[|own| - 1], result);
  }

  /** Each exchange extends the trace by its own draw. */
  lemma ExchangeTraced(pr: Primitives, t: Tables, client: Client, draw: Draw, own: seq<Draw>)
    requires SessionValid(pr, t, client) && GoodDraw(pr, t, client, draw) && Sane(pr, t, client, draw)
    requires Traced(pr, t, client, own)
    ensures var (next, write) := Exchange(pr, t, client, draw);
            Traced(pr, Update(t, write), next, own + [draw])
  {
    hide WideKey, EncryptsWith, Encrypts, Matches, Answers;
    TableNamesDiffer();
    match client
    case Waiting =>
    case Identified => SharesTraced(pr, t, draw, own);
    case Exchanged(_, _, _, _, _) =>
    case ChainStarted(_, _, _, _) => ChainTraced(pr, t, client, draw, own);
    case Ready(_, _) =>
    case Signing(_, _, _, _, _) => SignatureTraced(pr, t, client, draw, own);
  }

  // ---------- many sessions, one store ----------

  datatype System = System(db: map<string, Value>, clients: map<DbIndex, Client>)

  datatype Event = Event(index: DbIndex, draw: Draw)

  function ClientOf(sys: System, index: DbIndex): Client {
    if index in sys.clients then sys.clients[index] else Waiting
  }

  /** No two of the sessions have the same key prefix, so none writes to another's tables. */
  ghost predicate Separate(ids: iset<DbIndex>) {
    forall a, b :: a in ids && b in ids && Prefix(a) == Prefix(b) ==> a == b
  }

  ghost predicate SystemValid(pr: Primitives, ids: iset<DbIndex>, sys: System) {
    pr.Valid() && Separate(ids) && forall index :: index in ids ==> SessionValid(pr, TablesOf(sys.db, index), ClientOf(sys, index))
  }

  ghost predicate AllowedEvent(pr: Primitives, ids: iset<DbIndex>, sys: System, event: Event) {
    event.index in ids && GoodDraw(pr, TablesOf(sys.db, event.index), ClientOf(sys, event.index), event.draw)
  }

  /** One session's next request served against the shared store. */
  ghost function Step(pr: Primitives, ids: iset<DbIndex>, sys: System, event: Event): System
    requires SystemValid(pr, ids, sys) && AllowedEvent(pr, ids, sys, event)
  {
    var (t, client) := (TablesOf(sys.db, event.index), ClientOf(sys, event.index));
    ValidIsSane(pr, t, client, event.draw);
    var (next, write) := Exchange(pr, t, client, event.draw);
    System(Store(sys.db, event.index, write), sys.clients[event.index := next])
  }

  function Store(db: map<string, Value>, index: DbIndex, write: Option<(string, Value)>): map<string, Value> {
    match write
    case None => db
    case Some((table, v)) => Written(db, Write(Slot(index, table), v, true))
  }

  lemma TableNamesPlain()
    ensures forall table :: table in {KEY_SHARE, PAILLIER, CHAIN_SHARE, MASTER, EPHEMERAL} ==> NoUnderscore(table)
  {
  }

  /** Two sessions see the same tables in every store exactly when their key prefixes are equal. */
  lemma TablesSharedIff(a: DbIndex, b: DbIndex)
    ensures (forall db: map<string, Value> :: TablesOf(db, a) == TablesOf(db, b)) <==> Prefix(a) == Prefix(b)
  {
    SameTableCollisionIff(a, b, KEY_SHARE);
    SameTableCollisionIff(a, b, PAILLIER);
    SameTableCollisionIff(a, b, CHAIN_SHARE);
    SameTableCollisionIff(a, b, MASTER);
    SameTableCollisionIff(a, b, EPHEMERAL);
    var db := map[Idify(Slot(a, KEY_SHARE)) := KeyShare(1)];
    if Prefix(a) != Prefix(b) { assert TablesOf(db, a) != TablesOf(db, b); }
  }

  /** Sessions whose ids have no underscore are separate. */
  lemma PlainSeparate()
    ensures Separate(iset index: DbIndex | Plain(index))
  {
    forall a, b | Plain(a) && Plain(b) && Prefix(a) == Prefix(b)
      ensures a == b
    {
      SameTableCollisionIff(a, b, "");
      IdifyInjective(Slot(a, ""), Slot(b, ""));
    }
  }

  /** A write to one session's table shows there and leaves every other session's tables alone. */
  lemma StoreTables(db: map<string, Value>, index: DbIndex, write: Option<(string, Value)>, other: DbIndex)
    requires (write.Some? ==> NoUnderscore(write.value.0)) && (Prefix(index) == Prefix(other) ==> index == other)
    ensures TablesOf(Store(db, index, write), other)
            == if other == index then Update(TablesOf(db, index), write) else TablesOf(db, other)
  {
    hide Idify, Prefix, NoUnderscore;
    if write.Some? {
      var table := write.value.0;
      TableNamesPlain();
      forall name | name in {KEY_SHARE, PAILLIER, CHAIN_SHARE, MASTER, EPHEMERAL}
        ensures Idify(Slot(index, table)) == Idify(Slot(other, name)) <==> index == other && table == name
      {
        KeysEqualIff(Slot(index, table), Slot(other, name));
      }
    }
  }

  lemma WritesPlainTable(pr: Primitives, t: Tables, client: Client, draw: Draw)
    requires Sane(pr, t, client, draw)
    ensures var write := Exchange(pr, t, client, draw).1; write.Some? ==> NoUnderscore(write.value.0)
  {
    TableNamesPlain();
  }

  lemma StepSession(pr: Primitives, ids: iset<DbIndex>, sys: System, event: Event, index: DbIndex)
    requires SystemValid(pr, ids, sys) && AllowedEvent(pr, ids, sys, event) && index in ids
    ensures var (t, client) := (TablesOf(sys.db, index), ClientOf(sys, index));
            var (t', client') := (TablesOf(Step(pr, ids, sys, event).db, index), ClientOf(Step(pr, ids, sys, event), index));
            && (index != event.index ==> t' == t && client' == client)
            && (index == event.index ==>
                  && Sane(pr, t, client, event.draw)
                  && (client', t') == (Exchange(pr, t, client, event.draw).0, Update(t, Exchange(pr, t, client, event.draw).1)))
  {
    hide Exchange, SessionValid, GoodDraw, Idify, TablesOf, Update, NoUnderscore, Prefix;
    var (t, client) := (TablesOf(sys.db, event.index), ClientOf(sys, event.index));
    ValidIsSane(pr, t, client, event.draw);
    var write := Exchange(pr, t, client, event.draw).1;
    WritesPlainTable(pr, t, client, event.draw);
    StoreTables(sys.db, event.index, write, index);
  }

  lemma StepValid(pr: Primitives, ids: iset<DbIndex>, sys: System, event: Event)
    requires SystemValid(pr, ids, sys) && AllowedEvent(pr, ids, sys, event)
    ensures SystemValid(pr, ids, Step(pr, ids, sys, event))
  {
    hide Step, Exchange, SessionValid, GoodDraw, Idify, TablesOf, Update, ClientOf;
    var next := Step(pr, ids, sys, event);
    forall index | index in ids
      ensures SessionValid(pr, TablesOf(next.db, index), ClientOf(next, index))
    {
      StepSession(pr, ids, sys, event, index);
      if index == event.index {
        ExchangeValid(pr, TablesOf(sys.db, index), ClientOf(sys, index), event.draw);
      }
    }
  }

  ghost predicate AllowedRun(pr: Primitives, ids: iset<DbIndex>, sys: System, events: seq<Event>)
    requires SystemValid(pr, ids, sys)
    decreases |events|
  {
    events == [] ||
    (AllowedEvent(pr, ids, sys, events[0]) &&
     (StepValid(pr, ids, sys, events[0]); AllowedRun(pr, ids, Step(pr, ids, sys, events[0]), events[1..])))
  }

  ghost function Run(pr: Primitives, ids: iset<DbIndex>, sys: System, events: seq<Event>): System
    requires SystemValid(pr, ids, sys) && AllowedRun(pr, ids, sys, events)
    ensures SystemValid(pr, ids, Run(pr, ids, sys, events))
    decreases |events|
  {
    if events == [] then sys
    else
      StepValid(pr, ids, sys, events[0]);
      Run(pr, ids, Step(pr, ids, sys, events[0]), events[1..])
  }

  /** The events of one session. */
  function Only(events: seq<Event>, index: DbIndex): seq<Event> {
    if events == [] then []
    else (if events[0].index == index then [events[0]] else []) + Only(events[1..], index)
  }

  predicate SameView(a: System, b: System, index: DbIndex) {
    TablesOf(a.db, index) == TablesOf(b.db, index) && ClientOf(a, index) == ClientOf(b, index)
  }

  lemma StepSameView(pr: Primitives, ids: iset<DbIndex>, a: System, b: System, event: Event)
    requires SystemValid(pr, ids, a) && SystemValid(pr, ids, b) && AllowedEvent(pr, ids, a, event) && SameView(a, b, event.index)
    ensures AllowedEvent(pr, ids, b, event) && SameView(Step(pr, ids, a, event), Step(pr, ids, b, event), event.index)
  {
    hide Step, Exchange, SessionValid, GoodDraw, Idify, TablesOf, Update, ClientOf;
    StepSession(pr, ids, a, event, event.index);
    StepSession(pr, ids, b, event, event.index);
  }

  /** Interleaved sessions do not interfere: whatever other sessions do in between, a session's
      client and its tables end exactly as if its own requests had been served alone. */
  lemma {:induction false} RunAsIfAlone(pr: Primitives, ids: iset<DbIndex>, a: System, b: System, events: seq<Event>, index: DbIndex)
    requires SystemValid(pr, ids, a) && SystemValid(pr, ids, b) && index in ids
    requires AllowedRun(pr, ids, a, events) && SameView(a, b, index)
    ensures AllowedRun(pr, ids, b, Only(events, index))
    ensures SameView(Run(pr, ids, a, events), Run(pr, ids, b, Only(events, index)), index)
    decreases |events|
  {
    hide Step, Exchange, SessionValid, GoodDraw, Idify, TablesOf, Update, ClientOf, SystemValid;
    if events != [] {
      var event := events[0];
      StepValid(pr, ids, a, event);
      var next := Step(pr, ids, a, event);
      if event.index == index {
        StepSameView(pr, ids, a, b, event);
        StepValid(pr, ids, b, event);
        RunAsIfAlone(pr, ids, next, Step(pr, ids, b, event), events[1..], index);
        assert Only(events, index) == [event] + Only(events[1..], index);
        assert Only(events, index)[1..] == Only(events[1..], index);
      } else {
        StepSession(pr, ids, a, event, index);
        RunAsIfAlone(pr, ids, next, b, events[1..], index);
        assert Only(events, index) == Only(events[1..], index);
      }
    }
  }

  function PhaseAfter(phase: nat, requests: nat): nat
    decreases requests
  {
    if requests == 0 then phase else PhaseAfter(if phase == 7 then 6 else phase + 1, requests - 1)
  }

  /** In every run every session keeps its client and the server in agreement, and has advanced by
      exactly one phase for each of its own requests: none is ever refused or lost. */
  lemma {:induction false} RunAdvances(pr: Primitives, ids: iset<DbIndex>, sys: System, events: seq<Event>, index: DbIndex)
    requires SystemValid(pr, ids, sys) && AllowedRun(pr, ids, sys, events) && index in ids
    ensures var end := Run(pr, ids, sys, events);
            && SessionValid(pr, TablesOf(end.db, index), ClientOf(end, index))
            && Phase(ClientOf(end, index)) == PhaseAfter(Phase(ClientOf(sys, index)), |Only(events, index)|)
    decreases |events|
  {
    hide Step, Exchange, SessionValid, GoodDraw, Idify, TablesOf, Update, ClientOf, Phase;
    if events != [] {
      var event := events[0];
      StepValid(pr, ids, sys, event);
      StepSession(pr, ids, sys, event, index);
      if event.index == index {
        ExchangeValid(pr, TablesOf(sys.db, index), ClientOf(sys, index), event.draw);
      }
      RunAdvances(pr, ids, Step(pr, ids, sys, event), events[1..], index);
    }
  }

  /** The draws of one session's own requests. */
  function Draws(events: seq<Event>, index: DbIndex): seq<Draw> {
    if events == [] then []
    else (if events[0].index == index then [events[0].draw] else []) + Draws(events[1..], index)
  }

  lemma {:induction false} OwnDraws(events: seq<Event>, index: DbIndex)
    ensures |Draws(events, index)| == |Only(events, index)|
    ensures forall i :: 0 <= i < |Only(events, index)| ==>
              Only(events, index)[i].draw == Draws(events, index)[i] && Only(events, index)[i].index == index
  {
    if events != [] { OwnDraws(events[1..], index); }
  }

  lemma {:induction false} RunTraced(pr: Primitives, ids: iset<DbIndex>, sys: System, events: seq<Event>, index: DbIndex, past: seq<Draw>)
    requires SystemValid(pr, ids, sys) && AllowedRun(pr, ids, sys, events) && index in ids
    requires Traced(pr, TablesOf(sys.db, index), ClientOf(sys, index), past)
    ensures var end := Run(pr, ids, sys, events);
            Traced(pr, TablesOf(end.db, index), ClientOf(end, index), past + Draws(events, index))
    decreases |events|
  {
    hide Step, Exchange, SessionValid, GoodDraw, Idify, TablesOf, Update, ClientOf, Traced;
    if events == [] {
      assert past + Draws(events, index) == past;
    } else {
      var event := events[0];
      StepValid(pr, ids, sys, event);
      StepSession(pr, ids, sys, event, index);
      var own := if event.index == index then past + [event.draw] else past;
      if event.index == index {
        ExchangeTraced(pr, TablesOf(sys.db, index), ClientOf(sys, index), event.draw, past);
      }
      RunTraced(pr, ids, Step(pr, ids, sys, event), events[1..], index, own);
      assert own + Draws(events[1..], index) == past + Draws(events, index);
    }
  }

  /** From an empty server, in any interleaving, a session's keys are those of its own draws and its
      last recorded signature answers its own last signing request. */
  lemma SessionTranscript(pr: Primitives, ids: iset<DbIndex>, events: seq<Event>, index: DbIndex)
    requires pr.Valid() && Separate(ids) && index in ids
    requires (EmptySystemValid(pr, ids); AllowedRun(pr, ids, System(map[], map[]), events))
    ensures SystemValid(pr, ids, System(map[], map[]))
    ensures var end := Run(pr, ids, System(map[], map[]), events);
            var (t, client, own) := (TablesOf(end.db, index), ClientOf(end, index), Draws(events, index));
            && Traced(pr, t, client, own)
            && (|own| >= 6 ==> (client.Ready? || client.Signing?) && KeysFrom(pr, t, client.mk2, own))
            && (|own| >= 8 && |own| % 2 == 0 ==>
                  client.Ready? && client.last.Some? && Answers(pr, client.mk2, own[|own| - 2], client.last.value))
  {
    hide Run, AllowedRun, Traced, KeysFrom, Answers, TablesOf, SessionValid, Draws, Only, Separate, Phase, PhaseAfter;
    EmptySystemValid(pr, ids);
    var own := Draws(events, index);
    assert [] + own == own;
    assert Traced(pr, TablesOf(map[], index), Waiting, []) by { NothingTraced(pr, TablesOf(map[], index)); }
    RunTraced(pr, ids, System(map[], map[]), events, index, []);
    RunAdvances(pr, ids, System(map[], map[]), events, index);
    var end := Run(pr, ids, System(map[], map[]), events);
    TraceMeans(pr, TablesOf(end.db, index), ClientOf(end, index), own);
  }

  lemma NothingTraced(pr: Primitives, t: Tables)
    requires 2 <= pr.q
    ensures Traced(pr, t, Waiting, [])
  {
  }

  lemma TraceMeans(pr: Primitives, t: Tables, client: Client, own: seq<Draw>)
    requires SessionValid(pr, t, client) && Traced(pr, t, client, own)
    ensures |own| >= 6 ==> (client.Ready? || client.Signing?) && KeysFrom(pr, t, client.mk2, own)
    ensures |own| >= 8 && |own| % 2 == 0 ==>
              client.Ready? && client.last.Some? && Answers(pr, client.mk2, own[|own| - 2], client.last.value)
  {
    hide KeysFrom, Answers, SharesFrom, SharesAgree, KeysMatch;
  }

  /** From an empty server: once a session has had its six key generation requests served, in any
      interleaving, the client holds a master key matching the one the server stored, and any
      signature it has received since verifies under the child key it was asked for. */
  lemma SessionsComplete(pr: Primitives, ids: iset<DbIndex>, events: seq<Event>, index: DbIndex)
    requires pr.Valid() && Separate(ids) && index in ids && |Only(events, index)| >= 6
    requires (EmptySystemValid(pr, ids); AllowedRun(pr, ids, System(map[], map[]), events))
    ensures SystemValid(pr, ids, System(map[], map[]))
    ensures var end := Run(pr, ids, System(map[], map[]), events);
            var (t, client) := (TablesOf(end.db, index), ClientOf(end, index));
            && (client.Ready? || client.Signing?)
            && t.master.Some? && t.master.value.Master? && Matches(pr, t.master.value.mk1, client.mk2)
            && (client.Ready? ==> ResultVerifies(pr, client.mk2, client.last))
  {
    hide Run, Exchange, Matches, ResultVerifies, AllowedRun;
    EmptySystemValid(pr, ids);
    RunAdvances(pr, ids, System(map[], map[]), events, index);
    SixRequests(|Only(events, index)|);
  }

  lemma EmptySystemValid(pr: Primitives, ids: iset<DbIndex>)
    requires pr.Valid() && Separate(ids)
    ensures SystemValid(pr, ids, System(map[], map[]))
  {
  }

  lemma SixRequests(n: nat)
    requires n >= 6
    ensures PhaseAfter(0, n) >= 6
  {
    assert PhaseAfter(0, n) == PhaseAfter(1, n - 1) == PhaseAfter(2, n - 2) == PhaseAfter(3, n - 3);
    assert PhaseAfter(3, n - 3) == PhaseAfter(4, n - 4) == PhaseAfter(5, n - 5) == PhaseAfter(6, n - 6);
    StaysReady(6, n - 6);
  }

  lemma {:induction false} StaysReady(phase: nat, n: nat)
    requires 6 <= phase <= 7
    ensures PhaseAfter(phase, n) >= 6
    decreases n
  {
    if n != 0 { StaysReady(if phase == 7 then 6 else phase + 1, n - 1); }
  }
}
