/** Escrow backup of a secret share and its recovery: the share is cut into small digits, each
    encrypted by ElGamal in the exponent under the escrow's key, and read back by searching the
    few possible discrete logarithms. */
module Escrow {
  import opened Common
  import opened NumberTheory
  import opened Ecdsa
  import opened Paillier
  import opened MasterKeys
  import opened TwoPartySigning

  const SEGMENT_SIZE := 8
  const NUM_SEGMENTS := 32

  datatype EscrowKey = EscrowKey(secret: int, public: Point)

  ghost predicate ValidEscrow(pr: Primitives, escrow: EscrowKey) {
    pr.Valid() && 0 <= escrow.secret < pr.q && escrow.public == pr.Times(escrow.secret, pr.G)
  }

  datatype Ciphertext = Ciphertext(d: Point, e: Point)

  // ---------- segmentation ----------

  /** The lowest `count` digits of x to a base, least significant first. */
  function Digits(x: nat, base: nat, count: nat): seq<nat>
    requires 2 <= base
  {
    if count == 0 then [] else [x % base] + Digits(x / base, base, count - 1)
  }

  function Assemble(digits: seq<nat>, base: nat): nat {
    if digits == [] then 0
    else
      NonNegProduct(base, Assemble(digits[1..], base));
      digits[0] + base * Assemble(digits[1..], base)
  }

  lemma {:induction false} DigitsShape(x: nat, base: nat, count: nat)
    requires 2 <= base
    ensures |Digits(x, base, count)| == count && forall i :: 0 <= i < count ==> Digits(x, base, count)[i] < base
  {
    if count != 0 { DigitsShape(x / base, base, count - 1); }
  }

  lemma DigitStep(x: int, base: int, bound: int, y: int, k: int, low: int)
    requires 2 <= base && 0 <= y < bound && 0 <= low < base && x == base * (bound * k + y) + low
    ensures 0 < base * bound && x % (base * bound) == low + base * y
  {
    ScaledAtLeast(base, bound);
    NonNegProduct(base, y);
    NonNegProduct(base, bound - 1 - y);
    Regroup(base, bound, k);
    ModUnique(x, base * bound, k, low + base * y);
  }

  lemma DigitMod(x: nat, base: nat, bound: nat)
    requires 2 <= base && 0 < bound
    ensures 0 < base * bound && x % (base * bound) == x % base + base * ((x / base) % bound)
  {
    var h := x / base;
    DigitStep(x, base, bound, h % bound, h / bound, x % base);
  }

  lemma {:induction false} AssembleDigits(x: nat, base: nat, count: nat)
    requires 2 <= base
    ensures 0 < Pow(base, count) && Assemble(Digits(x, base, count), base) == x % Pow(base, count)
  {
    if count == 0 {
      ModUnique(x, 1, x, 0);
    } else {
      AssembleDigits(x / base, base, count - 1);
      assert Digits(x, base, count)[1..] == Digits(x / base, base, count - 1);
      DigitMod(x, base, Pow(base, count - 1));
    }
  }

  lemma QuotientTwice(x: nat, a: nat, b: nat)
    requires 0 < a && 0 < b
    ensures 0 < a * b && x / a / b == x / (a * b)
  {
    var h := x / a;
    var low := a * (h % b) + x % a;
    ScaledAtLeast(a, b);
    NonNegProduct(a, h % b);
    NonNegProduct(a, b - 1 - h % b);
    Regroup(a, b, h / b);
    ModUnique(x, a * b, h / b, low);
  }

  /** Digit i is the one of weight base^i. */
  lemma {:induction false} DigitAt(x: nat, base: nat, count: nat, i: nat)
    requires 2 <= base && i < count
    ensures 0 < Pow(base, i) && |Digits(x, base, count)| == count && Digits(x, base, count)[i] == x / Pow(base, i) % base
  {
    hide Digits, Pow;
    DigitsShape(x, base, count);
    DigitNext(x, base, count);
    PowPositive(base, i);
    PowStep(base, i);
    if i == 0 {
      OverOne(x);
    } else {
      var (h, b) := (x / base, Pow(base, i - 1));
      PowPositive(base, i - 1);
      DigitAt(h, base, count - 1, i - 1);
      DigitShift(x, base, b, Digits(h, base, count - 1)[i - 1], Pow(base, i));
    }
  }

  lemma DigitShift(x: nat, base: nat, b: nat, digit: nat, weight: int)
    requires 2 <= base && 0 < b && digit == x / base / b % base && weight == base * b
    ensures 0 < weight && digit == x / weight % base
  {
    QuotientTwice(x, base, b);
  }

  lemma OverOne(x: nat)
    ensures x / 1 == x
  {
  }

  lemma DigitNext(x: nat, base: nat, count: nat)
    requires 2 <= base && 0 < count
    ensures Digits(x, base, count) == [x % base] + Digits(x / base, base, count - 1)
  {
  }

  lemma PowStep(base: nat, i: nat)
    ensures Pow(base, i) == if i == 0 then 1 else base * Pow(base, i - 1)
  {
  }

  /** Cutting into `count` digits and reassembling returns the number exactly when it has no more
      digits than that. */
  lemma SegmentsRoundTrip(x: nat, base: nat, count: nat)
    requires 2 <= base
    ensures Assemble(Digits(x, base, count), base) == x <==> x < Pow(base, count)
  {
    AssembleDigits(x, base, count);
    ModCong(x, Pow(base, count));
    if x < Pow(base, count) { ModUnique(x, Pow(base, count), 0, x); }
  }

  // ---------- encryption ----------

  function EncryptSegment(pr: Primitives, key: Point, digit: nat, r: int): Ciphertext
    requires 2 <= pr.q
  {
    Ciphertext(pr.Plus(pr.Times(digit, pr.G), pr.Times(r, key)), pr.Times(r, pr.G))
  }

  function EncryptAll(pr: Primitives, key: Point, digits: seq<nat>, rs: seq<int>): seq<Ciphertext>
    requires 2 <= pr.q && |rs| == |digits|
  {
    seq(|digits|, i requires 0 <= i < |digits| => EncryptSegment(pr, key, digits[i], rs[i]))
  }

  /** What the wallet's backup file holds of a share. */
  function Backup(pr: Primitives, key: Point, share: nat, base: nat, rs: seq<int>): seq<Ciphertext>
    requires 2 <= pr.q && 2 <= base
  {
    DigitsShape(share, base, |rs|);
    EncryptAll(pr, key, Digits(share, base, |rs|), rs)
  }

  // ---------- decryption ----------

  /** The point D - k * E. */
  function Unblind(pr: Primitives, secret: int, c: Ciphertext): Point
    requires 2 <= pr.q
  {
    (c.d - secret * c.e) % pr.q
  }

  /** The digit below the base whose multiple of G is the given point, if there is one. */
  ghost predicate IsLog(pr: Primitives, base: nat, point: Point, digit: nat)
    requires 2 <= pr.q
  {
    digit < base && pr.Times(digit, pr.G) == point
  }

  method FindLog(pr: Primitives, base: nat, point: Point) returns (digit: Option<nat>)
    requires 2 <= pr.q
    ensures match digit
            case Some(d) => IsLog(pr, base, point, d)
            case None => forall d :: !IsLog(pr, base, point, d)
  {
    var candidate := 0;
    while candidate < base
      invariant candidate <= base && forall d :: IsLog(pr, base, point, d) ==> candidate <= d
    {
      if pr.Times(candidate, pr.G) == point {
        return Some(candidate);
      }
      candidate := candidate + 1;
    }
    digit := None;
  }

  /** Decrypts every segment and reassembles the share; fails when a segment has no small logarithm. */
  method Decrypt(pr: Primitives, base: nat, secret: int, ciphertexts: seq<Ciphertext>) returns (share: Option<nat>)
    requires 2 <= pr.q && base <= pr.q
    ensures share.Some? ==> exists digits :: Decodes(pr, base, secret, ciphertexts, digits) && Assemble(digits, base) == share.value
    ensures share.None? ==> forall digits :: !Decodes(pr, base, secret, ciphertexts, digits)
  {
    var found: seq<nat> := [];
    var i := 0;
    while i < |ciphertexts|
      invariant i <= |ciphertexts| && |found| == i
      invariant Decodes(pr, base, secret, ciphertexts[..i], found)
    {
      var digit := FindLog(pr, base, Unblind(pr, secret, ciphertexts[i]));
      if digit.None? {
        return None;
      }
      found := found + [digit.value];
      i := i + 1;
    }
    assert ciphertexts[..i] == ciphertexts;
    share := Some(Assemble(found, base));
  }

  /** The digits are small logarithms of the unblinded segments. */
  ghost predicate Decodes(pr: Primitives, base: nat, secret: int, ciphertexts: seq<Ciphertext>, digits: seq<nat>)
    requires 2 <= pr.q
  {
    |digits| == |ciphertexts|
    && forall i :: 0 <= i < |digits| ==> IsLog(pr, base, Unblind(pr, secret, ciphertexts[i]), digits[i])
  }

  /** Each search has at most one hit. */
  lemma LogUnique(pr: Primitives, base: nat, point: Point, a: nat, b: nat)
    requires 2 <= pr.q && base <= pr.q && IsLog(pr, base, point, a) && IsLog(pr, base, point, b)
    ensures a == b == point
  {
    ModUnique(a, pr.q, 0, a);
    ModUnique(b, pr.q, 0, b);
  }

  lemma DecodingUnique(pr: Primitives, base: nat, secret: int, ciphertexts: seq<Ciphertext>, a: seq<nat>, b: seq<nat>)
    requires 2 <= pr.q && base <= pr.q
    requires Decodes(pr, base, secret, ciphertexts, a) && Decodes(pr, base, secret, ciphertexts, b)
    ensures a == b
  {
    forall i | 0 <= i < |a|
      ensures a[i] == b[i]
    {
      LogUnique(pr, base, Unblind(pr, secret, ciphertexts[i]), a[i], b[i]);
    }
  }

  lemma UnblindAlgebra(d: int, r: int, k: int)
    ensures (d + r * k) - k * r == d
  {
  }

  /** Unblinding an encrypted digit leaves its multiple of G. */
  lemma SegmentUnblinds(pr: Primitives, escrow: EscrowKey, digit: nat, r: int)
    requires ValidEscrow(pr, escrow)
    ensures Unblind(pr, escrow.secret, EncryptSegment(pr, escrow.public, digit, r)) == pr.Times(digit, pr.G)
  {
    var (q, k) := (pr.q, escrow.secret);
    var c := EncryptSegment(pr, escrow.public, digit, r);
    TimesTimes(pr, r, k);
    ModCong(r * k, q);
    ModCong(digit, q);
    CongAdd(pr.Times(digit, pr.G), digit, pr.Times(r, escrow.public), r * k, q);
    ModCong(pr.Times(digit, pr.G) + pr.Times(r, escrow.public), q);
    ModCong(r, q);
    CongMul(k, k, c.e, r, q);
    CongAdd(c.d, digit + r * k, k * c.e, k * r, q);
    UnblindAlgebra(digit, r, k);
  }

  /** Backup round trip: for any digit base and count that hold the share, its backup decodes to the
      share's digits and to nothing else, and those reassemble to the share. */
  lemma BackupRoundTrip(pr: Primitives, escrow: EscrowKey, share: nat, base: nat, rs: seq<int>)
    requires ValidEscrow(pr, escrow) && 2 <= base <= pr.q && share < Pow(base, |rs|)
    ensures var backup := Backup(pr, escrow.public, share, base, rs);
            && Decodes(pr, base, escrow.secret, backup, Digits(share, base, |rs|))
            && (forall digits :: Decodes(pr, base, escrow.secret, backup, digits) ==> Assemble(digits, base) == share)
  {
    var (backup, cut) := (Backup(pr, escrow.public, share, base, rs), Digits(share, base, |rs|));
    DigitsShape(share, base, |rs|);
    SegmentsRoundTrip(share, base, |rs|);
    forall i | 0 <= i < |cut|
      ensures IsLog(pr, base, Unblind(pr, escrow.secret, backup[i]), cut[i])
    {
      SegmentUnblinds(pr, escrow, cut[i], rs[i]);
    }
    forall digits | Decodes(pr, base, escrow.secret, backup, digits)
      ensures digits == cut
    {
      DecodingUnique(pr, base, escrow.secret, backup, digits, cut);
    }
  }

  /** Decrypting a backup file with the escrow's secret returns the share. */
  method RestoreShare(pr: Primitives, escrow: EscrowKey, share: nat, base: nat, rs: seq<int>) returns (restored: Option<nat>)
    requires ValidEscrow(pr, escrow) && 2 <= base <= pr.q && share < Pow(base, |rs|)
    ensures restored == Some(share)
  {
    BackupRoundTrip(pr, escrow, share, base, rs);
    restored := Decrypt(pr, base, escrow.secret, Backup(pr, escrow.public, share, base, rs));
  }

  /** What the backup holds: segment i is the pair (d * G + r * Q, r * G) for the digit d of weight
      base^i and the i-th random number r. */
  lemma BackupExact(pr: Primitives, key: Point, share: nat, base: nat, rs: seq<int>, i: nat)
    requires 2 <= pr.q && 2 <= base && i < |rs|
    ensures 0 < Pow(base, i) && |Backup(pr, key, share, base, rs)| == |rs|
    ensures Backup(pr, key, share, base, rs)[i] == Ciphertext((share / Pow(base, i) % base + rs[i] * key) % pr.q, rs[i] % pr.q)
  {
    DigitsShape(share, base, |rs|);
    DigitAt(share, base, |rs|, i);
    SegmentResidue(pr, key, Digits(share, base, |rs|)[i], rs[i]);
  }

  /** The parameters of the wallet, 32 segments of 8 bits, hold every share of a 256-bit group. */
  lemma WalletParametersFit(pr: Primitives, share: nat)
    requires share < pr.q <= Pow(256, 32)
    ensures Pow(2, SEGMENT_SIZE) == 256 && share < Pow(Pow(2, SEGMENT_SIZE), NUM_SEGMENTS) == Pow(256, 32)
  {
    PowPow(2, 2, 4);
    assert Pow(2, 2) == 2 * Pow(2, 1) && Pow(2, 1) == 2 * Pow(2, 0);
    PowPow(4, 2, 2);
    assert Pow(4, 2) == 4 * Pow(4, 1) && Pow(4, 1) == 4 * Pow(4, 0);
    assert Pow(16, 2) == 16 * Pow(16, 1) && Pow(16, 1) == 16 * Pow(16, 0);
  }

  // ---------- what verification of a backup relies on ----------

  /** The combination of the ciphertexts weighted by the powers of the base. */
  function Combine(pr: Primitives, base: nat, ciphertexts: seq<Ciphertext>): Ciphertext
    requires 2 <= pr.q
  {
    if ciphertexts == [] then Ciphertext(0, 0)
    else
      var rest := Combine(pr, base, ciphertexts[1..]);
      Ciphertext(pr.Plus(ciphertexts[0].d, pr.Times(base, rest.d)), pr.Plus(ciphertexts[0].e, pr.Times(base, rest.e)))
  }

  function CombineInts(base: nat, rs: seq<int>): int {
    if rs == [] then 0 else rs[0] + base * CombineInts(base, rs[1..])
  }

  lemma HornerStep(pr: Primitives, base: nat, a: int, b: int)
    requires 2 <= pr.q
    ensures pr.Plus(a % pr.q, pr.Times(base, b % pr.q)) == (a + base * b) % pr.q
  {
    var q := pr.q;
    ModCong(a, q);
    ModCong(b, q);
    CongMul(base, base, b % q, b, q);
    ModCong(base * (b % q), q);
    CongAdd(a % q, a, pr.Times(base, b % q), base * b, q);
  }

  lemma HornerAlgebra(d: int, r: int, key: int, base: int, x: int, s: int)
    ensures (d + r * key) + base * (x + s * key) == (d + base * x) + (r + base * s) * key
  {
  }

  lemma SegmentResidue(pr: Primitives, key: Point, digit: nat, r: int)
    requires 2 <= pr.q
    ensures EncryptSegment(pr, key, digit, r) == Ciphertext((digit + r * key) % pr.q, r % pr.q)
  {
    var q := pr.q;
    ModCong(digit, q);
    ModCong(r * key, q);
    CongAdd(digit % q, digit, (r * key) % q, r * key, q);
  }

  /** The weighted combination of a backup is one ElGamal encryption of the reassembled number, so
      it can be checked against the share's public point without decrypting. */
  lemma {:induction false} CombinedIsElGamal(pr: Primitives, key: Point, digits: seq<nat>, base: nat, rs: seq<int>)
    requires 2 <= pr.q && |rs| == |digits|
    ensures Combine(pr, base, EncryptAll(pr, key, digits, rs))
            == EncryptSegment(pr, key, Assemble(digits, base), CombineInts(base, rs))
    decreases |digits|
  {
    var all := EncryptAll(pr, key, digits, rs);
    SegmentResidue(pr, key, Assemble(digits, base), CombineInts(base, rs));
    if digits == [] {
      assert 0 * key == 0;
      ModUnique(0, pr.q, 0, 0);
    } else {
      var (d, r) := (digits[0], rs[0]);
      var (x, s) := (Assemble(digits[1..], base), CombineInts(base, rs[1..]));
      CombinedIsElGamal(pr, key, digits[1..], base, rs[1..]);
      assert all[1..] == EncryptAll(pr, key, digits[1..], rs[1..]);
      SegmentResidue(pr, key, x, s);
      SegmentResidue(pr, key, d, r);
      HornerStep(pr, base, d + r * key, x + s * key);
      HornerStep(pr, base, r, s);
      HornerAlgebra(d, r, key, base, x, s);
    }
  }

  /** The backup of the client's share combines to an encryption of its public point p2. */
  lemma BackupHidesPublicPoint(pr: Primitives, mk1: MasterKey1, mk2: MasterKey2, escrow: EscrowKey, base: nat, rs: seq<int>)
    requires Matches(pr, mk1, mk2) && ValidEscrow(pr, escrow) && 2 <= base && mk2.x2 < Pow(base, |rs|)
    ensures var r := CombineInts(base, rs);
            Combine(pr, base, Backup(pr, escrow.public, mk2.x2, base, rs))
            == Ciphertext(pr.Plus(mk2.p2, pr.Times(r, escrow.public)), pr.Times(r, pr.G))
  {
    DigitsShape(mk2.x2, base, |rs|);
    SegmentsRoundTrip(mk2.x2, base, |rs|);
    CombinedIsElGamal(pr, escrow.public, Digits(mk2.x2, base, |rs|), base, rs);
  }

  // ---------- recovery of the whole key ----------

  /** The server's master key rebuilt by the client from the decrypted share. */
  function CounterMasterKey(pr: Primitives, mk2: MasterKey2, x1: nat, key: DecryptionKey, blind: int): MasterKey1
    requires 2 <= pr.q && 0 < key.N()
  {
    MasterKey1(mk2.pub, pr.Times(x1, pr.G), mk2.p2, x1, key, Encrypt(key.N(), x1, blind), mk2.cc)
  }

  function ConstructSinglePrivateKey(pr: Primitives, x1: int, x2: int): int
    requires 2 <= pr.q
  {
    (x1 * x2) % pr.q
  }

  /** Recovery yields the real key on every path: the server's key rebuilt from its decrypted backup
      derives children with the client's public parts and chain code and the public key the lost
      server would derive, keeps matching the client once it is told the new Paillier key, and the
      two child secrets multiply to a private key of that public key. */
  lemma RecoveryYieldsKey(pr: Primitives, mk1: MasterKey1, mk2: MasterKey2, escrow: EscrowKey, base: nat, rs: seq<int>,
                          digits: seq<nat>, key: DecryptionKey, blind: int, path: seq<int>)
    requires Matches(pr, mk1, mk2) && ValidEscrow(pr, escrow) && 2 <= base <= pr.q && mk1.x1 < Pow(base, |rs|)
    requires Decodes(pr, base, escrow.secret, Backup(pr, escrow.public, mk1.x1, base, rs), digits)
    requires WideKey(pr, key) && key.Unit(blind) && 0 < key.N()
    ensures var recovered := CounterMasterKey(pr, mk2, Assemble(digits, base), key, blind);
            var (child1, child2) := (GetChild1(pr, recovered, path), GetChild2(pr, mk2, path));
            && child1.pub == child2.pub == GetChild1(pr, mk1, path).pub
            && child1.p1 == child2.p1 && child1.p2 == child2.p2 && child1.cc == child2.cc
            && child1.x1 == mk1.x1
            && Matches(pr, child1, child2.(n := key.N(), cKey := recovered.cKey))
            && EncryptsWith(key, recovered.cKey, mk1.x1, blind)
            && 0 <= ConstructSinglePrivateKey(pr, child1.x1, child2.x2) < pr.q
            && pr.Times(ConstructSinglePrivateKey(pr, child1.x1, child2.x2), pr.G) == child2.pub
  {
    hide Backup, Decodes, Assemble, Encrypts, EncryptsWith, WideKey;
    BackupRoundTrip(pr, escrow, mk1.x1, base, rs);
    var recovered := CounterMasterKey(pr, mk2, mk1.x1, key, blind);
    RecoveredMatches(pr, mk1, mk2, key, blind);
    OtherPaillier(pr, mk2, key.N(), recovered.cKey, path);
    DerivationMatches(pr, recovered, mk2.(n := key.N(), cKey := recovered.cKey), path);
    DerivationMatches(pr, mk1, mk2, path);
    SinglePrivateKey(pr, GetChild1(pr, mk1, path), GetChild2(pr, mk2, path));
  }

  lemma {:induction false} OtherPaillier(pr: Primitives, mk: MasterKey2, n: int, cKey: int, path: seq<int>)
    requires 2 <= pr.q
    ensures GetChild2(pr, mk.(n := n, cKey := cKey), path) == GetChild2(pr, mk, path).(n := n, cKey := cKey)
    decreases |path|
  {
    if path != [] { OtherPaillier(pr, ChildStep2(pr, mk, path[0]), n, cKey, path[1..]); }
  }

  lemma RecoveredMatches(pr: Primitives, mk1: MasterKey1, mk2: MasterKey2, key: DecryptionKey, blind: int)
    requires Matches(pr, mk1, mk2) && WideKey(pr, key) && key.Unit(blind) && 0 < key.N()
    ensures Matches(pr, CounterMasterKey(pr, mk2, mk1.x1, key, blind),
                    mk2.(n := key.N(), cKey := Encrypt(key.N(), mk1.x1, blind)))
    ensures EncryptsWith(key, CounterMasterKey(pr, mk2, mk1.x1, key, blind).cKey, mk1.x1, blind)
  {
    EncryptEncrypts(key, mk1.x1, blind);
  }

  lemma SinglePrivateKey(pr: Primitives, child1: MasterKey1, child2: MasterKey2)
    requires Matches(pr, child1, child2)
    ensures pr.Times(ConstructSinglePrivateKey(pr, child1.x1, child2.x2), pr.G) == child2.pub
  {
    ModCong(child1.x1 * child2.x2, pr.q);
  }
}
