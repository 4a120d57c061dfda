/** Big-endian byte strings: BigInt::to_vec, U256::from_big_endian and the compact signature
    format of 32 bytes of r followed by 32 bytes of s. */
module BigEndian {
  import opened Common
  import opened NumberTheory

  type Byte = b: int | 0 <= b < 256

  /** The shortest big-endian encoding; zero has the empty one. */
  function ToVec(n: nat): seq<Byte> {
    if n == 0 then [] else ToVec(n / 256) + [n % 256]
  }

  function FromBytes(bytes: seq<Byte>): nat {
    if bytes == [] then 0 else 256 * FromBytes(bytes[..|bytes| - 1]) + bytes[|bytes| - 1]
  }

  function Zeros(k: nat): seq<Byte> {
    seq(k, _ => 0)
  }

  /** Left padding to 32 bytes, as a fixed-width field needs. */
  function Pad32(bytes: seq<Byte>): seq<Byte>
    requires |bytes| <= 32
  {
    Zeros(32 - |bytes|) + bytes
  }

  /** Signature::from_compact: exactly 64 bytes, both halves below the group order. */
  function FromCompact(q: int, bytes: seq<Byte>): Option<(nat, nat)> {
    if |bytes| != 64 then None
    else
      var (r, s) := (FromBytes(bytes[..32]), FromBytes(bytes[32..]));
      if r < q && s < q then Some((r, s)) else None
  }

  lemma {:induction false} RoundTrip(n: nat)
    ensures FromBytes(ToVec(n)) == n
  {
    if n != 0 {
      RoundTrip(n / 256);
      assert ToVec(n)[..|ToVec(n)| - 1] == ToVec(n / 256);
    }
  }

  /** The encoding has at most k bytes exactly when the number is below 256^k. */
  lemma {:induction false} LengthIff(n: nat, k: nat)
    ensures |ToVec(n)| <= k <==> n < Pow(256, k)
  {
    PowPositive(256, k);
    if k != 0 && n != 0 {
      LengthIff(n / 256, k - 1);
    }
  }

  lemma {:induction false} LeadingZeros(k: nat, bytes: seq<Byte>)
    ensures FromBytes(Zeros(k) + bytes) == FromBytes(bytes)
    decreases |bytes| + k
  {
    var all := Zeros(k) + bytes;
    if bytes != [] {
      assert all[..|all| - 1] == Zeros(k) + bytes[..|bytes| - 1];
      LeadingZeros(k, bytes[..|bytes| - 1]);
    } else if k != 0 {
      assert all[..|all| - 1] == Zeros(k - 1) + [];
      LeadingZeros(k - 1, []);
    }
  }

  /** The padded 64-byte form of any two numbers below the group order decodes to them. */
  lemma PaddedDecodes(q: int, r: nat, s: nat)
    requires q <= Pow(256, 32) && r < q && s < q
    ensures |ToVec(r)| <= 32 && |ToVec(s)| <= 32
    ensures FromCompact(q, Pad32(ToVec(r)) + Pad32(ToVec(s))) == Some((r, s))
  {
    LengthIff(r, 32);
    LengthIff(s, 32);
    var bytes := Pad32(ToVec(r)) + Pad32(ToVec(s));
    assert bytes[..32] == Pad32(ToVec(r)) && bytes[32..] == Pad32(ToVec(s));
    LeadingZeros(32 - |ToVec(r)|, ToVec(r));
    LeadingZeros(32 - |ToVec(s)|, ToVec(s));
    RoundTrip(r);
    RoundTrip(s);
  }

  lemma {:induction false} PadsBack(bytes: seq<Byte>)
    ensures |ToVec(FromBytes(bytes))| <= |bytes|
    ensures bytes == Zeros(|bytes| - |ToVec(FromBytes(bytes))|) + ToVec(FromBytes(bytes))
  {
    if bytes != [] {
      var (front, last) := (bytes[..|bytes| - 1], bytes[|bytes| - 1]);
      PadsBack(front);
      assert bytes == front + [last];
      if FromBytes(bytes) == 0 {
        assert front == Zeros(|front|);
      }
    }
  }

  /** The compact format is canonical: a byte string decodes to (r, s) exactly when it is their
      padded form and both are below the group order. */
  lemma CompactExact(q: int, bytes: seq<Byte>, r: nat, s: nat)
    requires q <= Pow(256, 32)
    ensures FromCompact(q, bytes) == Some((r, s)) <==>
              && r < q && s < q && |ToVec(r)| <= 32 && |ToVec(s)| <= 32
              && bytes == Pad32(ToVec(r)) + Pad32(ToVec(s))
  {
    hide FromBytes, ToVec, Zeros, Pow;
    if r < q && s < q { PaddedDecodes(q, r, s); }
    if FromCompact(q, bytes) == Some((r, s)) {
      var (a, b) := (bytes[..32], bytes[32..]);
      PadsBack(a);
      PadsBack(b);
      assert a == Pad32(ToVec(r)) && b == Pad32(ToVec(s));
      assert bytes == a + b;
    }
  }

  /** A number that needs all 32 bytes. */
  predicate FullWidth(n: int) {
    Pow(256, 31) <= n
  }

  /** Concatenating the shortest encodings, as the Bitcoin wallet does, gives the compact form
      exactly when both numbers need 32 bytes; otherwise it is not 64 bytes and is rejected. */
  lemma ConcatenationIff(q: int, r: nat, s: nat)
    requires q <= Pow(256, 32) && r < q && s < q
    ensures |ToVec(r)| <= 32 && |ToVec(s)| <= 32
    ensures ToVec(r) + ToVec(s) == Pad32(ToVec(r)) + Pad32(ToVec(s)) <==> FullWidth(r) && FullWidth(s)
    ensures FromCompact(q, ToVec(r) + ToVec(s)) == if FullWidth(r) && FullWidth(s) then Some((r, s)) else None
  {
    LengthIff(r, 32);
    LengthIff(s, 32);
    LengthIff(r, 31);
    LengthIff(s, 31);
    if FullWidth(r) && FullWidth(s) {
      assert Zeros(0) == [];
      assert ToVec(r) == Pad32(ToVec(r)) && ToVec(s) == Pad32(ToVec(s));
      PaddedDecodes(q, r, s);
    } else {
      assert |ToVec(r) + ToVec(s)| < 64;
    }
  }
}
