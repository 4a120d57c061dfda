/** ECDSA over a group of prime order q: SEC 1 (version 2) signature verification, section 4.1.4,
    and public key recovery, section 4.1.6. A point is represented by its discrete logarithm to
    the base G, a number in [0, q) with 0 for the point at infinity. */
module Ecdsa {
  import opened Common
  import opened NumberTheory

  type Point = int

  datatype Signature = Signature(r: int, s: int, recid: int)

  /** The group order together with the functions that stay uninterpreted: the affine x
      coordinate, the parity of the y coordinate, and HMAC-SHA512 split into its two halves. */
  datatype Primitives = Primitives(
    q: int,
    xcoord: Point -> int,
    parity: Point -> int,
    hmac: (Point, Point, int) -> (int, int))
  {
    ghost predicate Valid() {
      && IsPrime(q)
      && (forall p :: 0 < p < q ==> Symmetric(p))
      && (forall p, t :: 0 < p < q && 0 < t < q && xcoord(p) == xcoord(t) && parity(p) == parity(t) ==> p == t)
    }

    /** A point and its negation share x and differ in the parity of y. */
    ghost predicate Symmetric(p: Point) {
      && 0 <= xcoord(p) && xcoord(q - p) == xcoord(p)
      && (parity(p) == 0 || parity(p) == 1) && parity(q - p) == 1 - parity(p)
    }

    const G: Point := 1

    function Times(k: int, p: Point): Point
      requires 2 <= q
    {
      (k * p) % q
    }

    function Plus(p: Point, t: Point): Point
      requires 2 <= q
    {
      (p + t) % q
    }

    /** SEC 1, section 4.1.4, for the message representative e. */
    predicate Verify(key: Point, e: int, r: int, s: int)
      requires 2 <= q
    {
      && 0 < r < q && 0 < s < q
      && var w := Inverse(s, q);
         var point := Plus(Times(e * w, G), Times(r * w, key));
         point != 0 && xcoord(point) % q == r
    }

    /** SEC 1, section 4.1.6, for recovery ids 0 and 1: lift x = r with the given parity. */
    ghost function Recover(e: int, r: int, s: int, recid: int): Option<Point>
      requires 2 <= q
    {
      if point :| 0 < point < q && xcoord(point) == r && parity(point) == recid
      then Some(Times(Inverse(r, q), s * point - e))
      else None
    }

    /** The other signature of the same message: s negated, and R with it. */
    function Negated(sig: Signature): Signature {
      Signature(sig.r, q - sig.s, 1 - sig.recid)
    }

    // ---------- verification ----------

    /** The equation s * R = e + r * x ties an ephemeral point to a signature. */
    ghost predicate Signs(point: Point, key: Point, e: int, r: int, s: int)
      requires 2 <= q
    {
      0 < point < q && Cong(s * point, e + r * key, q) && xcoord(point) % q == r
    }

    lemma WeightedSum(e: int, r: int, key: int, w: int)
      ensures e * w * 1 + r * w * key == w * (e + r * key)
    {
    }

    lemma CheckPoint(key: Point, e: int, r: int, s: int)
      requires IsPrime(q) && s % q != 0
      ensures var w := Inverse(s, q);
              var point := Plus(Times(e * w, G), Times(r * w, key));
              0 <= point < q && Cong(s * point, e + r * key, q)
    {
      var w := Inverse(s, q);
      InverseCorrect(s, q);
      var a, b := Times(e * w, G), Times(r * w, key);
      ModCong(e * w * G, q);
      ModCong(r * w * key, q);
      CongAdd(a, e * w, b, r * w * key, q);
      ModCong(a + b, q);
      var t := e + r * key;
      WeightedSum(e, r, key, w);
      CongMul(s, s, Plus(a, b), w * t, q);
      Regroup(s, w, t);
      CongMul(s * w, 1, t, t, q);
    }

    /** Verification accepts exactly when r and s are in range and some point satisfies the signing
        equation. */
    lemma VerifyIff(key: Point, e: int, r: int, s: int)
      requires IsPrime(q)
      ensures Verify(key, e, r, s) <==> 0 < r < q && 0 < s < q && exists point :: Signs(point, key, e, r, s)
    {
      if 0 < r < q && 0 < s < q { VerifyPoint(key, e, r, s); }
    }

    lemma VerifyPoint(key: Point, e: int, r: int, s: int)
      requires IsPrime(q) && 0 < r < q && 0 < s < q
      ensures Verify(key, e, r, s) <==> exists point :: Signs(point, key, e, r, s)
    {
      ModUnique(s, q, 0, s);
      CheckPoint(key, e, r, s);
      var w := Inverse(s, q);
      var point := Plus(Times(e * w, G), Times(r * w, key));
      if Verify(key, e, r, s) {
        assert Signs(point, key, e, r, s);
      }
      forall t | Signs(t, key, e, r, s)
        ensures t == point
      {
        Cancel(q, s, t, point);
        ModUnique(t, q, 0, t);
        ModUnique(point, q, 0, point);
      }
    }

    lemma NegatedSigns(point: Point, key: Point, e: int, r: int, s: int)
      requires Valid() && Signs(point, key, e, r, s)
      ensures Signs(q - point, key, e, r, q - s)
    {
      assert Symmetric(point);
      assert (q - s) * (q - point) - s * point == q * (q - s - point);
      CongFromDiff((q - s) * (q - point), s * point, q, q - s - point);
    }

    /** A signature verifies if and only if the one with s negated does. */
    lemma NegatedVerifies(key: Point, e: int, r: int, s: int)
      requires Valid() && 0 < s < q
      ensures Verify(key, e, r, s) <==> Verify(key, e, r, q - s)
    {
      if 0 < r < q {
        VerifyIff(key, e, r, s);
        var t := q - s;
        VerifyIff(key, e, r, t);
        if point :| Signs(point, key, e, r, s) { NegatedSigns(point, key, e, r, s); }
        if point :| Signs(point, key, e, r, t) { NegatedSigns(point, key, e, r, t); }
      }
    }

    // ---------- recovery ----------

    lemma RecoveredEquation(point: Point, key: Point, e: int, r: int, s: int)
      requires IsPrime(q) && r % q != 0 && 0 <= key < q
      ensures Times(Inverse(r, q), s * point - e) == key <==> Cong(s * point, e + r * key, q)
    {
      var w := Inverse(r, q);
      InverseCorrect(r, q);
      var t := s * point - e;
      ModCong(w * t, q);
      ModUnique(key, q, 0, key);
      Regroup(r, w, t);
      CongMul(r * w, 1, t, t, q);
      if Times(w, t) == key {
        CongMul(r, r, key, w * t, q);
        CongAdd(t, r * key, e, e, q);
      }
      if Cong(s * point, e + r * key, q) {
        CongAdd(s * point, e + r * key, e, e, q);
        Cancel(q, r, w * t, key);
      }
    }

    /** Recovery answers exactly the key for which the point with the given x coordinate and parity
        satisfies the signing equation. */
    lemma RecoverExact(e: int, r: int, s: int, recid: int, key: Point)
      requires Valid() && 0 < r < q
      ensures Recover(e, r, s, recid) == Some(key) <==>
                0 <= key < q && exists point :: 0 < point < q && xcoord(point) == r && parity(point) == recid && Signs(point, key, e, r, s)
    {
      ModUnique(r, q, 0, r);
      if point :| 0 < point < q && xcoord(point) == r && parity(point) == recid {
        ModCong(Inverse(r, q) * (s * point - e), q);
        if 0 <= key < q { RecoveredEquation(point, key, e, r, s); }
      }
    }

    /** Recovery from a signature made with ephemeral point R yields the signing key exactly when
        the x coordinate of R is below q, that is, when r was not reduced. */
    lemma RecoverIff(point: Point, key: Point, e: int, r: int, s: int)
      requires Valid() && Signs(point, key, e, r, s) && 0 < r && 0 < s < q && 0 <= key < q
      ensures Recover(e, r, s, parity(point)) == Some(key) <==> xcoord(point) < q
    {
      assert Symmetric(point);
      ModUnique(r, q, 0, r);
      if xcoord(point) < q {
        ModUnique(xcoord(point), q, 0, xcoord(point));
        RecoveredEquation(point, key, e, r, s);
      } else {
        forall t | 0 < t < q && xcoord(t) == r && parity(t) == parity(point)
          ensures Times(Inverse(r, q), s * t - e) != key
        {
          RecoveredEquation(t, key, e, r, s);
          if Cong(s * t, e + r * key, q) {
            ModUnique(s, q, 0, s);
            Cancel(q, s, t, point);
            ModUnique(t, q, 0, t);
            ModUnique(point, q, 0, point);
          }
        }
      }
    }

    /** The same holds of the signature with s negated and the recovery id flipped. */
    lemma NegatedRecoverIff(point: Point, key: Point, e: int, r: int, s: int)
      requires Valid() && Signs(point, key, e, r, s) && 0 < r && 0 < s < q && 0 <= key < q
      ensures var other := Negated(Signature(r, s, parity(point)));
              Recover(e, other.r, other.s, other.recid) == Some(key) <==> xcoord(point) < q
    {
      assert Symmetric(point);
      NegatedSigns(point, key, e, r, s);
      RecoverIff(q - point, key, e, r, q - s);
    }
  }
}
