/**
  PADMÉ bucket sizes (Nikitin et al. 2019, Algorithm 1): a length is rounded up so that its low E - S bits are zero, where
  E is the position of its highest bit and S the number of bits E itself takes.
 */
module Padding {
  import opened Bits
  import opened Digits

  /** The least multiple of q that is at least n: for q = 2^k what `(n + mask) & ~mask` computes with mask = 2^k - 1. */
  function RoundUp(n: nat, q: nat): (r: nat)
    requires q > 0
  {
    ((n + q - 1) / q) * q
  }

  lemma RoundUpBounds(n: nat, q: nat)
    requires q > 0
    ensures n <= RoundUp(n, q) < n + q
  {
    var m := (n + q - 1) / q;
    assert n + q - 1 == q * m + (n + q - 1) % q;
  }

  lemma RoundUpLeast(n: nat, q: nat, m: nat)
    requires q > 0 && n <= m * q
    ensures RoundUp(n, q) <= m * q
  {
    var r := (n + q - 1) / q;
    RoundUpBounds(n, q);
    if r > m {
      MulMonotone(m + 1, r, q);
      MulSuccessor(m, q);
    }
  }

  lemma RoundUpMultiple(m: nat, q: nat)
    requires q > 0
    ensures RoundUp(m * q, q) == m * q
  {
    RoundUpLeast(m * q, q, m);
    RoundUpBounds(m * q, q);
  }

  lemma RoundUpMonotone(a: nat, b: nat, q: nat)
    requires q > 0 && a <= b
    ensures RoundUp(a, q) <= RoundUp(b, q)
  {
    RoundUpBounds(b, q);
    RoundUpLeast(a, q, (b + q - 1) / q);
  }

  lemma RoundUpTwice(n: nat, q: nat)
    requires q > 0
    ensures RoundUp(RoundUp(n, q), q) == RoundUp(n, q)
  {
    RoundUpMultiple((n + q - 1) / q, q);
  }

  /** The width of the buckets between 2^exponent and 2^(exponent + 1). */
  function Grain(exponent: nat): (q: nat)
    ensures q > 0
  {
    BitLengthSmall(exponent);
    Pow2(exponent - BitLength(exponent))
  }

  function Padme(length: nat): nat {
    if length < 2 then length else RoundUp(length, Grain(BitLength(length) - 1))
  }

  lemma {:induction false} BitLengthSmall(e: nat)
    ensures BitLength(e) <= e
  {
    if e >= 2 { BitLengthSmall(e / 2); }
  }

  /** The exponent of a length. */
  lemma Exponent(length: nat) returns (e: nat)
    requires length >= 2
    ensures e >= 1 && Pow2(e) <= length < Pow2(e + 1)
    ensures Padme(length) == RoundUp(length, Grain(e))
  {
    BitLengthBounds(length);
    e := BitLength(length) - 1;
  }

  lemma PadmeAt(length: nat, e: nat)
    requires e >= 1 && Pow2(e) <= length < Pow2(e + 1)
    ensures Padme(length) == RoundUp(length, Grain(e))
  {
    BitLengthUnique(length, e);
    Pow2Monotone(1, e);
  }

  /** Both ends of the range of an exponent are multiples of its grain. */
  lemma GrainDivides(e: nat)
    requires e >= 1
    ensures Pow2(e) == Pow2(BitLength(e)) * Grain(e)
    ensures Pow2(e + 1) == Pow2(BitLength(e) + 1) * Grain(e)
  {
    BitLengthSmall(e);
    Pow2Add(BitLength(e), e - BitLength(e));
    Pow2Add(BitLength(e) + 1, e - BitLength(e));
  }

  /** A length fits its bucket. */
  lemma PadmeCovers(length: nat)
    ensures length <= Padme(length)
  {
    if length >= 2 {
      RoundUpBounds(length, Grain(BitLength(length) - 1));
    }
  }

  /** A bucket stays within the next power of two. */
  lemma PadmeWithin(length: nat, e: nat)
    requires e >= 1 && Pow2(e) <= length < Pow2(e + 1)
    ensures Padme(length) <= Pow2(e + 1)
  {
    PadmeAt(length, e);
    GrainDivides(e);
    RoundUpLeast(length, Grain(e), Pow2(BitLength(e) + 1));
  }

  /** A bucket is the next multiple of 2^(e - s), where e is the position of the length's highest bit and s the number of bits
      of e: no further away than one such step. */
  lemma PadmeIsRounded(length: nat, e: nat, s: nat)
    requires s >= 1 && Pow2(e) <= length < Pow2(e + 1) && Pow2(s - 1) <= e < Pow2(s)
    ensures s <= e && Padme(length) % Pow2(e - s) == 0
    ensures 0 <= Padme(length) - length < Pow2(e - s)
  {
    assert e >= 1 by { Pow2Monotone(0, s - 1); }
    GrainOf(e, s);
    assert Padme(length) == RoundUp(length, Pow2(e - s)) by { PadmeAt(length, e); }
    NextMultiple(length, Pow2(e - s));
  }

  lemma GrainOf(e: nat, s: nat)
    requires s >= 1 && Pow2(s - 1) <= e < Pow2(s)
    ensures s <= e && Grain(e) == Pow2(e - s)
  {
    BitLengthUnique(e, s - 1);
    BitLengthSmall(e);
  }

  lemma NextMultiple(n: nat, q: nat)
    requires q > 0
    ensures RoundUp(n, q) % q == 0 && 0 <= RoundUp(n, q) - n < q
  {
    RoundUpBounds(n, q);
    MultipleMod((n + q - 1) / q, q);
  }

  lemma MultipleMod(m: nat, q: nat)
    requires q > 0
    ensures (m * q) % q == 0
  {
    if q >= 2 { DivModUnique(m, 0, q); }
  }

  /** Every length fits its bucket, and the documented worst case holds: padding costs at most 15 bytes in 129, 11.63%. */
  lemma PadmeOverhead(length: nat)
    ensures length <= Padme(length)
    ensures 129 * (Padme(length) - length) <= 15 * length
  {
    if length >= 2 {
      var e := Exponent(length);
      BitLengthBounds(e);
      BitLengthSmall(e);
      GrainDivides(e);
      if length == Pow2(e) {
        RoundUpMultiple(Pow2(BitLength(e)), Grain(e));
      } else {
        RoundUpBounds(length, Grain(e));
        GrainIsSmall(e, BitLength(e), Grain(e));
      }
    }
  }

  lemma GrainIsSmall(e: nat, s: nat, q: nat)
    requires e >= s >= 1 && e < Pow2(s) && q == Pow2(e - s) && Pow2(e) == Pow2(s) * q
    ensures 129 * (q - 1) <= 15 * (Pow2(e) + 1)
  {
    if s >= 4 {
      Pow2Monotone(4, s);
      assert Pow2(4) == 16;
      MulMonotone(16, Pow2(s), q);
    } else if s == 3 {
      assert Pow2(3) == 8;
      Pow2Monotone(e - s, 4);
      assert Pow2(4) == 16;
    } else if s == 2 {
      assert Pow2(2) == 4;
      Pow2Monotone(e - s, 1);
      assert Pow2(1) == 2;
    } else {
      assert Pow2(1) == 2 && Pow2(0) == 1;
    }
  }

  /** The worst case is reached: 129 bytes pad to 144. */
  lemma WorstCaseAt129()
    ensures Padme(129) == 144 && 129 * (Padme(129) - 129) == 15 * 129
  {
    assert Pow2(7) == 128 && Pow2(8) == 256 && Pow2(4) == 16;
    assert BitLength(7) == 3;
    PadmeAt(129, 7);
  }

  /** Larger lengths never get smaller buckets. */
  lemma PadmeMonotone(a: nat, b: nat)
    requires a <= b
    ensures Padme(a) <= Padme(b)
  {
    PadmeCovers(b);
    if a >= 2 {
      var e := Exponent(a);
      if b < Pow2(e + 1) {
        PadmeAt(b, e);
        RoundUpMonotone(a, b, Grain(e));
      } else {
        PadmeWithin(a, e);
      }
    }
  }

  /** A bucket size is its own bucket, also when rounding crosses into the next power of two. */
  lemma PadmeIdempotent(length: nat)
    ensures Padme(Padme(length)) == Padme(length)
  {
    if length >= 2 {
      var e := Exponent(length);
      var p := Padme(length);
      assert length <= p <= Pow2(e + 1) by {
        PadmeCovers(length);
        PadmeWithin(length, e);
      }
      if p < Pow2(e + 1) {
        assert Padme(p) == RoundUp(p, Grain(e)) by { PadmeAt(p, e); }
        assert RoundUp(p, Grain(e)) == p by { RoundUpTwice(length, Grain(e)); }
      } else {
        PadmeOfPow2(e + 1);
      }
    }
  }

  lemma PadmeOfPow2(e: nat)
    requires e >= 1
    ensures Padme(Pow2(e)) == Pow2(e)
  {
    PadmeAt(Pow2(e), e);
    GrainDivides(e);
    RoundUpMultiple(Pow2(BitLength(e)), Grain(e));
  }

  /** So a length's bucket is the least bucket size that holds it. */
  lemma PadmeLeastBucket(length: nat, bucket: nat)
    requires length <= bucket && Padme(bucket) == bucket
    ensures Padme(length) <= bucket
  {
    PadmeMonotone(length, bucket);
  }
}
