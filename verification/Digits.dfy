/** Positional notation, most significant digit first: what `divmod` loops, `int.to_bytes` and `int.from_bytes` compute. */
module Digits {

  type byte = b: int | 0 <= b < 256
  type bytes = seq<byte>

  function Pow(base: nat, e: nat): nat {
    if e == 0 then 1 else base * Pow(base, e - 1)
  }

  lemma {:induction false} PowPositive(base: nat, e: nat)
    requires base > 0
    ensures Pow(base, e) > 0
  {
    if e > 0 { PowPositive(base, e - 1); }
  }

  predicate AreDigits(ds: seq<int>, base: nat) {
    forall i :: 0 <= i < |ds| ==> 0 <= ds[i] < base
  }

  function Value(ds: seq<int>, base: nat): (n: nat)
    requires AreDigits(ds, base)
  {
    if ds == [] then 0 else Value(ds[..|ds| - 1], base) * base + ds[|ds| - 1]
  }

  /** The digits of n with no leading zero; none for 0. */
  function Minimal(n: nat, base: nat): (ds: seq<int>)
    requires base >= 2
    ensures AreDigits(ds, base)
    ensures n > 0 ==> |ds| > 0 && ds[0] != 0
  {
    if n == 0 then [] else Minimal(Quotient(n, base), base) + [n % base]
  }

  /** The last `len` digits of n. */
  function Fixed(n: nat, base: nat, len: nat): (ds: seq<int>)
    requires base >= 2
    ensures |ds| == len && AreDigits(ds, base)
  {
    if len == 0 then [] else Fixed(Quotient(n, base), base, len - 1) + [n % base]
  }

  lemma MulMonotone(a: int, b: int, c: nat)
    requires a <= b
    ensures a * c <= b * c
  {
    assert (b - a) * c >= 0;
  }

  lemma MulSuccessor(a: int, c: int)
    ensures (a + 1) * c == a * c + c
  {
  }

  function Quotient(n: nat, base: nat): (q: nat)
    requires base >= 2
    ensures q * base + n % base == n
    ensures n > 0 ==> q < n
  {
    QuotientLess(n, base);
    n / base
  }

  lemma QuotientLess(n: nat, base: nat)
    requires base >= 2
    ensures (n / base) * base + n % base == n
    ensures n / base >= 0
    ensures n > 0 ==> n / base < n
  {
    assert n == base * (n / base) + n % base;
    LessThanWhole(n, n / base, n % base, base);
  }

  lemma LessThanWhole(n: nat, q: int, r: nat, base: nat)
    requires base >= 2 && r < base && n == q * base + r
    ensures q >= 0 && (n > 0 ==> q < n)
  {
    if q < 0 {
      MulMonotone(q, -1, base);
    } else {
      MulMonotone(2, base, q);
    }
  }

  lemma QuotientBound(n: nat, base: nat, bound: nat)
    requires base >= 2 && n < base * bound
    ensures Quotient(n, base) < bound
  {
    if Quotient(n, base) >= bound {
      MulMonotone(bound, Quotient(n, base), base);
    }
  }

  lemma DivModUnique(q: nat, d: int, base: nat)
    requires base >= 2 && 0 <= d < base
    ensures Quotient(q * base + d, base) == q && (q * base + d) % base == d
  {
    var n := q * base + d;
    var q' := Quotient(n, base);
    if q > q' {
      MulMonotone(q' + 1, q, base);
      MulSuccessor(q', base);
    } else if q < q' {
      MulMonotone(q + 1, q', base);
      MulSuccessor(q, base);
    }
  }

  lemma {:induction false} ValueOfMinimal(n: nat, base: nat)
    requires base >= 2
    ensures Value(Minimal(n, base), base) == n
  {
    if n > 0 {
      var front := Minimal(Quotient(n, base), base);
      ValueOfMinimal(Quotient(n, base), base);
      assert (front + [n % base])[..|front|] == front;
    }
  }

  lemma {:induction false} MinimalOfValue(ds: seq<int>, base: nat)
    requires base >= 2 && AreDigits(ds, base)
    requires ds == [] || ds[0] != 0
    ensures Minimal(Value(ds, base), base) == ds
    ensures ds != [] ==> Value(ds, base) > 0
  {
    if ds != [] {
      var (front, last) := (ds[..|ds| - 1], ds[|ds| - 1]);
      MinimalOfValue(front, base);
      DivModUnique(Value(front, base), last, base);
      assert ds == front + [last];
      if front != [] { MulMonotone(1, Value(front, base), base); }
    }
  }

  lemma {:induction false} ValueBound(ds: seq<int>, base: nat)
    requires base >= 2 && AreDigits(ds, base)
    ensures Value(ds, base) < Pow(base, |ds|)
  {
    if ds != [] {
      var front := ds[..|ds| - 1];
      ValueBound(front, base);
      MulMonotone(Value(front, base) + 1, Pow(base, |front|), base);
      MulSuccessor(Value(front, base), base);
    }
  }

  lemma {:induction false} ValueOfFixed(n: nat, base: nat, len: nat)
    requires base >= 2 && n < Pow(base, len)
    ensures Value(Fixed(n, base, len), base) == n
  {
    if len > 0 {
      var q := Quotient(n, base);
      QuotientBound(n, base, Pow(base, len - 1));
      ValueOfFixed(q, base, len - 1);
      var front := Fixed(q, base, len - 1);
      assert (front + [n % base])[..|front|] == front;
    }
  }

  lemma {:induction false} FixedOfValue(ds: seq<int>, base: nat)
    requires base >= 2 && AreDigits(ds, base)
    ensures Fixed(Value(ds, base), base, |ds|) == ds
  {
    if ds != [] {
      var (front, last) := (ds[..|ds| - 1], ds[|ds| - 1]);
      FixedOfValue(front, base);
      DivModUnique(Value(front, base), last, base);
      assert ds == front + [last];
    }
  }

  function Zeros(n: nat): (zs: seq<int>)
    ensures |zs| == n && forall i :: 0 <= i < n ==> zs[i] == 0
  {
    seq(n, _ => 0)
  }

  predicate AllZero(s: bytes) {
    forall i :: 0 <= i < |s| ==> s[i] == 0
  }

  lemma {:induction false} ValueOfPadded(k: nat, ds: seq<int>, base: nat)
    requires base >= 2 && AreDigits(ds, base)
    ensures AreDigits(Zeros(k) + ds, base)
    ensures Value(Zeros(k) + ds, base) == Value(ds, base)
    decreases k + |ds|
  {
    var all := Zeros(k) + ds;
    if ds != [] {
      ValueOfPadded(k, ds[..|ds| - 1], base);
      assert all[..|all| - 1] == Zeros(k) + ds[..|ds| - 1];
    } else if k > 0 {
      ValueOfPadded(k - 1, [], base);
      assert all[..|all| - 1] == Zeros(k - 1) + [];
    }
  }

  // ------------------------------------------------------------ fixed-width integers of `struct`

  function U32(n: nat): (b: bytes)
    ensures |b| == 4
  {
    Fixed(n, 256, 4)
  }

  function U64(n: nat): (b: bytes)
    ensures |b| == 8
  {
    Fixed(n, 256, 8)
  }

  function FromBytes(b: bytes): (n: nat) {
    Value(b, 256)
  }

  /** Big-endian: every further byte counts 256 times less than those before it. */
  lemma BigEndian(front: bytes, last: byte)
    ensures FromBytes([]) == 0 && FromBytes(front + [last]) == 256 * FromBytes(front) + last
  {
    assert (front + [last])[..|front|] == front;
  }

  lemma U32RoundTrip(n: nat)
    requires n < 0x1_0000_0000
    ensures FromBytes(U32(n)) == n
  {
    assert Pow(256, 4) == 0x1_0000_0000 by { assert Pow(256, 2) == 0x1_0000; }
    ValueOfFixed(n, 256, 4);
  }

  lemma U64RoundTrip(n: nat)
    requires n < 0x1_0000_0000_0000_0000
    ensures FromBytes(U64(n)) == n
  {
    Pow256Eight();
    ValueOfFixed(n, 256, 8);
  }

  lemma Pow256Eight()
    ensures Pow(256, 4) == 0x1_0000_0000 && Pow(256, 8) == 0x1_0000_0000_0000_0000
  {
    assert Pow(256, 2) == 0x1_0000;
    assert Pow(256, 4) == 0x1_0000_0000;
    assert Pow(256, 6) == 0x1_0000_0000_0000;
  }

  lemma U32OfBytes(b: bytes)
    requires |b| == 4
    ensures U32(FromBytes(b)) == b
    ensures FromBytes(b) < 0x1_0000_0000
  {
    FixedOfValue(b, 256);
    ValueBound(b, 256);
    Pow256Eight();
  }

  lemma U64OfBytes(b: bytes)
    requires |b| == 8
    ensures U64(FromBytes(b)) == b
    ensures FromBytes(b) < 0x1_0000_0000_0000_0000
  {
    FixedOfValue(b, 256);
    ValueBound(b, 256);
    Pow256Eight();
  }
}
