/** Sums of real values: over finite sets, in whatever order a dictionary yields them, and over sequences. */
module Sums {

  function Min(a: real, b: real): real {
    if a < b then a else b
  }

  function Max(a: real, b: real): real {
    if a < b then b else a
  }

  ghost function Sum<T(!new)>(s: set<T>, f: T -> real): real {
    if s == {} then 0.0 else var x :| x in s; f(x) + Sum(s - {x}, f)
  }

  /** Any element may be summed first. */
  lemma {:induction false} SumSplit<T(!new)>(s: set<T>, f: T -> real, x: T)
    requires x in s
    ensures Sum(s, f) == f(x) + Sum(s - {x}, f)
    decreases s
  {
    var y :| y in s && Sum(s, f) == f(y) + Sum(s - {y}, f);
    if y != x {
      SumSplit(s - {y}, f, x);
      SumSplit(s - {x}, f, y);
      assert s - {y} - {x} == s - {x} - {y};
    }
  }

  lemma SumAdd<T(!new)>(s: set<T>, f: T -> real, x: T)
    requires x !in s
    ensures Sum(s + {x}, f) == Sum(s, f) + f(x)
  {
    SumSplit(s + {x}, f, x);
    assert s + {x} - {x} == s;
  }

  lemma {:induction false} SumSame<T(!new)>(s: set<T>, f: T -> real, g: T -> real)
    requires forall x :: x in s ==> f(x) == g(x)
    ensures Sum(s, f) == Sum(s, g)
    decreases s
  {
    if s != {} {
      var x :| x in s;
      SumSplit(s, f, x);
      SumSplit(s, g, x);
      SumSame(s - {x}, f, g);
    }
  }

  lemma {:induction false} SumZero<T(!new)>(s: set<T>, f: T -> real)
    requires forall x :: x in s ==> f(x) == 0.0
    ensures Sum(s, f) == 0.0
    decreases s
  {
    if s != {} {
      var x :| x in s;
      SumSplit(s, f, x);
      SumZero(s - {x}, f);
    }
  }

  /** Elements that add nothing may be left out. */
  lemma {:induction false} SumSubset<T(!new)>(t: set<T>, s: set<T>, f: T -> real)
    requires t <= s && forall x :: x in s && x !in t ==> f(x) == 0.0
    ensures Sum(t, f) == Sum(s, f)
    decreases s
  {
    if t != s {
      var x :| x in s && x !in t;
      SumSplit(s, f, x);
      SumSubset(t, s - {x}, f);
    }
  }

  lemma {:induction false} SumNonNegative<T(!new)>(s: set<T>, f: T -> real)
    requires forall x :: x in s ==> f(x) >= 0.0
    ensures Sum(s, f) >= 0.0
    ensures forall x :: x in s ==> f(x) <= Sum(s, f)
    decreases s
  {
    forall x | x in s ensures 0.0 <= f(x) <= Sum(s, f) {
      SumSplit(s, f, x);
      SumNonNegative(s - {x}, f);
    }
    if s != {} { var x :| x in s; }
  }

  lemma {:induction false} SumPlus<T(!new)>(s: set<T>, f: T -> real, g: T -> real, h: T -> real)
    requires forall x :: x in s ==> h(x) == f(x) + g(x)
    ensures Sum(s, h) == Sum(s, f) + Sum(s, g)
    decreases s
  {
    if s != {} {
      var x :| x in s;
      SumSplit(s, f, x);
      SumSplit(s, g, x);
      SumSplit(s, h, x);
      SumPlus(s - {x}, f, g, h);
    }
  }

  function Times<T>(k: real, f: T -> real): T -> real {
    x => k * f(x)
  }

  lemma {:induction false} SumTimes<T(!new)>(s: set<T>, k: real, f: T -> real)
    ensures Sum(s, Times(k, f)) == k * Sum(s, f)
    decreases s
  {
    if s != {} {
      var x :| x in s;
      var rest := s - {x};
      assert Sum(rest, Times(k, f)) == k * Sum(rest, f) by { SumTimes(rest, k, f); }
      SumSplit(s, f, x);
      SumSplit(s, Times(k, f), x);
      Distribute(k, f(x), Sum(rest, f));
    }
  }

  lemma SumScaled<T(!new)>(s: set<T>, k: real, f: T -> real, h: T -> real)
    requires forall x :: x in s ==> h(x) == Times(k, f)(x)
    ensures Sum(s, h) == k * Sum(s, f)
  {
    assert Sum(s, h) == Sum(s, Times(k, f)) by { SumSame(s, h, Times(k, f)); }
    SumTimes(s, k, f);
  }

  lemma SumMultiplied<T(!new)>(s: set<T>, f: T -> real, k: real, h: T -> real)
    requires forall x :: h(x) == f(x) * k
    ensures Sum(s, h) == Sum(s, f) * k
  {
    forall x | x in s ensures h(x) == Times(k, f)(x) {
    }
    SumScaled(s, k, f, h);
  }

  lemma Cancels(k: real, d: real)
    requires d != 0.0
    ensures k / d * d == k
  {
  }

  /** Fractions of a sum add up to 1. */
  lemma SumFractions<T(!new)>(s: set<T>, f: T -> real, total: real, h: T -> real)
    requires total == Sum(s, f) && total != 0.0
    requires forall x :: x in s ==> h(x) == Times(1.0 / total, f)(x)
    ensures Sum(s, h) == 1.0
  {
    SumScaled(s, 1.0 / total, f, h);
    Cancels(1.0, total);
  }

  /** So does a blend of the fractions of two sums. */
  lemma SumBlend<T(!new)>(s: set<T>, f: T -> real, a: real, g: T -> real, b: real, blend: real, h: T -> real)
    requires a == Sum(s, f) && b == Sum(s, g) && a != 0.0 && b != 0.0
    requires forall x :: x in s ==> h(x) == Times((1.0 - blend) / a, f)(x) + Times(blend / b, g)(x)
    ensures Sum(s, h) == 1.0
  {
    SumPlus(s, Times((1.0 - blend) / a, f), Times(blend / b, g), h);
    SumTimes(s, (1.0 - blend) / a, f);
    SumTimes(s, blend / b, g);
    Cancels(1.0 - blend, a);
    Cancels(blend, b);
  }

  function Row<A, B>(f: (A, B) -> real, a: A): B -> real {
    b => f(a, b)
  }

  function Column<A, B>(f: (A, B) -> real, b: B): A -> real {
    a => f(a, b)
  }

  ghost function Rows<A(!new), B(!new)>(t: set<B>, f: (A, B) -> real): A -> real {
    a => Sum(t, Row(f, a))
  }

  ghost function Columns<A(!new), B(!new)>(s: set<A>, f: (A, B) -> real): B -> real {
    b => Sum(s, Column(f, b))
  }

  /** A table sums to the same by rows and by columns. */
  lemma {:induction false} SumSwap<A(!new), B(!new)>(s: set<A>, t: set<B>, f: (A, B) -> real)
    ensures Sum(s, Rows(t, f)) == Sum(t, Columns(s, f))
    decreases s
  {
    if s == {} {
      SumZero(t, Columns(s, f));
    } else {
      var a :| a in s;
      SumSplit(s, Rows(t, f), a);
      SumSwap(s - {a}, t, f);
      forall b | b in t ensures Columns(s, f)(b) == Row(f, a)(b) + Columns(s - {a}, f)(b) {
        SumSplit(s, Column(f, b), a);
      }
      SumPlus(t, Row(f, a), Columns(s - {a}, f), Columns(s, f));
    }
  }

  function WeightedPart<A, B>(weight: B -> real, part: B -> (A -> real), a: A, b: B): real {
    weight(b) * part(b)(a)
  }

  /** A table that splits each column's weight into parts. */
  function Weighted<A, B>(weight: B -> real, part: B -> (A -> real)): (A, B) -> real {
    (a, b) => WeightedPart(weight, part, a, b)
  }

  lemma WeightedAt<A, B>(weight: B -> real, part: B -> (A -> real), a: A, b: B, w: real, x: real)
    requires weight(b) == w && part(b)(a) == x
    ensures Weighted(weight, part)(a, b) == w * x
    ensures w >= 0.0 && x >= 0.0 ==> Weighted(weight, part)(a, b) >= 0.0
  {
    assert WeightedPart(weight, part, a, b) == w * x;
  }

  lemma WeightedColumn<A(!new), B(!new)>(s: set<A>, weight: B -> real, part: B -> (A -> real), b: B)
    requires Sum(s, part(b)) == 1.0
    ensures Columns(s, Weighted(weight, part))(b) == weight(b)
  {
    var column := Column(Weighted(weight, part), b);
    forall a | a in s ensures column(a) == Times(weight(b), part(b))(a) {
      WeightedAt(weight, part, a, b, weight(b), part(b)(a));
    }
    SumScaled(s, weight(b), part(b), column);
  }

  /** Its rows sum to the weights when the parts of each column sum to 1. */
  lemma WeightedRows<A(!new), B(!new)>(s: set<A>, t: set<B>, weight: B -> real, part: B -> (A -> real))
    requires forall b :: b in t ==> Sum(s, part(b)) == 1.0
    ensures Sum(s, Rows(t, Weighted(weight, part))) == Sum(t, weight)
  {
    SumSwap(s, t, Weighted(weight, part));
    forall b | b in t ensures Columns(s, Weighted(weight, part))(b) == weight(b) { WeightedColumn(s, weight, part, b); }
    SumSame(t, Columns(s, Weighted(weight, part)), weight);
  }

  lemma Distribute(k: real, a: real, b: real)
    ensures k * (a + b) == k * a + k * b
  {
  }

  // ------------------------------------------------------------ dictionaries

  /** A dictionary's values, 0 where it has none. */
  function ValueOf<K(==)>(m: map<K, real>): K -> real {
    k => if k in m then m[k] else 0.0
  }

  method SumOver<T(!new)>(s: set<T>, f: T -> real) returns (total: real)
    ensures total == Sum(s, f)
  {
    total := 0.0;
    var todo := s;
    while todo != {}
      invariant todo <= s && total == Sum(s - todo, f)
      decreases |todo|
    {
      var x :| x in todo;
      assert Sum(s - (todo - {x}), f) == Sum(s - todo, f) + f(x) by {
        assert s - (todo - {x}) == s - todo + {x};
        SumAdd(s - todo, f, x);
      }
      total := total + f(x);
      todo := todo - {x};
    }
    assert s - {} == s;
  }

  // ------------------------------------------------------------ sequences

  function Total(s: seq<real>): real {
    if s == [] then 0.0 else Total(s[..|s| - 1]) + s[|s| - 1]
  }

  lemma {:induction false} TotalConcat(s: seq<real>, t: seq<real>)
    ensures Total(s + t) == Total(s) + Total(t)
  {
    if t == [] {
      assert s + t == s;
    } else {
      TotalConcat(s, t[..|t| - 1]);
      assert (s + t)[..|s + t| - 1] == s + t[..|t| - 1];
    }
  }

  lemma {:induction false} TotalOfSame(s: seq<real>, x: real)
    requires forall i :: 0 <= i < |s| ==> s[i] == x
    ensures Total(s) == |s| as real * x
  {
    if s != [] {
      TotalOfSame(s[..|s| - 1], x);
      Distribute(x, (|s| - 1) as real, 1.0);
    }
  }

  /** The sum of a function over a sequence. */
  function SumSeq<T>(s: seq<T>, f: T -> real): real {
    if s == [] then 0.0 else SumSeq(s[..|s| - 1], f) + f(s[|s| - 1])
  }

  lemma {:induction false} SumSeqLeq<T>(s: seq<T>, f: T -> real, g: T -> real)
    requires forall i :: 0 <= i < |s| ==> f(s[i]) <= g(s[i])
    ensures SumSeq(s, f) <= SumSeq(s, g)
  {
    if s != [] { SumSeqLeq(s[..|s| - 1], f, g); }
  }

  lemma CombineStep(j: real, k: real, f: real, g: real, m: real, df: real, dg: real, dm: real)
    ensures (f + j * g + k * m) + (df + j * dg + k * dm) == (f + df) + j * (g + dg) + k * (m + dm)
  {
    Distribute(j, g, dg);
    Distribute(k, m, dm);
  }

  /** The sum of a linear combination. */
  lemma {:induction false} SumSeqCombine<T>(s: seq<T>, f: T -> real, j: real, g: T -> real, k: real, m: T -> real, h: T -> real)
    requires forall i :: 0 <= i < |s| ==> h(s[i]) == f(s[i]) + Times(j, g)(s[i]) + Times(k, m)(s[i])
    ensures SumSeq(s, h) == SumSeq(s, f) + j * SumSeq(s, g) + k * SumSeq(s, m)
  {
    if s != [] {
      var (front, x) := (s[..|s| - 1], s[|s| - 1]);
      SumSeqCombine(front, f, j, g, k, m, h);
      CombineStep(j, k, SumSeq(front, f), SumSeq(front, g), SumSeq(front, m), f(x), g(x), m(x));
    }
  }

  /** The sum of what is at least a linear combination. */
  lemma {:induction false} SumSeqAtLeast<T>(s: seq<T>, f: T -> real, j: real, g: T -> real, k: real, m: T -> real, h: T -> real)
    requires forall i :: 0 <= i < |s| ==> h(s[i]) >= f(s[i]) + Times(j, g)(s[i]) + Times(k, m)(s[i])
    ensures SumSeq(s, h) >= SumSeq(s, f) + j * SumSeq(s, g) + k * SumSeq(s, m)
  {
    if s != [] {
      var (front, x) := (s[..|s| - 1], s[|s| - 1]);
      SumSeqAtLeast(front, f, j, g, k, m, h);
      CombineStep(j, k, SumSeq(front, f), SumSeq(front, g), SumSeq(front, m), f(x), g(x), m(x));
    }
  }

  lemma {:induction false} SumSeqSame<T>(s: seq<T>, f: T -> real, x: real)
    requires forall i :: 0 <= i < |s| ==> f(s[i]) == x
    ensures SumSeq(s, f) == |s| as real * x
  {
    if s != [] {
      SumSeqSame(s[..|s| - 1], f, x);
      Distribute(x, (|s| - 1) as real, 1.0);
    }
  }

  lemma {:induction false} SumSeqNonNegative<T>(s: seq<T>, f: T -> real)
    requires forall i :: 0 <= i < |s| ==> f(s[i]) >= 0.0
    ensures SumSeq(s, f) >= 0.0
    ensures SumSeq(s, f) == 0.0 ==> forall i :: 0 <= i < |s| ==> f(s[i]) == 0.0
  {
    if s != [] { SumSeqNonNegative(s[..|s| - 1], f); }
  }
}
