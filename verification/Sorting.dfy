/** Python's stable `sorted` with a key, and the string order it compares names by. */
module Sorting {
  import opened Wrappers

  /** Code-point order of strings. */
  predicate StringLeq(a: string, b: string) {
    a == [] || (b != [] && (a[0] < b[0] || (a[0] == b[0] && StringLeq(a[1..], b[1..]))))
  }

  /** Strings compare by their first difference, and a prefix is less. */
  lemma {:induction false} FirstDifference(a: string, b: string, n: nat)
    requires n <= |a| && n <= |b| && a[..n] == b[..n]
    requires n < |a| && n < |b| ==> a[n] != b[n]
    ensures StringLeq(a, b) <==> n == |a| || (n < |b| && a[n] < b[n])
  {
    if n > 0 {
      assert a[0] == a[..n][0] == b[..n][0] == b[0];
      assert a[1..][..n - 1] == a[..n][1..] == b[..n][1..] == b[1..][..n - 1];
      FirstDifference(a[1..], b[1..], n - 1);
    }
  }

  lemma {:induction false} StringLeqTotal(a: string, b: string)
    ensures StringLeq(a, b) || StringLeq(b, a)
    ensures StringLeq(a, b) && StringLeq(b, a) ==> a == b
  {
    if a != [] && b != [] {
      StringLeqTotal(a[1..], b[1..]);
      if a[0] == b[0] && a[1..] == b[1..] {
        assert a == [a[0]] + a[1..] == b;
      }
    }
  }

  lemma {:induction false} StringLeqTransitive(a: string, b: string, c: string)
    requires StringLeq(a, b) && StringLeq(b, c)
    ensures StringLeq(a, c)
  {
    if a != [] && a[0] == b[0] == c[0] {
      StringLeqTransitive(a[1..], b[1..], c[1..]);
    }
  }

  /** A key order: any two elements compare, and comparisons chain. */
  ghost predicate Ordering<T(!new)>(leq: (T, T) -> bool) {
    && (forall x, y :: leq(x, y) || leq(y, x))
    && (forall x, y, z :: leq(x, y) && leq(y, z) ==> leq(x, z))
  }

  predicate Sorted<T>(s: seq<T>, leq: (T, T) -> bool) {
    forall i, j :: 0 <= i < j < |s| ==> leq(s[i], s[j])
  }

  /** Puts x behind every element that does not sort after it. */
  function Insert<T>(x: T, s: seq<T>, leq: (T, T) -> bool): seq<T> {
    if s == [] || leq(s[|s| - 1], x) then s + [x]
    else Insert(x, s[..|s| - 1], leq) + [s[|s| - 1]]
  }

  function Sort<T>(s: seq<T>, leq: (T, T) -> bool): seq<T> {
    if s == [] then [] else Insert(s[|s| - 1], Sort(s[..|s| - 1], leq), leq)
  }

  lemma SortTwo<T>(a: T, b: T, leq: (T, T) -> bool)
    ensures Sort([a, b], leq) == if leq(a, b) then [a, b] else [b, a]
  {
    assert [a, b][..1] == [a] && [a][..0] == [];
    assert Sort([a], leq) == [a] && Insert(b, [], leq) == [b];
    assert [a] + [b] == [a, b] && [b] + [a] == [b, a];
  }

  lemma {:induction false} InsertKeepsElements<T>(x: T, s: seq<T>, leq: (T, T) -> bool)
    ensures multiset(Insert(x, s, leq)) == multiset(s) + multiset{x}
    ensures |Insert(x, s, leq)| == |s| + 1
  {
    if s != [] && !leq(s[|s| - 1], x) {
      InsertKeepsElements(x, s[..|s| - 1], leq);
      WithoutLast(s);
    }
  }

  lemma {:induction false} SortKeepsElements<T>(s: seq<T>, leq: (T, T) -> bool)
    ensures multiset(Sort(s, leq)) == multiset(s)
    ensures |Sort(s, leq)| == |s|
  {
    if s != [] {
      SortKeepsElements(s[..|s| - 1], leq);
      InsertKeepsElements(s[|s| - 1], Sort(s[..|s| - 1], leq), leq);
      WithoutLast(s);
    }
  }

  lemma {:induction false} InsertSorted<T(!new)>(x: T, s: seq<T>, leq: (T, T) -> bool)
    requires Ordering(leq) && Sorted(s, leq)
    ensures Sorted(Insert(x, s, leq), leq)
  {
    if s != [] {
      var (front, last) := (s[..|s| - 1], s[|s| - 1]);
      if leq(last, x) {
        assert forall i :: 0 <= i < |s| ==> leq(s[i], last) || i == |s| - 1;
      } else {
        InsertSorted(x, front, leq);
        var r := Insert(x, front, leq);
        InsertKeepsElements(x, front, leq);
        forall i | 0 <= i < |r| ensures leq(r[i], last) {
          assert r[i] in multiset(r);
          assert r[i] == x || r[i] in front;
        }
      }
    }
  }

  lemma {:induction false} SortSorted<T(!new)>(s: seq<T>, leq: (T, T) -> bool)
    requires Ordering(leq)
    ensures Sorted(Sort(s, leq), leq)
  {
    if s != [] {
      SortSorted(s[..|s| - 1], leq);
      InsertSorted(s[|s| - 1], Sort(s[..|s| - 1], leq), leq);
    }
  }

  /** Sorting leaves a sorted sequence as it is. */
  lemma {:induction false} SortOfSorted<T(!new)>(s: seq<T>, leq: (T, T) -> bool)
    requires Sorted(s, leq)
    ensures Sort(s, leq) == s
  {
    if s != [] {
      SortOfSorted(s[..|s| - 1], leq);
      assert s == s[..|s| - 1] + [s[|s| - 1]];
    }
  }

  /** No two different elements share a key. */
  ghost predicate DistinctKeys<T(!new)>(m: multiset<T>, leq: (T, T) -> bool) {
    forall x, y :: x in m && y in m && leq(x, y) && leq(y, x) ==> x == y
  }

  lemma LastIsGreatest<T(!new)>(s: seq<T>, x: T, leq: (T, T) -> bool)
    requires leq(x, x) && Sorted(s, leq) && x in multiset(s)
    ensures |s| > 0 && leq(x, s[|s| - 1])
  {
    var i :| 0 <= i < |s| && s[i] == x;
  }

  lemma SameLast<T(!new)>(s: seq<T>, t: seq<T>, leq: (T, T) -> bool)
    requires (forall x :: leq(x, x)) && Sorted(s, leq) && Sorted(t, leq) && s != [] && t != []
    requires multiset(s) == multiset(t) && DistinctKeys(multiset(s), leq)
    ensures s[|s| - 1] == t[|t| - 1]
  {
    var (a, b) := (s[|s| - 1], t[|t| - 1]);
    assert a in multiset(s) && b in multiset(t);
    LastIsGreatest(s, b, leq);
    LastIsGreatest(t, a, leq);
  }

  lemma SameFront<T>(s: seq<T>, t: seq<T>)
    requires multiset(s) == multiset(t) && s != [] && t != [] && s[|s| - 1] == t[|t| - 1]
    ensures multiset(s[..|s| - 1]) == multiset(t[..|t| - 1])
  {
    WithoutLast(s);
    WithoutLast(t);
  }

  /** Two sorted arrangements of the same elements agree when no two different elements share a key. */
  lemma {:induction false} SortedUnique<T(!new)>(s: seq<T>, t: seq<T>, leq: (T, T) -> bool)
    requires (forall x :: leq(x, x)) && Sorted(s, leq) && Sorted(t, leq)
    requires multiset(s) == multiset(t) && DistinctKeys(multiset(s), leq)
    ensures s == t
    decreases |s|
  {
    assert |multiset(s)| == |s| && |multiset(t)| == |t|;
    if s != [] {
      SameLast(s, t, leq);
      SameFront(s, t);
      assert DistinctKeys(multiset(s[..|s| - 1]), leq) by { WithoutLast(s); }
      SortedUnique(s[..|s| - 1], t[..|t| - 1], leq);
      WithoutLast(s);
      WithoutLast(t);
    }
  }

  lemma WithoutLast<T>(s: seq<T>)
    requires s != []
    ensures s == s[..|s| - 1] + [s[|s| - 1]]
    ensures multiset(s[..|s| - 1]) == multiset(s) - multiset{s[|s| - 1]}
  {
    assert s == s[..|s| - 1] + [s[|s| - 1]];
  }

  /** Sorting by a key no two elements share gives one result for every order the elements arrive in. */
  lemma SortIgnoresOrder<T(!new)>(s: seq<T>, t: seq<T>, leq: (T, T) -> bool)
    requires Ordering(leq) && multiset(s) == multiset(t) && DistinctKeys(multiset(s), leq)
    ensures Sort(s, leq) == Sort(t, leq)
  {
    SortSorted(s, leq);
    SortSorted(t, leq);
    SortKeepsElements(s, leq);
    SortKeepsElements(t, leq);
    SortedUnique(Sort(s, leq), Sort(t, leq), leq);
  }

  /** No two elements clash. */
  predicate Apart<T>(s: seq<T>, clash: (T, T) -> bool) {
    forall i, j :: 0 <= i < j < |s| ==> !clash(s[i], s[j])
  }

  /** Whether elements clash does not depend on their order. */
  lemma {:induction false} ApartIgnoresOrder<T(!new)>(s: seq<T>, t: seq<T>, clash: (T, T) -> bool)
    requires (forall a, b :: clash(a, b) == clash(b, a)) && multiset(s) == multiset(t)
    ensures Apart(s, clash) <==> Apart(t, clash)
  {
    if Apart(s, clash) { StillApart(s, t, clash); }
    if Apart(t, clash) { StillApart(t, s, clash); }
  }

  lemma {:induction false} StillApart<T(!new)>(s: seq<T>, t: seq<T>, clash: (T, T) -> bool)
    requires (forall a, b :: clash(a, b) == clash(b, a)) && multiset(s) == multiset(t) && Apart(s, clash)
    ensures Apart(t, clash)
    decreases |s|
  {
    assert |multiset(s)| == |s| && |multiset(t)| == |t|;
    if s != [] {
      var (front, x) := (s[..|s| - 1], s[|s| - 1]);
      assert x in multiset(t);
      var i :| 0 <= i < |t| && t[i] == x;
      var rest := t[..i] + t[i + 1..];
      TakenOut(s, t, i);
      StillApart(front, rest, clash);
      forall k | 0 <= k < |t| && k != i ensures !clash(t[k], x) {
        assert t[k] == rest[if k < i then k else k - 1];
        assert t[k] in multiset(front);
      }
      PutBackApart(t, i, clash);
    }
  }

  lemma PutBackApart<T(!new)>(t: seq<T>, i: nat, clash: (T, T) -> bool)
    requires i < |t| && Apart(t[..i] + t[i + 1..], clash) && (forall a, b :: clash(a, b) == clash(b, a))
    requires forall k :: 0 <= k < |t| && k != i ==> !clash(t[k], t[i])
    ensures Apart(t, clash)
  {
    var rest := t[..i] + t[i + 1..];
    forall j, k | 0 <= j < k < |t| ensures !clash(t[j], t[k]) {
      if j != i && k != i {
        assert t[j] == rest[if j < i then j else j - 1] && t[k] == rest[if k < i then k else k - 1];
      }
    }
  }

  lemma SortApart<T(!new)>(s: seq<T>, leq: (T, T) -> bool, clash: (T, T) -> bool)
    requires (forall a, b :: clash(a, b) == clash(b, a)) && Apart(s, clash)
    ensures Apart(Sort(s, leq), clash)
  {
    SortKeepsElements(s, leq);
    StillApart(s, Sort(s, leq), clash);
  }

  /** The values a partial function gives the elements, in their order. */
  function Selected<T, U>(s: seq<T>, f: T -> Option<U>): seq<U> {
    if s == [] then []
    else
      var (before, value) := (Selected(s[..|s| - 1], f), f(s[|s| - 1]));
      if value.Some? then before + [value.value] else before
  }

  lemma {:induction false} SelectedConcat<T, U>(s: seq<T>, t: seq<T>, f: T -> Option<U>)
    ensures Selected(s + t, f) == Selected(s, f) + Selected(t, f)
  {
    if t == [] {
      assert s + t == s;
    } else {
      SelectedConcat(s, t[..|t| - 1], f);
      assert (s + t)[..|s + t| - 1] == s + t[..|t| - 1];
    }
  }

  lemma SelectedAround<T, U>(left: seq<T>, x: T, right: seq<T>, f: T -> Option<U>)
    ensures Selected(left + ([x] + right), f) == Selected(left, f) + (Selected([x], f) + Selected(right, f))
    ensures Selected(left + right, f) == Selected(left, f) + Selected(right, f)
    ensures Selected([x], f) == match f(x) case Some(u) => [u] case None => []
  {
    SelectedConcat(left, right, f);
    SelectedConcat(left, [x] + right, f);
    SelectedConcat([x], right, f);
    assert [x][..0] == [];
  }

  /** Two reorderings without one element they share are reorderings again. */
  lemma TakenOut<T>(s: seq<T>, t: seq<T>, i: nat)
    requires s != [] && i < |t| && t[i] == s[|s| - 1] && multiset(s) == multiset(t)
    ensures multiset(s[..|s| - 1]) == multiset(t[..i] + t[i + 1..]) && t == t[..i] + ([t[i]] + t[i + 1..])
  {
    assert t == t[..i] + ([t[i]] + t[i + 1..]);
    WithoutLast(s);
  }

  /** Reordering the elements reorders what is selected. */
  lemma {:induction false} SelectedIgnoresOrder<T, U>(s: seq<T>, t: seq<T>, f: T -> Option<U>)
    requires multiset(s) == multiset(t)
    ensures multiset(Selected(s, f)) == multiset(Selected(t, f))
    decreases |s|
  {
    assert |multiset(s)| == |s| && |multiset(t)| == |t|;
    if s != [] {
      var x := s[|s| - 1];
      assert x in multiset(t);
      var i :| 0 <= i < |t| && t[i] == x;
      var (left, right) := (t[..i], t[i + 1..]);
      TakenOut(s, t, i);
      SelectedIgnoresOrder(s[..|s| - 1], left + right, f);
      SelectedAround(left, x, right, f);
    }
  }
}
