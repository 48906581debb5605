/** Ranking turbo submissions by speed, and what each place is paid. A speed is seconds per output second: less is faster. */
module Ranking {
  import opened Sorting

  type Speed = x: real | x > 0.0 witness 1.0

  datatype Submission = Submission(hotkey: string, block: int, speed: Speed)

  /** Faster by more than the margin. */
  predicate FasterBy(a: Submission, b: Submission, margin: real) {
    a.speed * (1.0 + margin) < b.speed
  }

  type Relation = (Submission, Submission) -> bool

  function Beats(margin: real): Relation {
    (a: Submission, b: Submission) => FasterBy(a, b, margin)
  }

  /** What ranking needs of the relation. */
  ghost predicate MarginOrder(beats: Relation) {
    && (forall a: Submission, b: Submission :: beats(a, b) ==> a.speed < b.speed)
    && (forall a: Submission, b, c: Submission :: beats(a, b) && !beats(c, b) ==> a.speed < c.speed)
    && (forall a, b: Submission, c: Submission :: beats(a, b) && b.speed <= c.speed ==> beats(a, c))
  }

  lemma BeatsIsMarginOrder(margin: real)
    requires margin >= 0.0
    ensures MarginOrder(Beats(margin))
  {
    forall a: Submission, b: Submission | Beats(margin)(a, b) ensures a.speed < b.speed {
      Scaled(a.speed, margin);
    }
    forall a: Submission, b: Submission, c: Submission | Beats(margin)(a, b) && !Beats(margin)(c, b) ensures a.speed < c.speed {
      ScaledLess(a.speed, c.speed, margin);
    }
  }

  lemma Scaled(x: real, margin: real)
    requires x > 0.0 && margin >= 0.0
    ensures x * (1.0 + margin) >= x
  {
    assert x * margin >= 0.0;
  }

  lemma ScaledLess(x: real, y: real, margin: real)
    requires margin >= 0.0
    ensures x >= y ==> x * (1.0 + margin) >= y * (1.0 + margin)
  {
    if x >= y { assert (x - y) * (1.0 + margin) >= 0.0; }
  }

  /** Committed no later: by block, then hotkey. */
  predicate CommitLeq(a: Submission, b: Submission) {
    a.block < b.block || (a.block == b.block && StringLeq(a.hotkey, b.hotkey))
  }

  function CommitOrder(): Relation {
    (a: Submission, b: Submission) => CommitLeq(a, b)
  }

  // ------------------------------------------------------------ ranking

  /** The first place whose holder x beats, the last otherwise. */
  function Position(ranked: seq<Submission>, x: Submission, beats: Relation): (p: nat)
    ensures p <= |ranked|
  {
    if ranked == [] then 0
    else
      var p := Position(ranked[..|ranked| - 1], x, beats);
      if p < |ranked| - 1 || beats(x, ranked[|ranked| - 1]) then p else |ranked|
  }

  function Placed(ranked: seq<Submission>, x: Submission, beats: Relation): seq<Submission> {
    var p := Position(ranked, x, beats);
    ranked[..p] + [x] + ranked[p..]
  }

  /** The ranking of submissions given in commit order. */
  function RankedInOrder(s: seq<Submission>, beats: Relation): seq<Submission> {
    if s == [] then [] else Placed(RankedInOrder(s[..|s| - 1], beats), s[|s| - 1], beats)
  }

  function Ranked(eligible: seq<Submission>, beats: Relation): seq<Submission> {
    RankedInOrder(Sort(eligible, CommitOrder()), beats)
  }

  method RankResults(eligible: seq<Submission>, margin: real) returns (ranked: seq<Submission>)
    ensures ranked == Ranked(eligible, Beats(margin))
  {
    var beats := Beats(margin);
    var s := Sort(eligible, CommitOrder());
    ranked := [];
    for k := 0 to |s|
      invariant ranked == RankedInOrder(s[..k], beats)
    {
      assert s[..k + 1][..k] == s[..k];
      var position := 0;
      while position < |ranked| && !beats(s[k], ranked[position])
        invariant position <= |ranked| && forall i :: 0 <= i < position ==> !beats(s[k], ranked[i])
      {
        position := position + 1;
      }
      PositionIsFirst(ranked, s[k], beats, position);
      ranked := ranked[..position] + [s[k]] + ranked[position..];
    }
    assert s[..|s|] == s;
  }

  /** Committed first: in an earlier block, or in the same one under the hotkey that is less. */
  predicate Precedes(a: Submission, b: Submission) {
    if a.block == b.block then a.hotkey != b.hotkey && StringLeq(a.hotkey, b.hotkey) else a.block <= b.block
  }

  /** Of two submissions, in whatever order they are given, the later one ranks first exactly when its speed with the margin
      added is still less. */
  lemma TwoRanked(a: Submission, b: Submission, margin: real)
    requires Precedes(a, b)
    ensures Ranked([a, b], Beats(margin)) == Ranked([b, a], Beats(margin))
            == if b.speed + b.speed * margin < a.speed then [b, a] else [a, b]
  {
    var beats := Beats(margin);
    assert beats(b, a) <==> b.speed + b.speed * margin < a.speed by { MarginAdded(b.speed, margin); }
    assert RankedInOrder([a, b], beats) == if beats(b, a) then [b, a] else [a, b] by { TwoPlaced(a, b, beats); }
    assert Ranked([a, b], beats) == Ranked([b, a], beats) == RankedInOrder([a, b], beats) by { TwoSorted(a, b); }
  }

  lemma MarginAdded(x: real, margin: real)
    ensures x * (1.0 + margin) == x + x * margin
  {
  }

  lemma TwoSorted(a: Submission, b: Submission)
    requires Precedes(a, b)
    ensures Sort([a, b], CommitOrder()) == [a, b] && Sort([b, a], CommitOrder()) == [a, b]
  {
    StringLeqTotal(a.hotkey, b.hotkey);
    assert CommitOrder()(a, b) && !CommitOrder()(b, a);
    SortTwo(a, b, CommitOrder());
    SortTwo(b, a, CommitOrder());
  }

  lemma TwoPlaced(a: Submission, b: Submission, beats: Relation)
    ensures RankedInOrder([a, b], beats) == if beats(b, a) then [b, a] else [a, b]
  {
    assert [a, b][..1] == [a] && [a][..0] == [];
    assert RankedInOrder([a], beats) == [a];
  }

  lemma {:induction false} PositionIsFirst(ranked: seq<Submission>, x: Submission, beats: Relation, p: nat)
    requires p <= |ranked| && forall i :: 0 <= i < p ==> !beats(x, ranked[i])
    requires p < |ranked| ==> beats(x, ranked[p])
    ensures Position(ranked, x, beats) == p
  {
    if ranked != [] {
      var front := ranked[..|ranked| - 1];
      PositionIsFirst(front, x, beats, if p < |ranked| then p else |front|);
    }
  }

  lemma {:induction false} PositionBeats(ranked: seq<Submission>, x: Submission, beats: Relation)
    ensures var p := Position(ranked, x, beats);
            && (p < |ranked| ==> beats(x, ranked[p]))
            && forall i :: 0 <= i < p ==> !beats(x, ranked[i])
  {
    if ranked != [] { PositionBeats(ranked[..|ranked| - 1], x, beats); }
  }

  /** No submission sits below one that it beats. */
  predicate NoneBelowBeaten(ranked: seq<Submission>, beats: Relation) {
    forall i, j :: 0 <= i < j < |ranked| ==> !beats(ranked[j], ranked[i])
  }

  /** A later commitment above an earlier one is strictly faster. */
  predicate LaterIsFaster(ranked: seq<Submission>) {
    forall i, j :: 0 <= i < j < |ranked| && !CommitLeq(ranked[i], ranked[j]) ==> ranked[i].speed < ranked[j].speed
  }

  /** Whoever holds a place at or behind the one x takes is slower than x and does not beat it. */
  lemma BehindIsSlower(ranked: seq<Submission>, x: Submission, beats: Relation, k: nat)
    requires MarginOrder(beats) && NoneBelowBeaten(ranked, beats) && Position(ranked, x, beats) <= k < |ranked|
    ensures x.speed < ranked[k].speed && !beats(ranked[k], x)
  {
    var p := Position(ranked, x, beats);
    PositionBeats(ranked, x, beats);
    if k > p { assert !beats(ranked[k], ranked[p]); }
  }

  lemma InsertedElements<T>(s: seq<T>, p: nat, x: T)
    requires p <= |s|
    ensures multiset(s[..p] + [x] + s[p..]) == multiset(s) + multiset{x}
  {
    assert s == s[..p] + s[p..];
  }

  lemma {:induction false} PlacedKeepsElements(s: seq<Submission>, beats: Relation)
    ensures multiset(RankedInOrder(s, beats)) == multiset(s) && |RankedInOrder(s, beats)| == |s|
  {
    if s != [] {
      var (front, x) := (s[..|s| - 1], s[|s| - 1]);
      PlacedKeepsElements(front, beats);
      InsertedElements(RankedInOrder(front, beats), Position(RankedInOrder(front, beats), x, beats), x);
      WithoutLast(s);
    }
  }

  lemma RankedFrom(s: seq<Submission>, beats: Relation, i: nat)
    requires i < |RankedInOrder(s, beats)|
    ensures RankedInOrder(s, beats)[i] in s
  {
    PlacedKeepsElements(s, beats);
    assert RankedInOrder(s, beats)[i] in multiset(RankedInOrder(s, beats));
  }

  lemma {:induction false} RankedInvariant(s: seq<Submission>, beats: Relation)
    requires MarginOrder(beats) && Sorted(s, CommitOrder())
    ensures NoneBelowBeaten(RankedInOrder(s, beats), beats) && LaterIsFaster(RankedInOrder(s, beats))
  {
    if s != [] {
      var (front, x) := (s[..|s| - 1], s[|s| - 1]);
      RankedInvariant(front, beats);
      var ranked := RankedInOrder(front, beats);
      forall i | 0 <= i < |ranked| ensures CommitLeq(ranked[i], x) {
        RankedFrom(front, beats, i);
        var k :| 0 <= k < |front| && front[k] == ranked[i];
        assert CommitOrder()(s[k], x);
      }
      PlacedKeepsInvariant(ranked, x, beats);
    }
  }

  lemma PlacedAt(ranked: seq<Submission>, x: Submission, beats: Relation, i: nat)
    requires i <= |ranked|
    ensures var p := Position(ranked, x, beats);
            Placed(ranked, x, beats)[i] == if i < p then ranked[i] else if i == p then x else ranked[i - 1]
  {
  }

  lemma PlacedNoneBelow(ranked: seq<Submission>, x: Submission, beats: Relation)
    requires NoneBelowBeaten(ranked, beats)
    requires forall k :: Position(ranked, x, beats) <= k < |ranked| ==> !beats(ranked[k], x)
    ensures NoneBelowBeaten(Placed(ranked, x, beats), beats)
  {
    var (p, after) := (Position(ranked, x, beats), Placed(ranked, x, beats));
    forall i, j | 0 <= i < j < |after| ensures !beats(after[j], after[i]) {
      PlacedAt(ranked, x, beats, i);
      PlacedAt(ranked, x, beats, j);
      if j == p { PositionBeats(ranked, x, beats); }
    }
  }

  lemma PlacedLaterFaster(ranked: seq<Submission>, x: Submission, beats: Relation)
    requires LaterIsFaster(ranked) && forall i :: 0 <= i < |ranked| ==> CommitLeq(ranked[i], x)
    requires forall k :: Position(ranked, x, beats) <= k < |ranked| ==> x.speed < ranked[k].speed
    ensures LaterIsFaster(Placed(ranked, x, beats))
  {
    var (p, after) := (Position(ranked, x, beats), Placed(ranked, x, beats));
    forall i, j | 0 <= i < j < |after| && !CommitLeq(after[i], after[j]) ensures after[i].speed < after[j].speed {
      PlacedAt(ranked, x, beats, i);
      PlacedAt(ranked, x, beats, j);
    }
  }

  lemma PlacedKeepsInvariant(ranked: seq<Submission>, x: Submission, beats: Relation)
    requires MarginOrder(beats) && NoneBelowBeaten(ranked, beats) && LaterIsFaster(ranked)
    requires forall i :: 0 <= i < |ranked| ==> CommitLeq(ranked[i], x)
    ensures NoneBelowBeaten(Placed(ranked, x, beats), beats) && LaterIsFaster(Placed(ranked, x, beats))
  {
    forall k | Position(ranked, x, beats) <= k < |ranked| ensures x.speed < ranked[k].speed && !beats(ranked[k], x) {
      BehindIsSlower(ranked, x, beats, k);
    }
    PlacedNoneBelow(ranked, x, beats);
    PlacedLaterFaster(ranked, x, beats);
  }

  /** The ranking holds the same submissions; none sits below one it beats by more than the margin, and a later
      commitment ranks above an earlier one only if it is strictly faster. */
  lemma RankingInvariant(eligible: seq<Submission>, margin: real)
    requires margin >= 0.0
    ensures multiset(Ranked(eligible, Beats(margin))) == multiset(eligible)
    ensures NoneBelowBeaten(Ranked(eligible, Beats(margin)), Beats(margin)) && LaterIsFaster(Ranked(eligible, Beats(margin)))
  {
    var s := Sort(eligible, CommitOrder());
    CommitsOrdered();
    SortSorted(eligible, CommitOrder());
    SortKeepsElements(eligible, CommitOrder());
    PlacedKeepsElements(s, Beats(margin));
    BeatsIsMarginOrder(margin);
    RankedInvariant(s, Beats(margin));
  }

  lemma CommitsOrdered()
    ensures Ordering(CommitOrder())
  {
    forall a: Submission, b: Submission ensures CommitOrder()(a, b) || CommitOrder()(b, a) {
      StringLeqTotal(a.hotkey, b.hotkey);
    }
    forall a: Submission, b: Submission, c: Submission | CommitOrder()(a, b) && CommitOrder()(b, c) ensures CommitOrder()(a, c) {
      if StringLeq(a.hotkey, b.hotkey) && StringLeq(b.hotkey, c.hotkey) {
        StringLeqTransitive(a.hotkey, b.hotkey, c.hotkey);
      }
    }
  }

  // ------------------------------------------------------------ the documented rule

  /** As documented: a later commitment only ranks above an earlier one if it is faster by more than the margin. */
  predicate LaterBeats(ranked: seq<Submission>, beats: Relation) {
    forall i, j :: 0 <= i < j < |ranked| && !CommitLeq(ranked[i], ranked[j]) ==> beats(ranked[i], ranked[j])
  }

  /** Three commitments in order of which the last beats the first but not the second, nor the second the first. */
  predicate Leapfrog(a: Submission, b: Submission, c: Submission, beats: Relation) {
    !beats(b, a) && beats(c, a) && !beats(c, b)
  }

  predicate NoLeapfrog(s: seq<Submission>, beats: Relation) {
    forall i, j, k :: 0 <= i < j < k < |s| ==> !Leapfrog(s[i], s[j], s[k], beats)
  }

  /** Commitments one after another, no two at once. */
  predicate StrictOrder(s: seq<Submission>) {
    forall i, j :: 0 <= i < j < |s| ==> CommitLeq(s[i], s[j]) && !CommitLeq(s[j], s[i])
  }

  /** Whoever holds a place is one of the submissions. */
  lemma HolderOf(s: seq<Submission>, beats: Relation, p: nat) returns (i: nat)
    requires p < |RankedInOrder(s, beats)|
    ensures i < |s| && s[i] == RankedInOrder(s, beats)[p]
  {
    RankedFrom(s, beats, p);
    i :| i < |s| && s[i] == RankedInOrder(s, beats)[p];
  }

  lemma BeatsThrough(x: Submission, a: Submission, b: Submission, beats: Relation)
    requires MarginOrder(beats) && beats(x, a) && !beats(x, b)
    ensures !beats(a, b)
  {
  }

  /** When x takes a place ahead of a holder that it does not beat, the one it displaces, that holder and x leapfrog. */
  lemma DisplacedLeapfrogs(ranked: seq<Submission>, x: Submission, beats: Relation, k: nat)
    requires MarginOrder(beats) && NoneBelowBeaten(ranked, beats) && LaterBeats(ranked, beats)
    requires Position(ranked, x, beats) <= k < |ranked| && !beats(x, ranked[k])
    ensures var p := Position(ranked, x, beats);
            p < k && CommitLeq(ranked[p], ranked[k]) && Leapfrog(ranked[p], ranked[k], x, beats)
  {
    var p := Position(ranked, x, beats);
    PositionBeats(ranked, x, beats);
    BeatsThrough(x, ranked[p], ranked[k], beats);
  }

  lemma InStrictOrder(s: seq<Submission>, i: nat, j: nat)
    requires StrictOrder(s) && i < |s| && j < |s| && CommitLeq(s[i], s[j]) && s[i] != s[j]
    ensures i < j
  {
  }

  /** A violation at one insertion shows three commitments that leapfrog. */
  lemma ViolationLeapfrogs(s: seq<Submission>, beats: Relation, k: nat)
    requires MarginOrder(beats) && StrictOrder(s) && s != []
    requires var (front, x) := (s[..|s| - 1], s[|s| - 1]);
             var ranked := RankedInOrder(front, beats);
             LaterBeats(ranked, beats) && Position(ranked, x, beats) <= k < |ranked| && !beats(x, ranked[k])
    ensures !NoLeapfrog(s, beats)
  {
    var (front, x) := (s[..|s| - 1], s[|s| - 1]);
    var ranked := RankedInOrder(front, beats);
    var p := Position(ranked, x, beats);
    StrictIsSorted(front);
    RankedInvariant(front, beats);
    DisplacedLeapfrogs(ranked, x, beats, k);
    var i := HolderOf(front, beats, p);
    var j := HolderOf(front, beats, k);
    InStrictOrder(front, i, j);
    assert Leapfrog(s[i], s[j], s[|s| - 1], beats);
  }

  lemma StrictIsSorted(s: seq<Submission>)
    requires StrictOrder(s)
    ensures Sorted(s, CommitOrder())
  {
  }

  lemma {:induction false} NoLeapfrogKeepsRule(s: seq<Submission>, beats: Relation)
    requires MarginOrder(beats) && StrictOrder(s) && NoLeapfrog(s, beats)
    ensures LaterBeats(RankedInOrder(s, beats), beats)
  {
    if s != [] {
      var (front, x) := (s[..|s| - 1], s[|s| - 1]);
      NoLeapfrogKeepsRule(front, beats);
      var ranked := RankedInOrder(front, beats);
      var p := Position(ranked, x, beats);
      forall k | p <= k < |ranked| ensures beats(x, ranked[k]) {
        if !beats(x, ranked[k]) { ViolationLeapfrogs(s, beats, k); }
      }
      forall i | 0 <= i < |ranked| ensures CommitLeq(ranked[i], x) {
        RankedFrom(front, beats, i);
      }
      PlacedKeepsRule(ranked, x, beats);
    }
  }

  lemma PlacedKeepsRule(ranked: seq<Submission>, x: Submission, beats: Relation)
    requires LaterBeats(ranked, beats) && forall i :: 0 <= i < |ranked| ==> CommitLeq(ranked[i], x)
    requires forall k :: Position(ranked, x, beats) <= k < |ranked| ==> beats(x, ranked[k])
    ensures LaterBeats(Placed(ranked, x, beats), beats)
  {
    var after := Placed(ranked, x, beats);
    forall i, j | 0 <= i < j < |after| && !CommitLeq(after[i], after[j]) ensures beats(after[i], after[j]) {
      PlacedAt(ranked, x, beats, i);
      PlacedAt(ranked, x, beats, j);
    }
  }

  lemma PlaceOf(s: seq<Submission>, beats: Relation, i: nat) returns (p: nat)
    requires i < |s|
    ensures p < |RankedInOrder(s, beats)| && RankedInOrder(s, beats)[p] == s[i]
  {
    PlacedKeepsElements(s, beats);
    assert s[i] in multiset(s);
    p :| p < |RankedInOrder(s, beats)| && RankedInOrder(s, beats)[p] == s[i];
  }

  lemma RuleForbidsLeapfrog(s: seq<Submission>, beats: Relation, i: nat, j: nat, k: nat)
    requires MarginOrder(beats) && StrictOrder(s) && i < j < k < |s| && Leapfrog(s[i], s[j], s[k], beats)
    ensures !LaterBeats(RankedInOrder(s, beats), beats)
  {
    StrictIsSorted(s);
    RankedInvariant(s, beats);
    var ranked := RankedInOrder(s, beats);
    var a := PlaceOf(s, beats, i);
    var b := PlaceOf(s, beats, j);
    var c := PlaceOf(s, beats, k);
    assert a != b && a != c && b != c by { assert !CommitLeq(s[j], s[i]) && !CommitLeq(s[k], s[i]) && !CommitLeq(s[k], s[j]); }
    assert c < a;
    if b < a {
      assert !CommitLeq(ranked[b], ranked[a]) && !beats(ranked[b], ranked[a]);
    } else {
      assert !CommitLeq(ranked[c], ranked[b]) && !beats(ranked[c], ranked[b]);
    }
  }

  lemma RuleInOrder(s: seq<Submission>, margin: real)
    requires margin >= 0.0 && StrictOrder(s)
    ensures LaterBeats(RankedInOrder(s, Beats(margin)), Beats(margin)) <==> NoLeapfrog(s, Beats(margin))
  {
    BeatsIsMarginOrder(margin);
    if NoLeapfrog(s, Beats(margin)) {
      NoLeapfrogKeepsRule(s, Beats(margin));
    } else {
      var i, j, k :| 0 <= i < j < k < |s| && Leapfrog(s[i], s[j], s[k], Beats(margin));
      RuleForbidsLeapfrog(s, Beats(margin), i, j, k);
    }
  }

  function SameCommit(): Relation {
    (a: Submission, b: Submission) => a.block == b.block && a.hotkey == b.hotkey
  }

  predicate Before(a: Submission, b: Submission) {
    CommitLeq(a, b) && !CommitLeq(b, a)
  }

  /** No three of these submissions, in order of commitment, leapfrog. */
  predicate NoneLeapfrog(eligible: seq<Submission>, beats: Relation) {
    forall a, b, c :: a in eligible && b in eligible && c in eligible && Before(a, b) && Before(b, c) ==> !Leapfrog(a, b, c, beats)
  }

  lemma SortedStrictly(eligible: seq<Submission>)
    requires Apart(eligible, SameCommit())
    ensures StrictOrder(Sort(eligible, CommitOrder()))
    ensures forall a :: a in eligible <==> a in Sort(eligible, CommitOrder())
  {
    var s := Sort(eligible, CommitOrder());
    CommitsOrdered();
    SortSorted(eligible, CommitOrder());
    SortApart(eligible, CommitOrder(), SameCommit());
    SortKeepsElements(eligible, CommitOrder());
    forall i, j | 0 <= i < j < |s| ensures CommitLeq(s[i], s[j]) && !CommitLeq(s[j], s[i]) {
      assert CommitOrder()(s[i], s[j]) && !SameCommit()(s[i], s[j]);
      StringLeqTotal(s[i].hotkey, s[j].hotkey);
    }
    assert forall a :: (a in eligible <==> a in multiset(eligible)) && (a in s <==> a in multiset(s));
  }

  lemma StrictPlaces(s: seq<Submission>, i: nat, j: nat)
    requires StrictOrder(s) && i < |s| && j < |s|
    ensures Before(s[i], s[j]) <==> i < j
  {
  }

  /** Whether three leapfrog does not depend on the order they are listed in. */
  lemma LeapfrogsAnywhere(eligible: seq<Submission>, s: seq<Submission>, beats: Relation)
    requires StrictOrder(s) && forall a :: a in eligible <==> a in s
    ensures NoneLeapfrog(eligible, beats) <==> NoLeapfrog(s, beats)
  {
    if NoneLeapfrog(eligible, beats) {
      forall i, j, k | 0 <= i < j < k < |s| ensures !Leapfrog(s[i], s[j], s[k], beats) {
        assert s[i] in eligible && s[j] in eligible && s[k] in eligible;
        StrictPlaces(s, i, j);
        StrictPlaces(s, j, k);
      }
    }
    if NoLeapfrog(s, beats) {
      forall a, b, c | a in eligible && b in eligible && c in eligible && Before(a, b) && Before(b, c)
        ensures !Leapfrog(a, b, c, beats)
      {
        InOrder(s, a, b, c, beats);
      }
    }
  }

  lemma InOrder(s: seq<Submission>, a: Submission, b: Submission, c: Submission, beats: Relation)
    requires StrictOrder(s) && NoLeapfrog(s, beats) && a in s && b in s && c in s && Before(a, b) && Before(b, c)
    ensures !Leapfrog(a, b, c, beats)
  {
    var i :| 0 <= i < |s| && s[i] == a;
    var j :| 0 <= j < |s| && s[j] == b;
    var k :| 0 <= k < |s| && s[k] == c;
    StrictPlaces(s, i, j);
    StrictPlaces(s, j, k);
  }

  /** The documented rule holds of a ranking exactly when no three of the submissions leapfrog. */
  lemma DocumentedRule(eligible: seq<Submission>, margin: real)
    requires margin >= 0.0 && Apart(eligible, SameCommit())
    ensures LaterBeats(Ranked(eligible, Beats(margin)), Beats(margin)) <==> NoneLeapfrog(eligible, Beats(margin))
  {
    var s := Sort(eligible, CommitOrder());
    SortedStrictly(eligible);
    RuleInOrder(s, margin);
    LeapfrogsAnywhere(eligible, s, Beats(margin));
  }

  lemma PlacedLast(ranked: seq<Submission>, x: Submission, beats: Relation)
    requires forall i :: 0 <= i < |ranked| ==> !beats(x, ranked[i])
    ensures Placed(ranked, x, beats) == ranked + [x]
  {
    PositionIsFirst(ranked, x, beats, |ranked|);
  }

  lemma PlacedFirst(ranked: seq<Submission>, x: Submission, beats: Relation)
    requires ranked != [] && beats(x, ranked[0])
    ensures Placed(ranked, x, beats) == [x] + ranked
  {
    PositionIsFirst(ranked, x, beats, 0);
  }

  /** Three that leapfrog: the last comes out first. */
  lemma LeapfrogRanking(a: Submission, b: Submission, c: Submission, beats: Relation)
    requires Leapfrog(a, b, c, beats)
    ensures RankedInOrder([a, b, c], beats) == [c, a, b]
  {
    assert [a, b, c][..2] == [a, b] && [a, b][..1] == [a] && [a][..0] == [];
    PlacedLast([], a, beats);
    assert RankedInOrder([a], beats) == [a];
    PlacedLast([a], b, beats);
    assert RankedInOrder([a, b], beats) == [a, b];
    PlacedFirst([a, b], c, beats);
  }

  /** With a margin of 3%, 9.6 passes 10 and with it 9.8, which it does not beat. */
  lemma DocumentedRuleFails()
    ensures var s := [Submission("a", 1, 10.0), Submission("b", 2, 9.8), Submission("c", 3, 9.6)];
            Ranked(s, Beats(0.03)) == [s[2], s[0], s[1]] && !LaterBeats(Ranked(s, Beats(0.03)), Beats(0.03))
  {
    var (a, b, c) := (Submission("a", 1, 10.0), Submission("b", 2, 9.8), Submission("c", 3, 9.6));
    SortOfSorted([a, b, c], CommitOrder());
    LeapfrogRanking(a, b, c, Beats(0.03));
    var ranked := [c, a, b];
    assert !CommitLeq(ranked[0], ranked[2]) && !Beats(0.03)(ranked[0], ranked[2]);
  }
}
