/** What each rank of a turbo competition is paid, and the weights smoothed over its windows. */
module Shares {
  import opened Sums
  import opened Ranking

  datatype Curve = Podium(shares: seq<real>) | Exponential(decay: real, topK: nat)

  function Power(x: real, n: nat): real {
    if n == 0 then 1.0 else Power(x, n - 1) * x
  }

  /** The unnormalised share of each of the first places. */
  function PlaceShares(curve: Curve, places: nat): (s: seq<real>)
    ensures |s| == places
  {
    match curve
    case Podium(shares) => seq(places, i requires 0 <= i < places => if i < |shares| then shares[i] else 0.0)
    case Exponential(decay, topK) => seq(places, i requires 0 <= i < places => if i < topK then Power(decay, i) else 0.0)
  }

  /** A podium pays its places their shares and others nothing; an exponential curve pays the first place 1 and each further
      one, up to the top ones, the decay times the place before. */
  lemma PlacesExactly(curve: Curve, n: nat, i: nat)
    requires i < n
    ensures var s := PlaceShares(curve, n);
            match curve
            case Podium(shares) => s[i] == if i >= |shares| then 0.0 else shares[i]
            case Exponential(decay, topK) =>
              s[i] == if i >= topK then 0.0 else if i == 0 then 1.0 else s[i - 1] * decay
  {
  }

  predicate Falling(s: seq<real>) {
    forall i, j :: 0 <= i <= j < |s| ==> s[i] >= s[j]
  }

  // ------------------------------------------------------------ ties

  /** Committed in the same block and within the margin of each other. */
  predicate Tied(a: Submission, b: Submission, margin: real) {
    a.block == b.block
    && (if a.speed < b.speed then b.speed else a.speed) <= (if a.speed < b.speed then a.speed else b.speed) * (1.0 + margin)
  }

  /** That is, neither is slower than the other by more than the margin. */
  lemma TiedExactly(a: Submission, b: Submission, margin: real)
    requires margin >= 0.0
    ensures Tied(a, b, margin)
            <==> a.block == b.block && a.speed <= b.speed + b.speed * margin && b.speed <= a.speed + a.speed * margin
  {
    WithMargin(a.speed, margin);
    WithMargin(b.speed, margin);
  }

  lemma WithMargin(x: real, margin: real)
    requires x > 0.0 && margin >= 0.0
    ensures x * (1.0 + margin) == x + x * margin >= x
  {
  }

  /** Whether each submission ties with the one ranked before it. */
  function Ties(ranked: seq<Submission>, margin: real): (ties: seq<bool>)
    ensures |ties| == |ranked|
  {
    seq(|ranked|, i requires 0 <= i < |ranked| => i > 0 && Tied(ranked[i - 1], ranked[i], margin))
  }

  predicate Joins(ties: seq<bool>, i: int) {
    0 < i < |ties| && ties[i]
  }

  /** The first place of the tie that place i is part of. */
  function First(ties: seq<bool>, i: nat): (s: nat)
    requires i < |ties|
    ensures s <= i && !Joins(ties, s) && forall k :: s < k <= i ==> Joins(ties, k)
  {
    if Joins(ties, i) then First(ties, i - 1) else i
  }

  /** One past its last place. */
  function End(ties: seq<bool>, i: nat): (e: nat)
    requires i < |ties|
    ensures i < e <= |ties| && !Joins(ties, e) && forall k :: i < k < e ==> Joins(ties, k)
    decreases |ties| - i
  {
    if Joins(ties, i + 1) then End(ties, i + 1) else i + 1
  }

  /** Places share when every neighbouring two between them tie. */
  lemma TiesJoin(ranked: seq<Submission>, margin: real, i: nat, j: nat)
    requires i < |ranked| && j < |ranked|
    ensures j <= i ==> (First(Ties(ranked, margin), i) <= j
                        <==> forall k :: j < k <= i ==> Tied(ranked[k - 1], ranked[k], margin))
    ensures i <= j ==> (j < End(Ties(ranked, margin), i)
                        <==> forall k :: i < k <= j ==> Tied(ranked[k - 1], ranked[k], margin))
  {
    var ties := Ties(ranked, margin);
    assert forall k :: 0 < k < |ranked| ==> (Joins(ties, k) <==> Tied(ranked[k - 1], ranked[k], margin));
    if First(ties, i) > j { assert !Joins(ties, First(ties, i)); }
    if End(ties, i) <= j { assert !Joins(ties, End(ties, i)); }
  }

  function Mean(places: seq<real>, first: nat, end: nat): real
    requires first < end <= |places|
  {
    Total(places[first..end]) / (end - first) as real
  }

  /** A place's share: the mean over the places of its tie. */
  function SplitShare(ties: seq<bool>, places: seq<real>, i: nat): real
    requires i < |ties| == |places|
  {
    Mean(places, First(ties, i), End(ties, i))
  }

  function SplitShares(ties: seq<bool>, places: seq<real>): (s: seq<real>)
    requires |ties| == |places|
    ensures |s| == |ties| && forall i :: 0 <= i < |s| ==> s[i] == SplitShare(ties, places, i)
  {
    seq(|ties|, i requires 0 <= i < |ties| => SplitShare(ties, places, i))
  }

  lemma SameTie(ties: seq<bool>, i: nat, j: nat)
    requires i < |ties| && First(ties, i) <= j < End(ties, i)
    ensures First(ties, j) == First(ties, i) && End(ties, j) == End(ties, i)
  {
    assert forall k :: First(ties, i) < k < End(ties, i) ==> Joins(ties, k);
    assert !(First(ties, i) < First(ties, j)) && !(End(ties, j) < End(ties, i));
  }

  lemma MeanTimes(places: seq<real>, first: nat, end: nat)
    requires first < end <= |places|
    ensures (end - first) as real * Mean(places, first, end) == Total(places[first..end])
  {
  }

  lemma PrefixPlus(s: seq<real>, first: nat, end: nat)
    requires first <= end <= |s|
    ensures Total(s[..end]) == Total(s[..first]) + Total(s[first..end])
  {
    assert s[..end] == s[..first] + s[first..end];
    TotalConcat(s[..first], s[first..end]);
  }

  lemma SameAsMean(s: seq<real>, places: seq<real>, first: nat, end: nat)
    requires first < end <= |places| && |s| == end - first
    requires forall i :: 0 <= i < |s| ==> s[i] == Mean(places, first, end)
    ensures Total(s) == Total(places[first..end])
  {
    TotalOfSame(s, Mean(places, first, end));
    MeanTimes(places, first, end);
  }

  lemma TieShare(ties: seq<bool>, places: seq<real>, first: nat, end: nat, i: nat)
    requires first <= i < end <= |ties| == |places| && First(ties, end - 1) == first && !Joins(ties, end)
    ensures SplitShares(ties, places)[i] == Mean(places, first, end)
  {
    SameTie(ties, end - 1, i);
  }

  lemma TieIsMean(ties: seq<bool>, places: seq<real>, first: nat, end: nat)
    requires first < end <= |ties| == |places| && First(ties, end - 1) == first && !Joins(ties, end)
    ensures forall i :: 0 <= i < end - first ==> SplitShares(ties, places)[first..end][i] == Mean(places, first, end)
  {
    forall i | 0 <= i < end - first ensures SplitShares(ties, places)[first..end][i] == Mean(places, first, end) {
      TieShare(ties, places, first, end, first + i);
    }
  }

  lemma TieConserves(ties: seq<bool>, places: seq<real>, first: nat, end: nat)
    requires first < end <= |ties| == |places| && First(ties, end - 1) == first && !Joins(ties, end)
    ensures Total(SplitShares(ties, places)[first..end]) == Total(places[first..end])
  {
    TieIsMean(ties, places, first, end);
    SameAsMean(SplitShares(ties, places)[first..end], places, first, end);
  }

  /** Splitting a tie keeps the sum of the places it occupies, and so of all places up to its end. */
  lemma {:induction false} SplitConserves(ties: seq<bool>, places: seq<real>, end: nat)
    requires end <= |ties| == |places| && !Joins(ties, end)
    ensures Total(SplitShares(ties, places)[..end]) == Total(places[..end])
    decreases end
  {
    if end > 0 {
      var (shares, first) := (SplitShares(ties, places), First(ties, end - 1));
      SplitConserves(ties, places, first);
      assert Total(shares[first..end]) == Total(places[first..end]) by { TieConserves(ties, places, first, end); }
      PrefixPlus(shares, first, end);
      PrefixPlus(places, first, end);
    }
  }

  function Normalised(shares: seq<real>): (s: seq<real>)
    ensures |s| == |shares|
  {
    var total := Total(shares);
    seq(|shares|, i requires 0 <= i < |shares| => if total > 0.0 then shares[i] / total else 0.0)
  }

  lemma {:induction false} TotalDivided(s: seq<real>, t: seq<real>, d: real)
    requires d > 0.0 && |s| == |t| && forall i :: 0 <= i < |s| ==> t[i] == s[i] / d
    ensures Total(t) == Total(s) / d
  {
    if s != [] {
      TotalDivided(s[..|s| - 1], t[..|t| - 1], d);
      DividedSum(Total(s[..|s| - 1]), s[|s| - 1], d);
    }
  }

  lemma DividedSum(a: real, b: real, d: real)
    requires d > 0.0
    ensures (a + b) / d == a / d + b / d
  {
  }

  lemma DividedSelf(d: real)
    requires d > 0.0
    ensures d / d == 1.0
  {
  }

  function FinalShares(ties: seq<bool>, places: seq<real>): seq<real>
    requires |ties| == |places|
  {
    Normalised(SplitShares(ties, places))
  }

  /** Whatever the ties, the shares sum to 1 when the occupied places have a positive sum, and are all 0 otherwise. */
  lemma SharesSumToOne(ties: seq<bool>, places: seq<real>)
    requires |ties| == |places|
    ensures Total(places) > 0.0 ==> Total(FinalShares(ties, places)) == 1.0
    ensures Total(places) <= 0.0 ==> forall i :: 0 <= i < |ties| ==> FinalShares(ties, places)[i] == 0.0
  {
    var shares := SplitShares(ties, places);
    SplitConserves(ties, places, |ties|);
    assert shares[..|ties|] == shares && places[..|ties|] == places;
    if Total(places) > 0.0 {
      TotalDivided(shares, Normalised(shares), Total(shares));
      DividedSelf(Total(shares));
    }
  }

  /** Members of a tie get the same share. */
  lemma TiedShareEqually(ties: seq<bool>, places: seq<real>, i: nat, j: nat)
    requires |ties| == |places| && i < |ties| && j < |ties| && First(ties, i) == First(ties, j)
    ensures FinalShares(ties, places)[i] == FinalShares(ties, places)[j]
  {
    SameTie(ties, if i <= j then j else i, if i <= j then i else j);
  }

  lemma {:induction false} SumAtLeast(s: seq<real>, low: real)
    requires forall i :: 0 <= i < |s| ==> low <= s[i]
    ensures |s| as real * low <= Total(s)
  {
    if s != [] {
      SumAtLeast(s[..|s| - 1], low);
      OneMoreTimes(|s| - 1, low);
    }
  }

  lemma {:induction false} SumAtMost(s: seq<real>, high: real)
    requires forall i :: 0 <= i < |s| ==> s[i] <= high
    ensures Total(s) <= |s| as real * high
  {
    if s != [] {
      SumAtMost(s[..|s| - 1], high);
      OneMoreTimes(|s| - 1, high);
    }
  }

  lemma OneMoreTimes(n: nat, x: real)
    ensures (n + 1) as real * x == n as real * x + x
  {
  }

  lemma MeanAtLeast(places: seq<real>, first: nat, end: nat, low: real)
    requires first < end <= |places| && forall i :: first <= i < end ==> low <= places[i]
    ensures low <= Mean(places, first, end)
  {
    SumAtLeast(places[first..end], low);
    MeanTimes(places, first, end);
    ScaledDown((end - first) as real, low, Mean(places, first, end));
  }

  lemma MeanAtMost(places: seq<real>, first: nat, end: nat, high: real)
    requires first < end <= |places| && forall i :: first <= i < end ==> places[i] <= high
    ensures Mean(places, first, end) <= high
  {
    SumAtMost(places[first..end], high);
    MeanTimes(places, first, end);
    ScaledDown((end - first) as real, Mean(places, first, end), high);
  }

  lemma ScaledDown(n: real, x: real, y: real)
    requires n > 0.0 && n * x <= n * y
    ensures x <= y
  {
    assert n * (y - x) >= 0.0;
  }

  lemma NextIsLess(ties: seq<bool>, places: seq<real>, i: nat)
    requires |ties| == |places| && i + 1 < |ties| && Falling(places)
    ensures SplitShare(ties, places, i) >= SplitShare(ties, places, i + 1)
  {
    if Joins(ties, i + 1) {
      SameTie(ties, i + 1, i);
    } else {
      MeanAtLeast(places, First(ties, i), i + 1, places[i]);
      MeanAtMost(places, i + 1, End(ties, i + 1), places[i + 1]);
    }
  }

  lemma {:induction false} SplitFalls(ties: seq<bool>, places: seq<real>, i: nat, j: nat)
    requires |ties| == |places| && i <= j < |ties| && Falling(places)
    ensures SplitShare(ties, places, i) >= SplitShare(ties, places, j)
    decreases j
  {
    if i < j {
      SplitFalls(ties, places, i, j - 1);
      NextIsLess(ties, places, j - 1);
    }
  }

  /** A better rank is never paid less, when a better place is not. */
  lemma SharesFall(ties: seq<bool>, places: seq<real>)
    requires |ties| == |places| && Falling(places)
    ensures Falling(FinalShares(ties, places))
  {
    var shares := SplitShares(ties, places);
    forall i, j | 0 <= i <= j < |ties| ensures FinalShares(ties, places)[i] >= FinalShares(ties, places)[j] {
      SplitFalls(ties, places, i, j);
      if Total(shares) > 0.0 { DividedMonotone(shares[j], shares[i], Total(shares)); }
    }
  }

  lemma DividedMonotone(a: real, b: real, d: real)
    requires a <= b && d > 0.0
    ensures a / d <= b / d
  {
  }

  // ------------------------------------------------------------ what the curves pay

  /** The curves a competition accepts. */
  predicate ValidCurve(curve: Curve) {
    match curve
    case Podium(shares) => (forall i :: 0 <= i < |shares| ==> shares[i] >= 0.0) && Total(shares) > 0.0
    case Exponential(decay, topK) => 0.0 < decay < 1.0 && topK >= 1
  }

  /** An exponential curve always falls; a podium does when its shares are listed so. */
  predicate FallingCurve(curve: Curve) {
    curve.Podium? ==> Falling(curve.shares)
  }

  lemma FractionOf(a: real, x: real, b: real)
    requires a > 0.0 && 0.0 < x < 1.0 && b == a * x
    ensures 0.0 < b <= a
  {
    assert a * (1.0 - x) >= 0.0;
  }

  /** Each element is the one before it times x, from 1. */
  predicate Geometric(powers: seq<real>, x: real) {
    powers == [] || (powers[0] == 1.0 && forall k :: 0 < k < |powers| ==> IsTimes(powers, x, k))
  }

  predicate IsTimes(powers: seq<real>, x: real, k: nat)
    requires 0 < k < |powers|
  {
    powers[k] == powers[k - 1] * x
  }

  lemma {:induction false} GeometricPositive(powers: seq<real>, x: real, i: nat)
    requires 0.0 < x < 1.0 && i < |powers| && Geometric(powers, x)
    ensures powers[i] > 0.0
  {
    if i > 0 {
      GeometricPositive(powers, x, i - 1);
      assert IsTimes(powers, x, i);
      FractionOf(powers[i - 1], x, powers[i]);
    }
  }

  lemma {:induction false} GeometricFalls(powers: seq<real>, x: real, i: nat, j: nat)
    requires 0.0 < x < 1.0 && i <= j < |powers| && Geometric(powers, x)
    ensures powers[i] >= powers[j]
    decreases j
  {
    if i < j {
      GeometricFalls(powers, x, i, j - 1);
      GeometricPositive(powers, x, j - 1);
      assert IsTimes(powers, x, j);
      FractionOf(powers[j - 1], x, powers[j]);
    }
  }

  function Powers(x: real, n: nat): (powers: seq<real>)
    ensures |powers| == n && forall i :: 0 <= i < n ==> powers[i] == Power(x, i)
  {
    seq(n, i requires 0 <= i < n => Power(x, i))
  }

  lemma PowersGeometric(x: real, n: nat)
    ensures Geometric(Powers(x, n), x)
  {
    forall k | 0 < k < n ensures IsTimes(Powers(x, n), x, k) {
      assert Power(x, k) == Power(x, k - 1) * x;
    }
  }

  lemma ExponentialFalls(decay: real, topK: nat, n: nat)
    requires 0.0 < decay < 1.0
    ensures Falling(PlaceShares(Exponential(decay, topK), n))
    ensures forall i :: 0 <= i < n ==> PlaceShares(Exponential(decay, topK), n)[i] >= 0.0
  {
    var (powers, places) := (Powers(decay, n), PlaceShares(Exponential(decay, topK), n));
    PowersGeometric(decay, n);
    forall i | 0 <= i < n ensures powers[i] > 0.0 && (places[i] == powers[i] || places[i] == 0.0) {
      GeometricPositive(powers, decay, i);
    }
    forall i, j | 0 <= i <= j < n ensures places[i] >= places[j] { GeometricFalls(powers, decay, i, j); }
  }

  /** Place shares never rise, however many places there are, exactly for the falling curves. */
  lemma PlacesFall(curve: Curve)
    requires ValidCurve(curve)
    ensures (forall n: nat :: Falling(PlaceShares(curve, n))) <==> FallingCurve(curve)
  {
    if curve.Exponential? {
      forall n: nat ensures Falling(PlaceShares(curve, n)) { ExponentialFalls(curve.decay, curve.topK, n); }
    } else {
      assert PlaceShares(curve, |curve.shares|) == curve.shares;
    }
  }

  /** The first place of a falling curve is paid. */
  lemma FirstIsPaid(curve: Curve, n: nat)
    requires ValidCurve(curve) && FallingCurve(curve) && n > 0
    ensures PlaceShares(curve, n)[0] > 0.0 && forall i :: 0 <= i < n ==> PlaceShares(curve, n)[i] >= 0.0
  {
    match curve {
      case Podium(shares) =>
        if shares[0] <= 0.0 { SumAtMost(shares, 0.0); }
      case Exponential(decay, topK) =>
        ExponentialFalls(decay, topK, n);
        assert Power(decay, 0) == 1.0;
    }
  }

  /** So a falling curve pays something whenever there is a place. */
  lemma SomethingIsPaid(curve: Curve, n: nat)
    requires ValidCurve(curve) && FallingCurve(curve) && n > 0
    ensures Total(PlaceShares(curve, n)) > 0.0
  {
    var places := PlaceShares(curve, n);
    FirstIsPaid(curve, n);
    assert places == [places[0]] + places[1..];
    TotalConcat([places[0]], places[1..]);
    SumAtLeast(places[1..], 0.0);
    assert Total([places[0]]) == places[0] by { assert [places[0]][..0] == []; }
  }

  // ------------------------------------------------------------ assignment

  datatype Result = Result(submission: Submission, rank: nat, share: real)

  /** The places of one tie: from first up to end. */
  datatype Group = Group(first: nat, end: nat)

  predicate IsTie(ties: seq<bool>, group: Group) {
    group.first < group.end <= |ties| && First(ties, group.first) == group.first && End(ties, group.first) == group.end
  }

  /** The groups are the ties of the ranking, one after another, up to a place. */
  predicate AreTies(ties: seq<bool>, groups: seq<Group>, end: nat) {
    && (forall g :: 0 <= g < |groups| ==> IsTie(ties, groups[g]))
    && (forall g :: 0 < g < |groups| ==> groups[g - 1].end == groups[g].first)
    && (if groups == [] then end == 0 else groups[0].first == 0 && groups[|groups| - 1].end == end)
  }

  method TieGroups(ranked: seq<Submission>, margin: real) returns (groups: seq<Group>)
    ensures AreTies(Ties(ranked, margin), groups, |ranked|)
  {
    groups := [];
    ghost var ties := Ties(ranked, margin);
    var open: Group := Group(0, 0);
    for index := 0 to |ranked|
      invariant open.first <= open.end == index && !Joins(ties, open.first) && (index > 0 ==> open.first < index)
      invariant forall k :: open.first < k < index ==> Joins(ties, k)
      invariant AreTies(ties, groups, open.first)
    {
      if index > 0 && Tied(ranked[open.end - 1], ranked[index], margin) {
        assert Joins(ties, index);
        open := open.(end := index + 1);
      } else {
        assert !Joins(ties, index);
        if index > 0 {
          TiesPlus(ties, groups, open);
          groups := groups + [open];
        }
        open := Group(index, index + 1);
      }
    }
    if ranked != [] {
      TiesPlus(ties, groups, open);
      groups := groups + [open];
    }
  }

  lemma TiesPlus(ties: seq<bool>, groups: seq<Group>, group: Group)
    requires AreTies(ties, groups, group.first) && group.first < group.end <= |ties|
    requires !Joins(ties, group.first) && !Joins(ties, group.end)
    requires forall k :: group.first < k < group.end ==> Joins(ties, k)
    ensures AreTies(ties, groups + [group], group.end)
  {
    assert End(ties, group.first) == group.end;
  }

  method SplitTies(ghost ties: seq<bool>, groups: seq<Group>, places: seq<real>) returns (shares: seq<real>)
    requires |ties| == |places| && AreTies(ties, groups, |places|)
    ensures shares == SplitShares(ties, places)
  {
    shares := seq(|places|, _ => 0.0);
    ghost var done := 0;
    for g := 0 to |groups|
      invariant |shares| == |places| && done == (if g == 0 then 0 else groups[g - 1].end) <= |places|
      invariant forall i :: 0 <= i < done ==> shares[i] == SplitShare(ties, places, i)
    {
      var group := groups[g];
      assert IsTie(ties, group) && group.first == done;
      var mean := Mean(places, group.first, group.end);
      for i := group.first to group.end
        invariant |shares| == |places|
        invariant forall k :: 0 <= k < i ==> shares[k] == SplitShare(ties, places, k)
      {
        SameTie(ties, group.first, i);
        shares := shares[i := mean];
      }
      done := group.end;
    }
  }

  /** What a falling curve pays falls with rank and sums to 1, whatever the ties. */
  lemma FallingPay(curve: Curve, ties: seq<bool>)
    requires ValidCurve(curve) && FallingCurve(curve) && ties != []
    ensures var shares := FinalShares(ties, PlaceShares(curve, |ties|)); Falling(shares) && Total(shares) == 1.0
  {
    PlacesFall(curve);
    SharesFall(ties, PlaceShares(curve, |ties|));
    SomethingIsPaid(curve, |ties|);
    SharesSumToOne(ties, PlaceShares(curve, |ties|));
  }

  function Paid(results: seq<Result>): (shares: seq<real>)
    ensures |shares| == |results|
  {
    seq(|results|, i requires 0 <= i < |results| => results[i].share)
  }

  /** Ranks from 1 and normalised shares. */
  function ResultsOf(ranked: seq<Submission>, shares: seq<real>): (results: seq<Result>)
    requires |shares| == |ranked|
    ensures |results| == |ranked|
    ensures forall i :: 0 <= i < |ranked| ==> results[i] == Result(ranked[i], i + 1, Normalised(shares)[i])
  {
    var normalised := Normalised(shares);
    seq(|ranked|, i requires 0 <= i < |ranked| => Result(ranked[i], i + 1, normalised[i]))
  }

  lemma PaidNormalised(ranked: seq<Submission>, shares: seq<real>)
    requires |shares| == |ranked|
    ensures Paid(ResultsOf(ranked, shares)) == Normalised(shares)
  {
  }

  /** Ranks and normalised shares: ties split the shares of the places they occupy equally. Under a falling curve no better
      rank is paid less and, when anyone is eligible, the shares sum to 1. */
  method AssignShares(curve: Curve, eligible: seq<Submission>, margin: real) returns (results: seq<Result>)
    ensures var ranked := Ranked(eligible, Beats(margin));
            var shares := FinalShares(Ties(ranked, margin), PlaceShares(curve, |ranked|));
            |results| == |ranked| && forall i :: 0 <= i < |ranked| ==> results[i] == Result(ranked[i], i + 1, shares[i])
    ensures ValidCurve(curve) && FallingCurve(curve) && results != [] ==> Falling(Paid(results)) && Total(Paid(results)) == 1.0
  {
    var ranked := RankResults(eligible, margin);
    var places := PlaceShares(curve, |ranked|);
    var groups := TieGroups(ranked, margin);
    var shares := SplitTies(Ties(ranked, margin), groups, places);
    results := ResultsOf(ranked, shares);
    PaidNormalised(ranked, shares);
    if ValidCurve(curve) && FallingCurve(curve) && ranked != [] { FallingPay(curve, Ties(ranked, margin)); }
  }

  // ------------------------------------------------------------ smoothing

  type Window = map<string, real>

  /** A hotkey's share in one window, 0 where the window has no record of it. */
  function ShareIn(finalized: map<nat, Window>, index: nat, hotkey: string): real {
    if index in finalized && hotkey in finalized[index] then finalized[index][hotkey] else 0.0
  }

  /** The sum over the windows of a hotkey's share divided by n. */
  function Smoothed(windows: seq<nat>, finalized: map<nat, Window>, n: nat, hotkey: string): real
    requires n > 0
  {
    if windows == [] then 0.0
    else
      Smoothed(windows[..|windows| - 1], finalized, n, hotkey)
      + ShareIn(finalized, windows[|windows| - 1], hotkey) / n as real
  }

  /** That is a mean: each window adds its part, and one that has no record of the hotkey nothing. */
  lemma {:induction false} SmoothedAddsUp(
    before: seq<nat>, after: seq<nat>, finalized: map<nat, Window>, n: nat, hotkey: string, w: nat
  )
    requires n > 0
    ensures Smoothed(before + after, finalized, n, hotkey)
            == Smoothed(before, finalized, n, hotkey) + Smoothed(after, finalized, n, hotkey)
    ensures Smoothed([w], finalized, n, hotkey)
            == if w in finalized && hotkey in finalized[w] then finalized[w][hotkey] / n as real else 0.0
  {
    if after == [] {
      assert before + after == before;
    } else {
      SmoothedAddsUp(before, after[..|after| - 1], finalized, n, hotkey, w);
      assert (before + after)[..|before + after| - 1] == before + after[..|after| - 1];
    }
    assert [w][..0] == [];
  }

  function Last(windows: seq<nat>, n: nat): seq<nat> {
    if |windows| <= n then windows else windows[|windows| - n..]
  }

  /** The last n windows, or all of them where there are fewer. */
  lemma LastExactly(windows: seq<nat>, n: nat, i: nat)
    requires i < |Last(windows, n)|
    ensures |Last(windows, n)| == if |windows| <= n then |windows| else n
    ensures Last(windows, n)[i] == windows[|windows| - |Last(windows, n)| + i]
  {
  }

  predicate SharesNonNegative(finalized: map<nat, Window>) {
    forall index, hotkey :: index in finalized && hotkey in finalized[index] ==> finalized[index][hotkey] >= 0.0
  }

  lemma {:induction false} SmoothedNonNegative(windows: seq<nat>, finalized: map<nat, Window>, n: nat, hotkey: string)
    requires n > 0 && SharesNonNegative(finalized)
    ensures Smoothed(windows, finalized, n, hotkey) >= 0.0
  {
    if windows != [] {
      SmoothedNonNegative(windows[..|windows| - 1], finalized, n, hotkey);
      DividedMonotone(0.0, ShareIn(finalized, windows[|windows| - 1], hotkey), n as real);
    }
  }

  method AddWindow(totals: map<string, real>, window: Window, n: nat) returns (after: map<string, real>)
    requires n > 0
    ensures forall hotkey :: ValueOf(after)(hotkey)
                             == ValueOf(totals)(hotkey) + (if hotkey in window then window[hotkey] else 0.0) / n as real
  {
    after := totals;
    var todo := window.Keys;
    while todo != {}
      invariant todo <= window.Keys
      invariant forall hotkey :: hotkey in window && hotkey !in todo ==>
                  ValueOf(after)(hotkey) == ValueOf(totals)(hotkey) + window[hotkey] / n as real
      invariant forall hotkey :: hotkey !in window || hotkey in todo ==> ValueOf(after)(hotkey) == ValueOf(totals)(hotkey)
      decreases |todo|
    {
      var hotkey :| hotkey in todo;
      after := after[hotkey := ValueOf(after)(hotkey) + window[hotkey] / n as real];
      todo := todo - {hotkey};
    }
  }

  method TotalShares(last: seq<nat>, finalized: map<nat, Window>) returns (totals: map<string, real>)
    ensures last != [] ==> forall h :: ValueOf(totals)(h) == Smoothed(last, finalized, |last|, h)
    ensures last == [] ==> totals == map[]
  {
    totals := map[];
    for i := 0 to |last|
      invariant last != [] ==> forall h :: ValueOf(totals)(h) == Smoothed(last[..i], finalized, |last|, h)
      invariant last == [] ==> totals == map[]
    {
      assert last[..i + 1][..i] == last[..i];
      totals := AddWindow(totals, if last[i] in finalized then finalized[last[i]] else map[], |last|);
    }
    assert last[..|last|] == last;
  }

  /** The mean shares over the last ended windows, a missing window counting as zero, scaled to sum to 1. */
  method SmoothedWeights(ended: seq<nat>, finalized: map<nat, Window>, smoothing: nat)
    returns (weights: map<string, real>, ghost total: real)
    requires smoothing > 0 && SharesNonNegative(finalized)
    ensures weights != map[] ==> Sum(weights.Keys, ValueOf(weights)) == 1.0
    ensures total >= 0.0 && (ended == [] ==> weights == map[])
    ensures var last := Last(ended, smoothing);
            ended != [] ==> forall h ::
              && (h in weights <==> Smoothed(last, finalized, |last|, h) > 0.0)
              && (h in weights ==> total > 0.0 && weights[h] == Smoothed(last, finalized, |last|, h) / total)
  {
    var last := Last(ended, smoothing);
    var totals := TotalShares(last, finalized);
    var sum := SumOver(totals.Keys, ValueOf(totals));
    total := sum;
    forall h ensures ValueOf(totals)(h) >= 0.0 {
      if last != [] { SmoothedNonNegative(last, finalized, |last|, h); }
    }
    SumNonNegative(totals.Keys, ValueOf(totals));
    weights := map[];
    if sum > 0.0 {
      weights := map h | h in totals && totals[h] > 0.0 :: totals[h] / sum;
      WeightsSum(totals, weights, sum);
    }
    assert forall h :: h in weights <==> ValueOf(totals)(h) > 0.0;
    assert forall h :: h in weights ==> weights[h] == ValueOf(totals)(h) / sum;
  }

  lemma WeightsSum(totals: map<string, real>, weights: map<string, real>, total: real)
    requires total == Sum(totals.Keys, ValueOf(totals)) && total > 0.0
    requires forall h :: h in totals ==> totals[h] >= 0.0
    requires weights == map h | h in totals && totals[h] > 0.0 :: totals[h] / total
    ensures Sum(weights.Keys, ValueOf(weights)) == 1.0
  {
    SumSubset(weights.Keys, totals.Keys, ValueOf(totals));
    var k := 1.0 / total;
    forall h | h in weights.Keys ensures ValueOf(weights)(h) == Times(k, ValueOf(totals))(h) {
      Reciprocal(totals[h], total);
    }
    SumScaled(weights.Keys, k, ValueOf(totals), ValueOf(weights));
    Reciprocal(total, total);
    DividedSelf(total);
  }

  lemma Reciprocal(x: real, d: real)
    requires d > 0.0
    ensures 1.0 / d * x == x / d
  {
  }
}
