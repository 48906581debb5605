/**
  Fitting a plan's shot durations to its target length: snapping to the profile's grid, then a greedy loop that lengthens
  the shortest shots while the plan is short and shortens the longest while it is long.

  Durations are exact reals, so rounding to six digits is the identity on the grid.
 */
module PlanFit {
  import opened Wrappers

  const TARGET_TOLERANCE_S := 0.5
  const EPSILON := 0.000001

  datatype Join = Fresh | Continue | Cut

  datatype Shot = Shot(duration: real, join: Join)

  /** The frame rate, the target and the limits; the longest shot is `maxSteps` grid steps above the shortest. */
  datatype Context = Context(
    fps: nat, targetS: real, minShotS: real, stepS: real, maxSteps: nat, maxTotalS: real, overlapLatentFrames: nat
  ) {
    predicate Valid() {
      fps > 0 && stepS > EPSILON
    }

    function At(k: int): real {
      minShotS + k as real * stepS
    }

    function MaxShotS(): real {
      At(maxSteps)
    }

    function Low(): real {
      targetS - TARGET_TOLERANCE_S
    }

    function High(): real {
      targetS + TARGET_TOLERANCE_S
    }

    predicate Short(total: real) {
      total < Low() - EPSILON
    }

    predicate Long(total: real) {
      total > High() + EPSILON || total > maxTotalS + EPSILON
    }
  }

  // ------------------------------------------------------------ stitched length

  /** Python's `round`: to the nearest integer, ties to even. */
  function Round(x: real): int {
    var f := x.Floor;
    if x - f as real < 0.5 then f
    else if x - f as real > 0.5 then f + 1
    else if f % 2 == 0 then f
    else f + 1
  }

  /** LTX renders 8k + 1 frames. */
  function LtxNumFrames(durationS: real, fps: nat): int {
    var k := Round(durationS * fps as real / 8.0);
    8 * (if k > 1 then k else 1) + 1
  }

  function TrimFrames(c: Context): int {
    1 + 8 * (c.overlapLatentFrames - 1)
  }

  function ShotFrames(shot: Shot, c: Context): int {
    LtxNumFrames(shot.duration, c.fps) - (if shot.join != Fresh then TrimFrames(c) else 0)
  }

  function StoryboardFrames(shots: seq<Shot>, c: Context): int {
    if shots == [] then 0 else StoryboardFrames(shots[..|shots| - 1], c) + ShotFrames(shots[|shots| - 1], c)
  }

  function Stitched(shots: seq<Shot>, c: Context): real
    requires c.Valid()
  {
    StoryboardFrames(shots, c) as real / c.fps as real
  }

  /** Rounding gives a nearest integer, the even one of two that are equally near. */
  lemma RoundIsNearest(x: real, n: int)
    ensures Distance(Round(x) as real, x) <= 0.5 && Distance(Round(x) as real, x) <= Distance(n as real, x)
    ensures Distance(Round(x) as real, x) == 0.5 ==> Round(x) % 2 == 0
  {
    var f := x.Floor;
    assert Round(x) == f || Round(x) == f + 1;
    NearestOfTwo(x, f as real, Round(x) as real);
    if n <= f { assert n as real <= f as real; } else { assert n as real >= f as real + 1.0; }
    NextIsEven(f);
  }

  lemma NearestOfTwo(x: real, f: real, r: real)
    requires f <= x < f + 1.0
    requires (r == f && x - f <= 0.5) || (r == f + 1.0 && x - f >= 0.5)
    ensures Distance(r, x) <= 0.5 && forall y: real :: y <= f || y >= f + 1.0 ==> Distance(r, x) <= Distance(y, x)
  {
  }

  lemma NextIsEven(f: int)
    ensures f % 2 == 0 || (f + 1) % 2 == 0
  {
  }

  /** A rendered frame count is 8 k + 1 for the k, 1 or more, that is nearest to an eighth of the frames asked for. */
  lemma FramesOnGrid(durationS: real, fps: nat, j: int) returns (k: int)
    requires j >= 1
    ensures k >= 1 && LtxNumFrames(durationS, fps) == 8 * k + 1
    ensures var eighths := durationS * fps as real / 8.0; Distance(k as real, eighths) <= Distance(j as real, eighths)
  {
    var eighths := durationS * fps as real / 8.0;
    k := if Round(eighths) > 1 then Round(eighths) else 1;
    RoundIsNearest(eighths, j);
    if k > Round(eighths) { AboveNearest(eighths, Round(eighths) as real, j as real); }
  }

  lemma AboveNearest(x: real, r: real, y: real)
    requires r <= 0.0 && 1.0 <= y && Distance(r, x) <= 0.5
    ensures Distance(1.0, x) <= Distance(y, x)
  {
  }

  /** The frames of all shots as they are rendered. */
  function RenderedFrames(shots: seq<Shot>, fps: nat): int {
    if shots == [] then 0 else RenderedFrames(shots[..|shots| - 1], fps) + LtxNumFrames(shots[|shots| - 1].duration, fps)
  }

  /** How many shots are joined to the one before. */
  function JoinedShots(shots: seq<Shot>): nat {
    if shots == [] then 0 else JoinedShots(shots[..|shots| - 1]) + (if shots[|shots| - 1].join == Fresh then 0 else 1)
  }

  /** The stitched video has all rendered frames but the overlap of each joined shot: n latent frames are 8 n - 7 frames. */
  lemma {:induction false} FramesCounted(shots: seq<Shot>, c: Context)
    ensures StoryboardFrames(shots, c) == RenderedFrames(shots, c.fps) - (8 * c.overlapLatentFrames - 7) * JoinedShots(shots)
  {
    if shots != [] {
      var front := shots[..|shots| - 1];
      FramesCounted(front, c);
      OneMoreTrim(8 * c.overlapLatentFrames - 7, JoinedShots(front));
    }
  }

  lemma OneMoreTrim(trim: int, n: int)
    ensures trim * (n + 1) == trim * n + trim
  {
  }

  /** What the frames left after trimming last is within half a second of the target, and within the ceiling. */
  predicate OnTarget(shots: seq<Shot>, c: Context)
    requires c.Valid()
  {
    var frames := RenderedFrames(shots, c.fps) - (8 * c.overlapLatentFrames - 7) * JoinedShots(shots);
    var seconds := frames as real / c.fps as real;
    c.targetS - 0.500001 <= seconds <= c.targetS + 0.500001 && seconds <= c.maxTotalS + 0.000001
  }

  lemma OnTargetMeets(shots: seq<Shot>, c: Context)
    requires c.Valid()
    ensures OnTarget(shots, c) <==> Meets(c, Stitched(shots, c))
  {
    FramesCounted(shots, c);
  }

  // ------------------------------------------------------------ the grid

  predicate OnGrid(c: Context, d: real) {
    exists k :: 0 <= k <= c.maxSteps && d == c.At(k)
  }

  function SnapSteps(value: real, c: Context): int
    requires c.Valid()
  {
    ((value - c.minShotS) / c.stepS + 0.5).Floor
  }

  /** The nearest grid duration, half up, within the shortest and the longest shot. */
  function SnapDuration(value: real, c: Context): real
    requires c.Valid()
  {
    var snapped := c.At(SnapSteps(value, c));
    var raised := if snapped > c.minShotS then snapped else c.minShotS;
    if raised < c.MaxShotS() then raised else c.MaxShotS()
  }

  lemma ScaleMonotone(a: real, b: real, step: real)
    requires step > 0.0 && a <= b
    ensures a * step <= b * step
    ensures a < b ==> a * step < b * step
  {
    assert (b - a) * step >= 0.0;
    if a < b { assert (b - a) * step > 0.0; }
  }

  lemma AtMonotone(c: Context, j: int, k: int)
    requires c.Valid()
    ensures j <= k <==> c.At(j) <= c.At(k)
    ensures j < k <==> c.At(j) < c.At(k)
  {
    if j <= k { ScaleMonotone(j as real, k as real, c.stepS); }
    if k <= j { ScaleMonotone(k as real, j as real, c.stepS); }
  }

  lemma AtNext(c: Context, k: int)
    ensures c.At(k + 1) == c.At(k) + c.stepS
  {
    assert (k + 1) as real == k as real + 1.0;
    assert (k as real + 1.0) * c.stepS == k as real * c.stepS + c.stepS;
  }

  function Clamp(k: int, high: nat): int {
    if k < 0 then 0 else if k > high then high else k
  }

  lemma SnapIsClamped(value: real, c: Context)
    requires c.Valid()
    ensures SnapDuration(value, c) == c.At(Clamp(SnapSteps(value, c), c.maxSteps))
  {
    var k := SnapSteps(value, c);
    AtMonotone(c, 0, k);
    AtMonotone(c, k, 0);
    AtMonotone(c, k, c.maxSteps);
    AtMonotone(c, c.maxSteps, k);
    AtMonotone(c, 0, c.maxSteps);
    assert c.At(0) == c.minShotS;
  }

  function Distance(a: real, b: real): real {
    if a < b then b - a else a - b
  }

  /** The snapped duration is on the grid, and no grid duration is nearer. */
  lemma SnapIsNearest(value: real, c: Context, j: nat)
    requires c.Valid() && j <= c.maxSteps
    ensures OnGrid(c, SnapDuration(value, c))
    ensures Distance(SnapDuration(value, c), value) <= Distance(c.At(j), value)
  {
    SnapIsClamped(value, c);
    var s := SnapSteps(value, c);
    var k := Clamp(s, c.maxSteps);
    assert OnGrid(c, SnapDuration(value, c)) by { assert c.At(k) == SnapDuration(value, c); }
    var q := (value - c.minShotS) / c.stepS;
    assert value == c.minShotS + q * c.stepS;
    NearestStep(q, s, k, j, c.maxSteps);
    NearerOnGrid(value, c, q, k, j);
  }

  /** Of two grid durations that are equally near it is the longer one. */
  lemma SnapTies(value: real, c: Context, j: nat)
    requires c.Valid() && j <= c.maxSteps && c.At(j) > SnapDuration(value, c)
    ensures Distance(SnapDuration(value, c), value) < Distance(c.At(j), value)
  {
    SnapIsClamped(value, c);
    var (q, s) := ((value - c.minShotS) / c.stepS, SnapSteps(value, c));
    var k := Clamp(s, c.maxSteps);
    assert value == c.minShotS + q * c.stepS by { DividedBack(value - c.minShotS, c.stepS, q); }
    assert k < j by { AtMonotone(c, j, k); }
    LongerIsFarther(q, s, k, j, c.maxSteps);
    FartherFrom(c.minShotS, c.stepS, q, k as real, j as real, c.At(k), c.At(j), value);
  }

  lemma DividedBack(x: real, d: real, q: real)
    requires d > 0.0 && q == x / d
    ensures q * d == x
  {
  }

  lemma FartherScaled(k: real, j: real, q: real, step: real)
    requires step > 0.0 && Distance(k, q) < Distance(j, q)
    ensures Distance(k * step, q * step) < Distance(j * step, q * step)
  {
    ScaleDistance(q, k, step);
    ScaleDistance(q, j, step);
    ScaleMonotone(Distance(k, q), Distance(j, q), step);
  }

  lemma FartherShifted(base: real, a: real, b: real, x: real)
    requires Distance(a, x) < Distance(b, x)
    ensures Distance(base + a, base + x) < Distance(base + b, base + x)
  {
  }

  lemma FartherFrom(base: real, step: real, q: real, k: real, j: real, atK: real, atJ: real, value: real)
    requires step > 0.0 && Distance(k, q) < Distance(j, q)
    requires atK == base + k * step && atJ == base + j * step && value == base + q * step
    ensures Distance(atK, value) < Distance(atJ, value)
  {
    FartherScaled(k, j, q, step);
    FartherShifted(base, k * step, j * step, q * step);
  }

  lemma LongerIsFarther(q: real, s: int, k: int, j: int, high: nat)
    requires s as real <= q + 0.5 < s as real + 1.0 && k == Clamp(s, high) && k < j <= high
    ensures Distance(k as real, q) < Distance(j as real, q)
  {
    assert j as real >= k as real + 1.0;
  }

  lemma NearerScaled(k: real, j: real, q: real, step: real)
    requires step > 0.0 && Distance(k, q) <= Distance(j, q)
    ensures Distance(k * step, q * step) <= Distance(j * step, q * step)
  {
    ScaleDistance(q, k, step);
    ScaleDistance(q, j, step);
    ScaleMonotone(Distance(k, q), Distance(j, q), step);
  }

  lemma NearerOnGrid(value: real, c: Context, q: real, k: int, j: int)
    requires c.Valid() && value == c.minShotS + q * c.stepS
    requires Distance(k as real, q) <= Distance(j as real, q)
    ensures Distance(c.At(k), value) <= Distance(c.At(j), value)
  {
    NearerScaled(k as real, j as real, q, c.stepS);
    Shift(c.minShotS, k as real * c.stepS, q * c.stepS);
    Shift(c.minShotS, j as real * c.stepS, q * c.stepS);
  }

  lemma Shift(base: real, a: real, b: real)
    ensures Distance(base + a, base + b) == Distance(a, b)
  {
  }

  lemma NearestStep(q: real, s: int, k: int, j: int, high: nat)
    requires s as real <= q + 0.5 < s as real + 1.0 && k == Clamp(s, high) && 0 <= j <= high
    ensures Distance(k as real, q) <= Distance(j as real, q)
  {
    var (sr, jr, hr) := (s as real, j as real, high as real);
    if s < 0 {
      assert sr <= -1.0 && jr >= 0.0;
    } else if s > high {
      assert sr >= hr + 1.0 && jr <= hr;
    } else if j < s {
      assert jr <= sr - 1.0;
    } else if j > s {
      assert jr >= sr + 1.0;
    }
  }

  lemma ScaleDistance(q: real, k: real, step: real)
    requires step > 0.0
    ensures Distance(k * step, q * step) == Distance(k, q) * step
  {
    if k < q {
      ScaleMonotone(k, q, step);
      assert (q - k) * step == q * step - k * step;
    } else {
      ScaleMonotone(q, k, step);
      assert (k - q) * step == k * step - q * step;
    }
  }

  const FLOOR_EPSILON := 0.000000001

  function FloorSteps(value: real, c: Context): int
    requires c.Valid()
  {
    ((value - c.minShotS) / c.stepS + FLOOR_EPSILON).Floor
  }

  /** The longest shot a cap allows: the last grid duration not above it, up to a billionth of a step. */
  lemma GridFloorIsLast(value: real, c: Context, k: int)
    requires c.Valid()
    ensures c.At(FloorSteps(value, c)) <= value + 0.000000001 * c.stepS
    ensures c.At(k) <= value ==> c.At(k) <= c.At(FloorSteps(value, c))
    ensures value >= c.minShotS ==> FloorSteps(value, c) >= 0
  {
    var (q, s) := ((value - c.minShotS) / c.stepS, FloorSteps(value, c));
    assert value == c.minShotS + q * c.stepS;
    ScaleMonotone(s as real, q + FLOOR_EPSILON, c.stepS);
    assert (q + FLOOR_EPSILON) * c.stepS == q * c.stepS + FLOOR_EPSILON * c.stepS;
    if k > s {
      ScaleMonotone(q, k as real, c.stepS);
    } else {
      AtMonotone(c, k, s);
    }
    if value >= c.minShotS && q < 0.0 { ScaleMonotone(q, 0.0, c.stepS); }
  }

  // ------------------------------------------------------------ assignments of durations

  function Timed(shots: seq<Shot>, ds: seq<real>): seq<Shot>
    requires |ds| == |shots|
  {
    seq(|shots|, i requires 0 <= i < |shots| => shots[i].(duration := ds[i]))
  }

  /** The stitched length of the shots with other durations. */
  function StitchedWith(shots: seq<Shot>, ds: seq<real>, c: Context): real
    requires c.Valid() && |ds| == |shots|
  {
    Stitched(Timed(shots, ds), c)
  }

  /** An assignment the fit may choose: movable shots on the grid within the limits, the others as they are. */
  ghost predicate Candidate(shots: seq<Shot>, ds: seq<real>, moving: set<int>, c: Context) {
    && |ds| == |shots|
    && forall i :: 0 <= i < |shots| ==> if i in moving then OnGrid(c, ds[i]) else ds[i] == shots[i].duration
  }

  predicate Meets(c: Context, total: real) {
    !c.Short(total) && !c.Long(total)
  }

  /** The grid step of each movable shot, 0 for the others. */
  ghost predicate Tracks(ds: seq<real>, ks: seq<int>, moving: set<int>, c: Context) {
    && |ks| == |ds|
    && forall i :: 0 <= i < |ds| ==>
         if i in moving then 0 <= ks[i] <= c.maxSteps && ds[i] == c.At(ks[i]) else ks[i] == 0
  }

  ghost function TrackOf(shots: seq<Shot>, ds: seq<real>, moving: set<int>, c: Context): (ks: seq<int>)
    requires Candidate(shots, ds, moving, c)
    ensures Tracks(ds, ks, moving, c)
  {
    seq(|ds|, i requires 0 <= i < |ds| =>
      if i in moving then assert OnGrid(c, ds[i]); var k :| 0 <= k <= c.maxSteps && ds[i] == c.At(k); k else 0)
  }

  function Total(ks: seq<int>): int {
    if ks == [] then 0 else Total(ks[..|ks| - 1]) + ks[|ks| - 1]
  }

  lemma {:induction false} TotalUpdate(ks: seq<int>, i: nat, k: int)
    requires i < |ks|
    ensures Total(ks[i := k]) == Total(ks) + k - ks[i]
  {
    var front := ks[..|ks| - 1];
    if i < |ks| - 1 {
      TotalUpdate(front, i, k);
      assert ks[i := k][..|ks| - 1] == front[i := k];
    } else {
      assert ks[i := k][..|ks| - 1] == front;
    }
  }

  lemma {:induction false} TotalMonotone(ks: seq<int>, ks': seq<int>)
    requires |ks| == |ks'| && forall i :: 0 <= i < |ks| ==> ks[i] <= ks'[i]
    ensures Total(ks) <= Total(ks')
  {
    if ks != [] { TotalMonotone(ks[..|ks| - 1], ks'[..|ks| - 1]); }
  }

  function Full(n: nat, moving: set<int>, c: Context): (ks: seq<int>)
    ensures |ks| == n && forall i :: 0 <= i < n ==> ks[i] == if i in moving then c.maxSteps else 0
  {
    seq(n, i => if i in moving then c.maxSteps else 0)
  }

  lemma TotalBounds(ds: seq<real>, ks: seq<int>, moving: set<int>, c: Context)
    requires Tracks(ds, ks, moving, c)
    ensures 0 <= Total(ks) <= Total(Full(|ds|, moving, c))
  {
    TotalMonotone(ks, Full(|ds|, moving, c));
    var zeros := seq(|ds|, i => 0);
    TotalOfZeros(|ds|);
    TotalMonotone(zeros, ks);
  }

  lemma {:induction false} TotalOfZeros(n: nat)
    ensures Total(seq(n, i => 0)) == 0
  {
    if n > 0 {
      TotalOfZeros(n - 1);
      assert seq(n, i => 0)[..n - 1] == seq(n - 1, i => 0);
    }
  }

  // ------------------------------------------------------------ the greedy loops

  predicate Growable(c: Context, d: real) {
    d + c.stepS <= c.MaxShotS() + EPSILON
  }

  predicate Shrinkable(c: Context, d: real) {
    d - c.stepS >= c.minShotS - EPSILON
  }

  /** On the grid the tolerances decide nothing: a shot can grow exactly below the longest and shrink exactly above the
      shortest. */
  lemma GrowableOnGrid(c: Context, k: int)
    requires c.Valid()
    ensures Growable(c, c.At(k)) <==> k < c.maxSteps
    ensures Shrinkable(c, c.At(k)) <==> k > 0
  {
    AtNext(c, k);
    AtNext(c, k - 1);
    AtMonotone(c, k + 1, c.maxSteps);
    AtMonotone(c, 0, k - 1);
    assert c.At(0) == c.minShotS;
    if k >= c.maxSteps { AtMonotone(c, c.maxSteps, k); }
    if k <= 0 { AtMonotone(c, k, 0); }
  }

  /** The shortest movable shot that can grow, the first on ties. */
  method ShortestGrowable(ds: seq<real>, moving: set<int>, c: Context) returns (best: Option<nat>)
    ensures best.None? ==> forall i :: 0 <= i < |ds| && i in moving ==> !Growable(c, ds[i])
    ensures best.Some? ==> best.value < |ds| && best.value in moving && Growable(c, ds[best.value])
    ensures best.Some? ==> forall i :: 0 <= i < |ds| && i in moving && Growable(c, ds[i]) ==>
              ds[best.value] < ds[i] || (ds[best.value] == ds[i] && best.value <= i)
  {
    best := None;
    for i := 0 to |ds|
      invariant best.None? ==> forall j :: 0 <= j < i && j in moving ==> !Growable(c, ds[j])
      invariant best.Some? ==> best.value < i && best.value in moving && Growable(c, ds[best.value])
      invariant best.Some? ==> forall j :: 0 <= j < i && j in moving && Growable(c, ds[j]) ==>
                  ds[best.value] < ds[j] || (ds[best.value] == ds[j] && best.value <= j)
    {
      if i in moving && Growable(c, ds[i]) && (best.None? || ds[i] < ds[best.value]) {
        best := Some(i);
      }
    }
  }

  /** The longest movable shot that can shrink, the first on ties. */
  method LongestShrinkable(ds: seq<real>, moving: set<int>, c: Context) returns (best: Option<nat>)
    ensures best.None? ==> forall i :: 0 <= i < |ds| && i in moving ==> !Shrinkable(c, ds[i])
    ensures best.Some? ==> best.value < |ds| && best.value in moving && Shrinkable(c, ds[best.value])
    ensures best.Some? ==> forall i :: 0 <= i < |ds| && i in moving && Shrinkable(c, ds[i]) ==>
              ds[i] < ds[best.value] || (ds[best.value] == ds[i] && best.value <= i)
  {
    best := None;
    for i := 0 to |ds|
      invariant best.None? ==> forall j :: 0 <= j < i && j in moving ==> !Shrinkable(c, ds[j])
      invariant best.Some? ==> best.value < i && best.value in moving && Shrinkable(c, ds[best.value])
      invariant best.Some? ==> forall j :: 0 <= j < i && j in moving && Shrinkable(c, ds[j]) ==>
                  ds[j] < ds[best.value] || (ds[best.value] == ds[j] && best.value <= j)
    {
      if i in moving && Shrinkable(c, ds[i]) && (best.None? || ds[i] > ds[best.value]) {
        best := Some(i);
      }
    }
  }

  /** No shot was lengthened past another movable one: one step earlier each was the shortest, the first on ties. */
  predicate LevelledUp(start: seq<real>, ds: seq<real>, moving: set<int>, c: Context)
    requires |start| == |ds|
  {
    forall i, j :: 0 <= i < |ds| && 0 <= j < |ds| && i in moving && j in moving && ds[i] > start[i] ==>
      ds[i] - c.stepS < ds[j] || (ds[i] - c.stepS == ds[j] && i <= j)
  }

  predicate LevelledDown(start: seq<real>, ds: seq<real>, moving: set<int>, c: Context)
    requires |start| == |ds|
  {
    forall i, j :: 0 <= i < |ds| && 0 <= j < |ds| && i in moving && j in moving && ds[i] < start[i] ==>
      ds[j] < ds[i] + c.stepS || (ds[i] + c.stepS == ds[j] && i <= j)
  }

  /** The others keep their durations. */
  predicate OthersKept(shots: seq<Shot>, ds: seq<real>, moving: set<int>)
    requires |ds| == |shots|
  {
    forall i :: 0 <= i < |ds| && i !in moving ==> ds[i] == shots[i].duration
  }

  predicate NoShorter(start: seq<real>, ds: seq<real>)
    requires |start| == |ds|
  {
    forall i :: 0 <= i < |ds| ==> start[i] <= ds[i]
  }

  /** The last step up, if there was one, was taken while the plan was short. */
  ghost predicate LastStepUp(shots: seq<Shot>, start: seq<real>, ds: seq<real>, moving: set<int>, c: Context)
    requires c.Valid() && |ds| == |shots|
  {
    ds == start || exists i :: 0 <= i < |ds| && i in moving && StepUpFrom(shots, ds, c, i)
  }

  predicate StepUpFrom(shots: seq<Shot>, ds: seq<real>, c: Context, i: nat)
    requires c.Valid() && |ds| == |shots| && i < |ds|
  {
    ds[i] - c.stepS >= c.minShotS && c.Short(StitchedWith(shots, ds[i := ds[i] - c.stepS], c))
  }

  /** The last step down, if there was one, was taken while the plan was long, and left it short only if it was over the
      ceiling. */
  ghost predicate LastStepDown(shots: seq<Shot>, start: seq<real>, ds: seq<real>, moving: set<int>, c: Context)
    requires c.Valid() && |ds| == |shots|
  {
    ds == start || exists i :: 0 <= i < |ds| && i in moving && StepDownFrom(shots, ds, c, i)
  }

  predicate StepDownFrom(shots: seq<Shot>, ds: seq<real>, c: Context, i: nat)
    requires c.Valid() && |ds| == |shots| && i < |ds|
  {
    var before := StitchedWith(shots, ds[i := ds[i] + c.stepS], c);
    && ds[i] + c.stepS <= c.MaxShotS() && c.Long(before)
    && (!c.Short(StitchedWith(shots, ds, c)) || before > c.maxTotalS + EPSILON)
  }

  ghost predicate Lengthening(shots: seq<Shot>, start: seq<real>, ds: seq<real>, ks: seq<int>, moving: set<int>, c: Context)
    requires c.Valid()
  {
    && |start| == |ds| == |shots| && Tracks(ds, ks, moving, c) && OthersKept(shots, ds, moving)
    && NoShorter(start, ds) && LevelledUp(start, ds, moving, c) && LastStepUp(shots, start, ds, moving, c)
  }

  ghost predicate Shortening(shots: seq<Shot>, start: seq<real>, ds: seq<real>, ks: seq<int>, moving: set<int>, c: Context)
    requires c.Valid()
  {
    && |start| == |ds| == |shots| && Tracks(ds, ks, moving, c) && OthersKept(shots, ds, moving)
    && NoShorter(ds, start) && LevelledDown(start, ds, moving, c) && LastStepDown(shots, start, ds, moving, c)
  }

  predicate NoneGrowable(ds: seq<real>, moving: set<int>, c: Context) {
    forall i :: 0 <= i < |ds| && i in moving ==> !Growable(c, ds[i])
  }

  predicate NoneShrinkable(ds: seq<real>, moving: set<int>, c: Context) {
    forall i :: 0 <= i < |ds| && i in moving ==> !Shrinkable(c, ds[i])
  }

  /** One step off some movable shot would leave the plan short, and it is within the ceiling. */
  ghost predicate StepTooFar(shots: seq<Shot>, ds: seq<real>, moving: set<int>, c: Context)
    requires c.Valid() && |ds| == |shots|
  {
    && StitchedWith(shots, ds, c) <= c.maxTotalS + EPSILON
    && exists i :: 0 <= i < |ds| && i in moving && StepUpFrom(shots, ds, c, i)
  }

  /** Where lengthening stops: the plan is no longer short, or no movable shot can grow. */
  ghost predicate LengthenedBy(shots: seq<Shot>, start: seq<real>, ds: seq<real>, ks: seq<int>, moving: set<int>, c: Context)
    requires c.Valid()
  {
    && Lengthening(shots, start, ds, ks, moving, c)
    && (!c.Short(StitchedWith(shots, ds, c)) || NoneGrowable(ds, moving, c))
  }

  /** Where shortening stops: the plan is not long, no movable shot can shrink, or one more step would go too far. */
  ghost predicate ShortenedBy(shots: seq<Shot>, start: seq<real>, ds: seq<real>, ks: seq<int>, moving: set<int>, c: Context)
    requires c.Valid()
  {
    && Shortening(shots, start, ds, ks, moving, c)
    && (!c.Long(StitchedWith(shots, ds, c)) || NoneShrinkable(ds, moving, c) || StepTooFar(shots, ds, moving, c))
  }

  ghost predicate Lengthened(shots: seq<Shot>, start: seq<real>, ds: seq<real>, moving: set<int>, c: Context)
    requires c.Valid()
  {
    exists ks :: LengthenedBy(shots, start, ds, ks, moving, c)
  }

  ghost predicate Shortened(shots: seq<Shot>, start: seq<real>, ds: seq<real>, moving: set<int>, c: Context)
    requires c.Valid()
  {
    exists ks :: ShortenedBy(shots, start, ds, ks, moving, c)
  }

  method Lengthen(shots: seq<Shot>, start: seq<real>, ghost startKs: seq<int>, moving: set<int>, c: Context)
    returns (ds: seq<real>)
    requires c.Valid() && |start| == |shots| && Tracks(start, startKs, moving, c) && OthersKept(shots, start, moving)
    ensures Lengthened(shots, start, ds, moving, c)
  {
    ds := start;
    ghost var ks := startKs;
    var current := StitchedWith(shots, ds, c);
    while c.Short(current)
      invariant Lengthening(shots, start, ds, ks, moving, c)
      invariant current == StitchedWith(shots, ds, c)
      decreases Total(Full(|shots|, moving, c)) - Total(ks)
    {
      var best := ShortestGrowable(ds, moving, c);
      if best.None? {
        break;
      }
      var i := best.value;
      LengthenStep(shots, start, ds, ks, moving, c, i);
      ds, ks := ds[i := ds[i] + c.stepS], ks[i := ks[i] + 1];
      current := StitchedWith(shots, ds, c);
    }
    assert LengthenedBy(shots, start, ds, ks, moving, c);
  }

  method Shorten(shots: seq<Shot>, start: seq<real>, ghost startKs: seq<int>, moving: set<int>, c: Context)
    returns (ds: seq<real>)
    requires c.Valid() && |start| == |shots| && Tracks(start, startKs, moving, c) && OthersKept(shots, start, moving)
    ensures Shortened(shots, start, ds, moving, c)
  {
    ds := start;
    ghost var ks := startKs;
    var current := StitchedWith(shots, ds, c);
    while c.Long(current)
      invariant Shortening(shots, start, ds, ks, moving, c)
      invariant current == StitchedWith(shots, ds, c)
      decreases Total(ks)
    {
      var best := LongestShrinkable(ds, moving, c);
      if best.None? {
        break;
      }
      var i := best.value;
      var trial := ds[i := ds[i] - c.stepS];
      var after := StitchedWith(shots, trial, c);
      if c.Short(after) && current <= c.maxTotalS + EPSILON {
        assert StepUpFrom(shots, ds, c, i) by { ShrinkableStays(c, ds, ks, moving, i); }
        break;
      }
      ShortenStep(shots, start, ds, ks, moving, c, i);
      ds, ks := trial, ks[i := ks[i] - 1];
      current := after;
    }
    assert ShortenedBy(shots, start, ds, ks, moving, c);
  }

  lemma LengthenStep(shots: seq<Shot>, start: seq<real>, ds: seq<real>, ks: seq<int>, moving: set<int>, c: Context, i: nat)
    requires c.Valid() && Lengthening(shots, start, ds, ks, moving, c) && c.Short(StitchedWith(shots, ds, c))
    requires i < |ds| && i in moving && Growable(c, ds[i])
    requires forall j :: 0 <= j < |ds| && j in moving && Growable(c, ds[j]) ==> ds[i] < ds[j] || (ds[i] == ds[j] && i <= j)
    ensures Lengthening(shots, start, ds[i := ds[i] + c.stepS], ks[i := ks[i] + 1], moving, c)
    ensures Total(ks) < Total(ks[i := ks[i] + 1]) <= Total(Full(|shots|, moving, c))
  {
    var after := ds[i := ds[i] + c.stepS];
    GrowStep(start, ds, ks, moving, c, i);
    assert LastStepUp(shots, start, after, moving, c) by {
      assert after[i := after[i] - c.stepS] == ds;
      AtMonotone(c, 0, ks[i]);
      assert c.At(0) == c.minShotS;
      assert StepUpFrom(shots, after, c, i);
    }
  }

  lemma GrowStep(start: seq<real>, ds: seq<real>, ks: seq<int>, moving: set<int>, c: Context, i: nat)
    requires c.Valid() && |start| == |ds| && Tracks(ds, ks, moving, c) && i < |ds| && i in moving && Growable(c, ds[i])
    requires forall j :: 0 <= j < |ds| && j in moving && Growable(c, ds[j]) ==> ds[i] < ds[j] || (ds[i] == ds[j] && i <= j)
    requires NoShorter(start, ds) && LevelledUp(start, ds, moving, c)
    ensures Tracks(ds[i := ds[i] + c.stepS], ks[i := ks[i] + 1], moving, c)
    ensures NoShorter(start, ds[i := ds[i] + c.stepS]) && LevelledUp(start, ds[i := ds[i] + c.stepS], moving, c)
    ensures Total(ks) < Total(ks[i := ks[i] + 1]) <= Total(Full(|ds|, moving, c))
  {
    GrowableOnGrid(c, ks[i]);
    AtNext(c, ks[i]);
    TotalUpdate(ks, i, ks[i] + 1);
    TotalBounds(ds[i := ds[i] + c.stepS], ks[i := ks[i] + 1], moving, c);
    forall j | 0 <= j < |ds| && j in moving ensures ds[i] < ds[j] || (ds[i] == ds[j] && i <= j) {
      GrowableOnGrid(c, ks[j]);
      AtMonotone(c, ks[i], ks[j]);
    }
  }

  lemma ShortenStep(shots: seq<Shot>, start: seq<real>, ds: seq<real>, ks: seq<int>, moving: set<int>, c: Context, i: nat)
    requires c.Valid() && Shortening(shots, start, ds, ks, moving, c) && c.Long(StitchedWith(shots, ds, c))
    requires i < |ds| && i in moving && Shrinkable(c, ds[i])
    requires forall j :: 0 <= j < |ds| && j in moving && Shrinkable(c, ds[j]) ==> ds[j] < ds[i] || (ds[i] == ds[j] && i <= j)
    requires !c.Short(StitchedWith(shots, ds[i := ds[i] - c.stepS], c)) || StitchedWith(shots, ds, c) > c.maxTotalS + EPSILON
    ensures Shortening(shots, start, ds[i := ds[i] - c.stepS], ks[i := ks[i] - 1], moving, c)
    ensures 0 <= Total(ks[i := ks[i] - 1]) < Total(ks)
  {
    var after := ds[i := ds[i] - c.stepS];
    ShrinkStep(start, ds, ks, moving, c, i);
    assert LastStepDown(shots, start, after, moving, c) by {
      assert after[i := after[i] + c.stepS] == ds;
      AtMonotone(c, ks[i], c.maxSteps);
      assert StepDownFrom(shots, after, c, i);
    }
  }

  lemma ShrinkStep(start: seq<real>, ds: seq<real>, ks: seq<int>, moving: set<int>, c: Context, i: nat)
    requires c.Valid() && |start| == |ds| && Tracks(ds, ks, moving, c) && i < |ds| && i in moving && Shrinkable(c, ds[i])
    requires forall j :: 0 <= j < |ds| && j in moving && Shrinkable(c, ds[j]) ==> ds[j] < ds[i] || (ds[i] == ds[j] && i <= j)
    requires NoShorter(ds, start) && LevelledDown(start, ds, moving, c)
    ensures Tracks(ds[i := ds[i] - c.stepS], ks[i := ks[i] - 1], moving, c)
    ensures NoShorter(ds[i := ds[i] - c.stepS], start) && LevelledDown(start, ds[i := ds[i] - c.stepS], moving, c)
    ensures 0 <= Total(ks[i := ks[i] - 1]) < Total(ks)
  {
    GrowableOnGrid(c, ks[i]);
    AtNext(c, ks[i] - 1);
    TotalUpdate(ks, i, ks[i] - 1);
    TotalBounds(ds[i := ds[i] - c.stepS], ks[i := ks[i] - 1], moving, c);
    forall j | 0 <= j < |ds| && j in moving ensures ds[j] < ds[i] || (ds[i] == ds[j] && i <= j) {
      GrowableOnGrid(c, ks[j]);
      AtMonotone(c, ks[j], ks[i]);
    }
  }

  lemma ShrinkableStays(c: Context, ds: seq<real>, ks: seq<int>, moving: set<int>, i: nat)
    requires c.Valid() && Tracks(ds, ks, moving, c) && i < |ds| && i in moving && Shrinkable(c, ds[i])
    ensures ds[i] - c.stepS >= c.minShotS
  {
    GrowableOnGrid(c, ks[i]);
    AtNext(c, ks[i] - 1);
    AtMonotone(c, 0, ks[i] - 1);
    assert c.At(0) == c.minShotS;
  }

  // ------------------------------------------------------------ the fit

  function Snapped(shots: seq<Shot>, moving: set<int>, c: Context): (ds: seq<real>)
    requires c.Valid()
    ensures |ds| == |shots|
  {
    seq(|shots|, i requires 0 <= i < |shots| =>
      if i in moving then SnapDuration(shots[i].duration, c) else shots[i].duration)
  }

  ghost function SnappedSteps(shots: seq<Shot>, moving: set<int>, c: Context): (ks: seq<int>)
    requires c.Valid()
    ensures |ks| == |shots|
  {
    seq(|shots|, i requires 0 <= i < |shots| =>
      if i in moving then Clamp(SnapSteps(shots[i].duration, c), c.maxSteps) else 0)
  }

  lemma SnappedTracks(shots: seq<Shot>, moving: set<int>, c: Context)
    requires c.Valid()
    ensures Tracks(Snapped(shots, moving, c), SnappedSteps(shots, moving, c), moving, c)
    ensures OthersKept(shots, Snapped(shots, moving, c), moving)
  {
    forall i | 0 <= i < |shots| && i in moving
      ensures Snapped(shots, moving, c)[i] == c.At(SnappedSteps(shots, moving, c)[i])
    {
      SnapIsClamped(shots[i].duration, c);
    }
  }

  /** One assignment leads to another by the greedy loops: lengthened while short, then shortened while long. */
  ghost predicate FittedFrom(shots: seq<Shot>, start: seq<real>, ds: seq<real>, moving: set<int>, c: Context)
    requires c.Valid()
  {
    exists mid :: Lengthened(shots, start, mid, moving, c) && Shortened(shots, mid, ds, moving, c)
  }

  /** Frame counts at 24 fps on whole seconds. */
  predicate WholeSeconds(c: Context) {
    c.fps == 24 && c.stepS == 1.0 && c.minShotS >= 1.0 && c.minShotS == c.minShotS.Floor as real
  }

  ghost predicate Reachable(shots: seq<Shot>, moving: set<int>, c: Context)
    requires c.Valid()
  {
    exists a :: Candidate(shots, a, moving, c) && Meets(c, StitchedWith(shots, a, c))
  }

  /** Some assignment of the movable shots brings the plan to its target. */
  ghost predicate Attainable(shots: seq<Shot>, moving: set<int>, c: Context)
    requires c.Valid()
  {
    exists a :: Candidate(shots, a, moving, c) && OnTarget(Timed(shots, a), c)
  }

  /** The fit: every movable shot ends on the grid between the shortest and the longest, the others and all joins are as
      they were, and at 24 fps on whole seconds a target that some assignment reaches within the ceiling is reached. */
  method Fit(shots: seq<Shot>, c: Context, moving: set<int>) returns (fitted: seq<Shot>)
    requires c.Valid()
    ensures exists ds :: Candidate(shots, ds, moving, c) && fitted == Timed(shots, ds)
                         && FittedFrom(shots, Snapped(shots, moving, c), ds, moving, c)
    ensures WholeSeconds(c) && Attainable(shots, moving, c) ==> OnTarget(fitted, c)
  {
    SnappedTracks(shots, moving, c);
    ghost var start := Snapped(shots, moving, c);
    var mid := Lengthen(shots, Snapped(shots, moving, c), SnappedSteps(shots, moving, c), moving, c);
    ghost var midKs :| LengthenedBy(shots, start, mid, midKs, moving, c);
    var ds := Shorten(shots, mid, midKs, moving, c);
    ghost var ks :| ShortenedBy(shots, mid, ds, ks, moving, c);
    fitted := Timed(shots, ds);
    TracksCandidate(shots, ds, ks, moving, c);
    assert FittedFrom(shots, start, ds, moving, c);
    FitOnTarget(shots, start, mid, midKs, ds, ks, moving, c);
  }

  lemma FitOnTarget(
    shots: seq<Shot>, start: seq<real>, mid: seq<real>, midKs: seq<int>, ds: seq<real>, ks: seq<int>, moving: set<int>, c: Context
  )
    requires c.Valid() && LengthenedBy(shots, start, mid, midKs, moving, c) && ShortenedBy(shots, mid, ds, ks, moving, c)
    ensures WholeSeconds(c) && Attainable(shots, moving, c) ==> OnTarget(Timed(shots, ds), c)
  {
    FitReaches(shots, start, mid, midKs, ds, ks, moving, c);
    if WholeSeconds(c) { TargetReached(shots, ds, moving, c); }
  }

  lemma TargetReached(shots: seq<Shot>, ds: seq<real>, moving: set<int>, c: Context)
    requires c.Valid() && |ds| == |shots| && (Reachable(shots, moving, c) ==> Meets(c, StitchedWith(shots, ds, c)))
    ensures Attainable(shots, moving, c) ==> OnTarget(Timed(shots, ds), c)
  {
    if Attainable(shots, moving, c) {
      var a :| Candidate(shots, a, moving, c) && OnTarget(Timed(shots, a), c);
      OnTargetMeets(Timed(shots, a), c);
      assert Reachable(shots, moving, c);
      OnTargetMeets(Timed(shots, ds), c);
    }
  }

  lemma TracksCandidate(shots: seq<Shot>, ds: seq<real>, ks: seq<int>, moving: set<int>, c: Context)
    requires |ds| == |shots| && Tracks(ds, ks, moving, c) && OthersKept(shots, ds, moving)
    ensures Candidate(shots, ds, moving, c)
  {
    forall i | 0 <= i < |ds| && i in moving ensures OnGrid(c, ds[i]) {
      assert ds[i] == c.At(ks[i]);
    }
  }

  // ------------------------------------------------------------ completeness at 24 fps

  lemma WholeSecondFrames(c: Context, k: nat)
    requires WholeSeconds(c)
    ensures LtxNumFrames(c.At(k), c.fps) == LtxNumFrames(c.minShotS, c.fps) + 24 * k
  {
    var m := c.minShotS.Floor;
    WholeFrames(m);
    WholeFrames(m + k);
    assert c.At(k) == (m + k) as real;
  }

  lemma WholeEighths(d: int)
    ensures d as real * 24 as real / 8.0 == (3 * d) as real
  {
  }

  lemma WholeFrames(d: int)
    requires d >= 1
    ensures LtxNumFrames(d as real, 24) == 24 * d + 1
  {
    WholeEighths(d);
    assert Round((3 * d) as real) == 3 * d;
  }

  function AtShortest(shots: seq<Shot>, moving: set<int>, c: Context): (ds: seq<real>)
    ensures |ds| == |shots|
  {
    seq(|shots|, i requires 0 <= i < |shots| => if i in moving then c.minShotS else shots[i].duration)
  }

  /** The frame count with every movable shot at its shortest. */
  function FixedFrames(shots: seq<Shot>, moving: set<int>, c: Context): int {
    StoryboardFrames(Timed(shots, AtShortest(shots, moving, c)), c)
  }

  lemma FramesOfLast(shots: seq<Shot>, ds: seq<real>, c: Context)
    requires shots != [] && |ds| == |shots|
    ensures var n := |shots| - 1;
            StoryboardFrames(Timed(shots, ds), c)
            == StoryboardFrames(Timed(shots[..n], ds[..n]), c) + ShotFrames(shots[n].(duration := ds[n]), c)
  {
    var n := |shots| - 1;
    assert Timed(shots, ds)[..n] == Timed(shots[..n], ds[..n]);
  }

  lemma FixedFramesOfLast(shots: seq<Shot>, moving: set<int>, c: Context)
    requires shots != []
    ensures var n := |shots| - 1;
            FixedFrames(shots, moving, c)
            == FixedFrames(shots[..n], moving, c)
               + ShotFrames(shots[n].(duration := if n in moving then c.minShotS else shots[n].duration), c)
  {
    var n := |shots| - 1;
    FramesOfLast(shots, AtShortest(shots, moving, c), c);
    assert AtShortest(shots, moving, c)[..n] == AtShortest(shots[..n], moving, c);
  }

  /** One shot's frames: 24 for each of its grid steps on top of the shortest. */
  lemma StepsOfLast(shot: Shot, moves: bool, d: real, k: int, c: Context)
    requires WholeSeconds(c) && if moves then k >= 0 && d == c.At(k) else k == 0 && d == shot.duration
    ensures ShotFrames(shot.(duration := d), c)
            == ShotFrames(shot.(duration := if moves then c.minShotS else shot.duration), c) + 24 * k
  {
    if moves { WholeSecondFrames(c, k); }
  }

  /** Every grid step adds 24 frames, whichever shot takes it. */
  lemma {:induction false} FramesPerStep(shots: seq<Shot>, ds: seq<real>, ks: seq<int>, moving: set<int>, c: Context)
    requires WholeSeconds(c) && |ds| == |shots| && Tracks(ds, ks, moving, c) && OthersKept(shots, ds, moving)
    ensures StoryboardFrames(Timed(shots, ds), c) == FixedFrames(shots, moving, c) + 24 * Total(ks)
  {
    if shots != [] {
      var n := |shots| - 1;
      FramesPerStep(shots[..n], ds[..n], ks[..n], moving, c);
      FramesOfLast(shots, ds, c);
      FixedFramesOfLast(shots, moving, c);
      StepsOfLast(shots[n], n in moving, ds[n], ks[n], c);
    }
  }

  lemma StitchedPerStep(shots: seq<Shot>, ds: seq<real>, ks: seq<int>, moving: set<int>, c: Context)
    requires WholeSeconds(c) && c.Valid() && |ds| == |shots| && Tracks(ds, ks, moving, c) && OthersKept(shots, ds, moving)
    ensures StitchedWith(shots, ds, c) == FixedFrames(shots, moving, c) as real / 24.0 + Total(ks) as real
  {
    FramesPerStep(shots, ds, ks, moving, c);
    WholeSecondsOver(FixedFrames(shots, moving, c), Total(ks));
  }

  lemma WholeSecondsOver(frames: int, seconds: int)
    ensures (frames + 24 * seconds) as real / 24.0 == frames as real / 24.0 + seconds as real
  {
    assert (frames + 24 * seconds) as real == frames as real + 24.0 * seconds as real;
  }

  lemma StepTracks(ds: seq<real>, ks: seq<int>, moving: set<int>, c: Context, i: nat, step: int)
    requires WholeSeconds(c) && c.Valid() && Tracks(ds, ks, moving, c) && i < |ds| && i in moving && (step == 1 || step == -1)
    requires c.minShotS <= ds[i] + step as real <= c.MaxShotS()
    ensures Tracks(ds[i := ds[i] + step as real], ks[i := ks[i] + step], moving, c)
  {
    var k := ks[i] + step;
    AtNext(c, ks[i]);
    AtNext(c, ks[i] - 1);
    assert c.At(k) == ds[i] + step as real;
    assert c.At(0) == c.minShotS;
    AtMonotone(c, 0, k);
    AtMonotone(c, k, c.maxSteps);
  }

  /** The length one step below or above a tracked assignment. */
  lemma StitchedNeighbour(shots: seq<Shot>, ds: seq<real>, ks: seq<int>, moving: set<int>, c: Context, i: nat, step: int)
    requires WholeSeconds(c) && c.Valid() && |ds| == |shots| && Tracks(ds, ks, moving, c) && OthersKept(shots, ds, moving)
    requires i < |ds| && i in moving && (step == 1 || step == -1)
    requires c.minShotS <= ds[i] + step as real <= c.MaxShotS()
    ensures StitchedWith(shots, ds[i := ds[i] + step as real], c)
            == FixedFrames(shots, moving, c) as real / 24.0 + (Total(ks) + step) as real
  {
    var (next, nextKs) := (ds[i := ds[i] + step as real], ks[i := ks[i] + step]);
    assert Tracks(next, nextKs, moving, c) by { StepTracks(ds, ks, moving, c, i, step); }
    assert Total(nextKs) == Total(ks) + step by { TotalUpdate(ks, i, ks[i] + step); }
    StitchedPerStep(shots, next, nextKs, moving, c);
  }

  /** A length that is too long lies past one that meets the target, by whole seconds. */
  lemma NextPast(c: Context, f: real, long: int, t: int)
    requires c.Long(f + long as real) && Meets(c, f + t as real)
    ensures long - 1 >= t && !c.Short(f + (long - 1) as real)
  {
    assert long as real > t as real;
    assert (long - 1) as real >= t as real;
  }

  lemma AllGrown(ds: seq<real>, ks: seq<int>, moving: set<int>, c: Context)
    requires c.Valid() && Tracks(ds, ks, moving, c) && NoneGrowable(ds, moving, c)
    ensures Total(ks) >= Total(Full(|ds|, moving, c))
  {
    forall i | 0 <= i < |ds| ensures ks[i] == Full(|ds|, moving, c)[i] {
      if i in moving { GrowableOnGrid(c, ks[i]); }
    }
    TotalMonotone(Full(|ds|, moving, c), ks);
  }

  lemma AllShrunk(ds: seq<real>, ks: seq<int>, moving: set<int>, c: Context)
    requires c.Valid() && Tracks(ds, ks, moving, c) && NoneShrinkable(ds, moving, c)
    ensures Total(ks) == 0
  {
    forall i | 0 <= i < |ds| ensures ks[i] == 0 {
      if i in moving { GrowableOnGrid(c, ks[i]); }
    }
    TotalOfZeros(|ds|);
    assert ks == seq(|ds|, i => 0);
  }

  /** With f the fixed length and t the steps of an assignment that is not short, lengthening leaves the plan not short. */
  lemma LengthenedReaches(
    shots: seq<Shot>, start: seq<real>, mid: seq<real>, ks: seq<int>, moving: set<int>, c: Context, f: real, t: int
  )
    requires WholeSeconds(c) && c.Valid() && LengthenedBy(shots, start, mid, ks, moving, c)
    requires f == FixedFrames(shots, moving, c) as real / 24.0 && t <= Total(Full(|shots|, moving, c)) && !c.Short(f + t as real)
    ensures !c.Short(StitchedWith(shots, mid, c))
  {
    if NoneGrowable(mid, moving, c) {
      StitchedPerStep(shots, mid, ks, moving, c);
      AllGrown(mid, ks, moving, c);
      assert Total(ks) as real >= t as real;
    }
  }

  lemma StepDownStops(shots: seq<Shot>, ds: seq<real>, ks: seq<int>, moving: set<int>, c: Context, f: real, t: int, i: nat)
    requires WholeSeconds(c) && c.Valid() && |ds| == |shots| && Tracks(ds, ks, moving, c) && OthersKept(shots, ds, moving)
    requires f == FixedFrames(shots, moving, c) as real / 24.0 && Meets(c, f + t as real)
    requires i < |ds| && i in moving && StepDownFrom(shots, ds, c, i)
    ensures !c.Short(StitchedWith(shots, ds, c))
  {
    assert ds[i] >= c.minShotS by {
      AtMonotone(c, 0, ks[i]);
      assert c.At(0) == c.minShotS;
    }
    assert c.Long(f + (Total(ks) + 1) as real) by { StitchedNeighbour(shots, ds, ks, moving, c, i, 1); }
    NextPast(c, f, Total(ks) + 1, t);
    StitchedPerStep(shots, ds, ks, moving, c);
  }

  lemma StepUpFromShort(shots: seq<Shot>, ds: seq<real>, ks: seq<int>, moving: set<int>, c: Context, f: real, i: nat)
    requires WholeSeconds(c) && c.Valid() && |ds| == |shots| && Tracks(ds, ks, moving, c) && OthersKept(shots, ds, moving)
    requires f == FixedFrames(shots, moving, c) as real / 24.0
    requires i < |ds| && i in moving && StepUpFrom(shots, ds, c, i)
    ensures c.Short(f + (Total(ks) - 1) as real)
  {
    assert ds[i] <= c.MaxShotS() by { AtMonotone(c, ks[i], c.maxSteps); }
    StitchedNeighbour(shots, ds, ks, moving, c, i, -1);
    assert ds[i] + (-1) as real == ds[i] - c.stepS;
  }

  lemma StepUpStops(shots: seq<Shot>, ds: seq<real>, ks: seq<int>, moving: set<int>, c: Context, f: real, t: int, i: nat)
    requires WholeSeconds(c) && c.Valid() && |ds| == |shots| && Tracks(ds, ks, moving, c) && OthersKept(shots, ds, moving)
    requires f == FixedFrames(shots, moving, c) as real / 24.0 && Meets(c, f + t as real)
    requires i < |ds| && i in moving && StepUpFrom(shots, ds, c, i)
    ensures !c.Long(f + Total(ks) as real)
  {
    StepUpFromShort(shots, ds, ks, moving, c, f, i);
    if c.Long(f + Total(ks) as real) { NextPast(c, f, Total(ks), t); }
  }

  lemma ShortenedNotShort(
    shots: seq<Shot>, mid: seq<real>, ds: seq<real>, ks: seq<int>, moving: set<int>, c: Context, f: real, t: nat
  )
    requires WholeSeconds(c) && c.Valid() && Shortening(shots, mid, ds, ks, moving, c)
    requires f == FixedFrames(shots, moving, c) as real / 24.0 && Meets(c, f + t as real)
    requires !c.Short(StitchedWith(shots, mid, c))
    ensures !c.Short(StitchedWith(shots, ds, c))
  {
    if ds != mid {
      var i :| 0 <= i < |ds| && i in moving && StepDownFrom(shots, ds, c, i);
      StepDownStops(shots, ds, ks, moving, c, f, t, i);
    }
  }

  lemma ShortenedNotLong(
    shots: seq<Shot>, mid: seq<real>, ds: seq<real>, ks: seq<int>, moving: set<int>, c: Context, f: real, t: nat
  )
    requires WholeSeconds(c) && c.Valid() && Shortening(shots, mid, ds, ks, moving, c)
    requires f == FixedFrames(shots, moving, c) as real / 24.0 && Meets(c, f + t as real)
    requires NoneShrinkable(ds, moving, c) || StepTooFar(shots, ds, moving, c)
    ensures !c.Long(StitchedWith(shots, ds, c))
  {
    assert StitchedWith(shots, ds, c) == f + Total(ks) as real by { StitchedPerStep(shots, ds, ks, moving, c); }
    if NoneShrinkable(ds, moving, c) {
      AllShrunk(ds, ks, moving, c);
      assert Total(ks) as real <= t as real;
    } else {
      var i :| 0 <= i < |ds| && i in moving && StepUpFrom(shots, ds, c, i);
      StepUpStops(shots, ds, ks, moving, c, f, t, i);
    }
  }

  /** With t the steps of an assignment that meets the target, shortening leaves the plan meeting it. */
  lemma ShortenedMeets(
    shots: seq<Shot>, mid: seq<real>, ds: seq<real>, ks: seq<int>, moving: set<int>, c: Context, f: real, t: nat
  )
    requires WholeSeconds(c) && c.Valid() && ShortenedBy(shots, mid, ds, ks, moving, c)
    requires f == FixedFrames(shots, moving, c) as real / 24.0 && Meets(c, f + t as real)
    requires !c.Short(StitchedWith(shots, mid, c))
    ensures Meets(c, StitchedWith(shots, ds, c))
  {
    assert !c.Short(StitchedWith(shots, ds, c)) by { ShortenedNotShort(shots, mid, ds, ks, moving, c, f, t); }
    if c.Long(StitchedWith(shots, ds, c)) {
      ShortenedNotLong(shots, mid, ds, ks, moving, c, f, t);
    }
  }

  lemma FitReaches(
    shots: seq<Shot>, start: seq<real>, mid: seq<real>, midKs: seq<int>, ds: seq<real>, ks: seq<int>, moving: set<int>, c: Context
  )
    requires c.Valid() && LengthenedBy(shots, start, mid, midKs, moving, c) && ShortenedBy(shots, mid, ds, ks, moving, c)
    ensures WholeSeconds(c) && Reachable(shots, moving, c) ==> Meets(c, StitchedWith(shots, ds, c))
  {
    if WholeSeconds(c) && Reachable(shots, moving, c) {
      var a :| Candidate(shots, a, moving, c) && Meets(c, StitchedWith(shots, a, c));
      var ka := TrackOf(shots, a, moving, c);
      var f := FixedFrames(shots, moving, c) as real / 24.0;
      StitchedPerStep(shots, a, ka, moving, c);
      TotalBounds(a, ka, moving, c);
      LengthenedReaches(shots, start, mid, midKs, moving, c, f, Total(ka));
      ShortenedMeets(shots, mid, ds, ks, moving, c, f, Total(ka));
    }
  }
}
