/**
  Splitting the emission over families and miners, by job pay and capacity pay.

  Emission is conserved: the scores are non-negative, 0 for every gated miner, and sum to 1 whenever a family is in use.
 */
module Emissions {
  import opened Sums

  datatype Switch = Switch(
    emissionSplit: map<string, real>, enabled: set<string>, capacityShare: real, capacityTargets: map<string, nat>
  ) {
    predicate Valid() {
      0.0 <= capacityShare <= 1.0
    }

    function Target(family: string): nat {
      if family in capacityTargets then capacityTargets[family] else 0
    }
  }

  datatype Reason = NotAttested | LowSuccess | Penalty(why: string)

  datatype Miner = Miner(
    work: map<string, real>, succeeded: nat, failed: nat, unpaidJobs: nat, served: set<string>, reasons: seq<Reason>,
    capacity: map<string, real>, score: real
  )

  type Miners = map<string, Miner>

  /** One family's verified GPU-seconds over the window against the switch's target. */
  datatype FamilyCapacity = FamilyCapacity(target: nat, windowS: real, gpuSeconds: real, blend: real) {
    function AverageGpus(): real {
      if windowS > 0.0 then gpuSeconds / windowS else 0.0
    }

    function Scale(): real {
      if AverageGpus() > 0.0 then Min(1.0, target as real / AverageGpus()) else 1.0
    }

    function Utilization(): real {
      if target > 0 then Min(1.0, AverageGpus() / target as real) else 0.0
    }
  }

  // ------------------------------------------------------------ shares of a family

  function Eligible(miners: Miners): set<string> {
    set h | h in miners && miners[h].reasons == []
  }

  function WorkAt(miners: Miners, family: string, h: string): real {
    if h in miners && family in miners[h].work then miners[h].work[family] else 0.0
  }

  function Works(miners: Miners, family: string): string -> real {
    h => WorkAt(miners, family, h)
  }

  function CapacityAt(miners: Miners, family: string, h: string): real {
    if h in miners && family in miners[h].capacity then miners[h].capacity[family] else 0.0
  }

  function Capacities(miners: Miners, family: string): string -> real {
    h => CapacityAt(miners, family, h)
  }

  ghost predicate NonNegative(miners: Miners) {
    forall h, f :: WorkAt(miners, f, h) >= 0.0 && CapacityAt(miners, f, h) >= 0.0
  }

  ghost function WorkSum(miners: Miners, s: set<string>, family: string): real {
    if s == {} then 0.0 else var h :| h in s; WorkAt(miners, family, h) + WorkSum(miners, s - {h}, family)
  }

  ghost function CapacitySum(miners: Miners, s: set<string>, family: string): real {
    if s == {} then 0.0 else var h :| h in s; CapacityAt(miners, family, h) + CapacitySum(miners, s - {h}, family)
  }

  lemma {:induction false} WorkSumIs(miners: Miners, s: set<string>, family: string)
    ensures WorkSum(miners, s, family) == Sum(s, Works(miners, family))
    decreases s
  {
    if s != {} {
      var h :| h in s && WorkSum(miners, s, family) == WorkAt(miners, family, h) + WorkSum(miners, s - {h}, family);
      SumSplit(s, Works(miners, family), h);
      WorkSumIs(miners, s - {h}, family);
    }
  }

  lemma {:induction false} CapacitySumIs(miners: Miners, s: set<string>, family: string)
    ensures CapacitySum(miners, s, family) == Sum(s, Capacities(miners, family))
    decreases s
  {
    if s != {} {
      var h :| h in s && CapacitySum(miners, s, family) == CapacityAt(miners, family, h) + CapacitySum(miners, s - {h}, family);
      SumSplit(s, Capacities(miners, family), h);
      CapacitySumIs(miners, s - {h}, family);
    }
  }

  ghost function JobTotal(miners: Miners, family: string): real {
    WorkSum(miners, Eligible(miners), family)
  }

  ghost function ReadyTotal(miners: Miners, family: string): real {
    CapacitySum(miners, Eligible(miners), family)
  }

  /** A miner's part of a family, given its work and capacity, their totals and the part paid for capacity. */
  function PartOf(work: real, workTotal: real, capacity: real, capacityTotal: real, blend: real): real
    requires capacityTotal > 0.0 || workTotal != 0.0
  {
    if capacityTotal <= 0.0 then work / workTotal
    else (1.0 - blend) * (if workTotal > 0.0 then work / workTotal else 0.0) + blend * capacity / capacityTotal
  }

  function BlendOf(switch: Switch, ready: FamilyCapacity, jobTotal: real): real {
    if jobTotal > 0.0 then switch.capacityShare * ready.Utilization() else 1.0
  }

  function RawSplit(switch: Switch, f: string): real {
    Max(if f in switch.emissionSplit then switch.emissionSplit[f] else 0.0, 0.0)
  }

  ghost function RawSum(switch: Switch, s: set<string>): real {
    if s == {} then 0.0 else var f :| f in s; RawSplit(switch, f) + RawSum(switch, s - {f})
  }

  /** What the scores are computed from. */
  datatype Emission = Emission(miners: Miners, families: set<string>, ready: map<string, FamilyCapacity>, switch: Switch) {
    /** Every family has work or capacity to share, and capacity only where the switch counts it. */
    ghost predicate Valid() {
      && switch.Valid() && NonNegative(miners)
      && (forall f :: f in ready ==> ready[f].gpuSeconds >= 0.0)
      && AllInUse()
    }

    ghost predicate AllInUse() {
      forall f :: f in families ==> InUse(f)
    }

    ghost predicate InUse(f: string) {
      if ReadyTotal(miners, f) > 0.0 then f in ready else JobTotal(miners, f) > 0.0
    }

    ghost function RawTotal(): real {
      RawSum(switch, families)
    }

    /** The switch's split, or equal parts when it gives the families in use nothing. */
    ghost function SplitOf(f: string): real {
      if RawTotal() == 0.0 then 1.0 else RawSplit(switch, f)
    }

    ghost function TotalSplit(): real {
      if RawTotal() == 0.0 then |families| as real else RawTotal()
    }

    ghost function Blend(f: string): real
      requires f in ready
    {
      BlendOf(switch, ready[f], JobTotal(miners, f))
    }

    ghost function Part(f: string, h: string): real {
      if !(JobTotal(miners, f) > 0.0 || ReadyTotal(miners, f) > 0.0) then 0.0
      else
        PartOf(WorkAt(miners, f, h), JobTotal(miners, f), CapacityAt(miners, f, h), ReadyTotal(miners, f),
               if f in ready then Blend(f) else 0.0)
    }

    ghost function Weight(f: string): real {
      if TotalSplit() == 0.0 then 0.0 else SplitOf(f) / TotalSplit()
    }

    /** What a miner gets from a family. */
    ghost function FamilyScore(f: string, h: string): real {
      Weight(f) * Part(f, h)
    }
  }

  function RawSplits(switch: Switch): string -> real {
    f => RawSplit(switch, f)
  }

  lemma {:induction false} RawSumIs(switch: Switch, s: set<string>)
    ensures RawSum(switch, s) == Sum(s, RawSplits(switch))
    decreases s
  {
    if s != {} {
      var f :| f in s && RawSum(switch, s) == RawSplit(switch, f) + RawSum(switch, s - {f});
      SumSplit(s, RawSplits(switch), f);
      RawSumIs(switch, s - {f});
    }
  }

  ghost function Splits(e: Emission): string -> real {
    f => e.SplitOf(f)
  }

  ghost function Parts(e: Emission, f: string): string -> real {
    h => e.Part(f, h)
  }

  ghost function Weights(e: Emission): string -> real {
    f => e.Weight(f)
  }

  ghost function FamilyParts(e: Emission): string -> (string -> real) {
    f => Parts(e, f)
  }

  /** What each miner gets from each family. */
  ghost function FamilyScores(e: Emission): (string, string) -> real {
    Weighted(Weights(e), FamilyParts(e))
  }

  /** A miner's parts of some families, weighted by their split. */
  ghost function ScoreSum(e: Emission, s: set<string>, h: string): real {
    if s == {} then 0.0 else var f :| f in s; e.FamilyScore(f, h) + ScoreSum(e, s - {f}, h)
  }

  lemma {:induction false} ScoreSumIs(e: Emission, s: set<string>, h: string)
    ensures ScoreSum(e, s, h) == Sum(s, Row(FamilyScores(e), h))
    decreases s
  {
    if s != {} {
      var f :| f in s && ScoreSum(e, s, h) == e.FamilyScore(f, h) + ScoreSum(e, s - {f}, h);
      SumSplit(s, Row(FamilyScores(e), h), f);
      ScoreSumIs(e, s - {f}, h);
      FamilyScoreIs(e, f, h);
    }
  }

  lemma FamilyScoreIs(e: Emission, f: string, h: string)
    ensures FamilyScores(e)(h, f) == e.FamilyScore(f, h)
  {
    var (weight, part) := (e.Weight(f), e.Part(f, h));
    assert e.FamilyScore(f, h) == weight * part;
    ScoreFrom(e, f, h, weight, part);
  }

  lemma ScoreFrom(e: Emission, f: string, h: string, weight: real, part: real)
    requires weight == Weights(e)(f) && part == Parts(e, f)(h)
    ensures FamilyScores(e)(h, f) == weight * part
  {
    WeightedAt(Weights(e), FamilyParts(e), h, f, weight, part);
  }

  /** A miner's score. */
  ghost function ScoreOf(e: Emission, h: string): real {
    if h in Eligible(e.miners) then ScoreSum(e, e.families, h) else 0.0
  }

  ghost function Scores(e: Emission): string -> real {
    h => ScoreOf(e, h)
  }

  lemma DividedBy(x: real, d: real)
    requires d != 0.0
    ensures 1.0 / d * x == x / d
  {
  }

  lemma QuotientNonNegative(x: real, d: real)
    requires x >= 0.0 && d > 0.0
    ensures x / d >= 0.0
  {
  }

  lemma ProductNonNegative(x: real, y: real)
    requires x >= 0.0 && y >= 0.0
    ensures x * y >= 0.0
  {
  }

  lemma ProductAtMostOne(x: real, y: real)
    requires 0.0 <= x <= 1.0 && 0.0 <= y <= 1.0
    ensures 0.0 <= x * y <= 1.0
  {
    ProductNonNegative(x, y);
    ProductNonNegative(1.0 - x, y);
    assert (1.0 - x) * y == y - x * y;
  }

  lemma UtilizationRange(c: FamilyCapacity)
    requires c.gpuSeconds >= 0.0
    ensures 0.0 <= c.Utilization() <= 1.0
  {
    if c.windowS > 0.0 { QuotientNonNegative(c.gpuSeconds, c.windowS); }
    if c.target > 0 { QuotientNonNegative(c.AverageGpus(), c.target as real); }
  }

  lemma BlendRange(e: Emission, f: string)
    requires e.Valid() && f in e.ready
    ensures 0.0 <= e.Blend(f) <= 1.0
  {
    UtilizationRange(e.ready[f]);
    ProductAtMostOne(e.switch.capacityShare, e.ready[f].Utilization());
  }

  // ------------------------------------------------------------ the parts of a family

  lemma TotalsNonNegative(e: Emission, f: string)
    requires NonNegative(e.miners)
    ensures JobTotal(e.miners, f) >= 0.0 && ReadyTotal(e.miners, f) >= 0.0
  {
    WorkSumIs(e.miners, Eligible(e.miners), f);
    CapacitySumIs(e.miners, Eligible(e.miners), f);
    SumNonNegative(Eligible(e.miners), Works(e.miners, f));
    SumNonNegative(Eligible(e.miners), Capacities(e.miners, f));
  }

  lemma PartOfNonNegative(work: real, workTotal: real, capacity: real, capacityTotal: real, blend: real)
    requires work >= 0.0 && workTotal >= 0.0 && capacity >= 0.0 && (capacityTotal > 0.0 || workTotal > 0.0) && 0.0 <= blend <= 1.0
    ensures PartOf(work, workTotal, capacity, capacityTotal, blend) >= 0.0
  {
    if workTotal > 0.0 { QuotientNonNegative(work, workTotal); }
    if capacityTotal > 0.0 {
      ProductNonNegative(blend, capacity);
      QuotientNonNegative(blend * capacity, capacityTotal);
      ProductNonNegative(1.0 - blend, if workTotal > 0.0 then work / workTotal else 0.0);
    }
  }

  lemma PartNonNegative(e: Emission, f: string, h: string)
    requires e.Valid() && f in e.families
    ensures e.Part(f, h) >= 0.0
  {
    TotalsNonNegative(e, f);
    if f in e.ready { BlendRange(e, f); }
    PartOfNonNegative(WorkAt(e.miners, f, h), JobTotal(e.miners, f), CapacityAt(e.miners, f, h), ReadyTotal(e.miners, f),
                      if f in e.ready then e.Blend(f) else 0.0);
  }

  /** Without capacity the part is the miner's fraction of the work. */
  lemma WorkOnly(work: real, workTotal: real, capacity: real, capacityTotal: real, blend: real)
    requires capacityTotal <= 0.0 && workTotal != 0.0
    ensures PartOf(work, workTotal, capacity, capacityTotal, blend) == 1.0 / workTotal * work
  {
    DividedBy(work, workTotal);
  }

  lemma CapacityOnly(work: real, workTotal: real, capacity: real, capacityTotal: real, blend: real)
    requires capacityTotal > 0.0 && workTotal <= 0.0 && blend == 1.0
    ensures PartOf(work, workTotal, capacity, capacityTotal, blend) == 1.0 / capacityTotal * capacity
  {
    DividedBy(capacity, capacityTotal);
  }

  lemma Blended(work: real, workTotal: real, capacity: real, capacityTotal: real, blend: real)
    requires capacityTotal > 0.0 && workTotal > 0.0
    ensures PartOf(work, workTotal, capacity, capacityTotal, blend)
            == (1.0 - blend) / workTotal * work + blend / capacityTotal * capacity
  {
    Regroup(1.0 - blend, work, workTotal);
    Regroup(blend, capacity, capacityTotal);
  }

  lemma Regroup(k: real, x: real, d: real)
    requires d > 0.0
    ensures k * (x / d) == k / d * x && k * x / d == k / d * x
  {
  }

  lemma WorkPart(e: Emission, f: string, h: string)
    requires e.Valid() && f in e.families && ReadyTotal(e.miners, f) <= 0.0
    ensures Parts(e, f)(h) == Times(1.0 / JobTotal(e.miners, f), Works(e.miners, f))(h)
  {
    WorkOnly(WorkAt(e.miners, f, h), JobTotal(e.miners, f), CapacityAt(e.miners, f, h), ReadyTotal(e.miners, f),
             if f in e.ready then e.Blend(f) else 0.0);
  }

  lemma CapacityPart(e: Emission, f: string, h: string)
    requires e.Valid() && f in e.families && JobTotal(e.miners, f) <= 0.0
    ensures Parts(e, f)(h) == Times(1.0 / ReadyTotal(e.miners, f), Capacities(e.miners, f))(h)
  {
    CapacityOnly(WorkAt(e.miners, f, h), JobTotal(e.miners, f), CapacityAt(e.miners, f, h), ReadyTotal(e.miners, f), e.Blend(f));
  }

  lemma BlendedPart(e: Emission, f: string, h: string, a: real, b: real, blend: real)
    requires f in e.ready && a == JobTotal(e.miners, f) > 0.0 && b == ReadyTotal(e.miners, f) > 0.0 && blend == e.Blend(f)
    ensures Parts(e, f)(h) == Times((1.0 - blend) / a, Works(e.miners, f))(h) + Times(blend / b, Capacities(e.miners, f))(h)
  {
    Blended(WorkAt(e.miners, f, h), a, CapacityAt(e.miners, f, h), b, blend);
  }

  /** A family in use is split without gain or loss over the eligible miners. */
  lemma PartsSumToOne(e: Emission, f: string)
    requires e.Valid() && f in e.families
    ensures Sum(Eligible(e.miners), Parts(e, f)) == 1.0
  {
    if ReadyTotal(e.miners, f) <= 0.0 {
      WorkPartsSum(e, f);
    } else if JobTotal(e.miners, f) <= 0.0 {
      CapacityPartsSum(e, f);
    } else {
      BlendedPartsSum(e, f);
    }
  }

  lemma WorkPartsSum(e: Emission, f: string)
    requires e.Valid() && f in e.families && ReadyTotal(e.miners, f) <= 0.0
    ensures Sum(Eligible(e.miners), Parts(e, f)) == 1.0
  {
    forall h { WorkPart(e, f, h); }
    WorkSumIs(e.miners, Eligible(e.miners), f);
    SumFractions(Eligible(e.miners), Works(e.miners, f), JobTotal(e.miners, f), Parts(e, f));
  }

  lemma CapacityPartsSum(e: Emission, f: string)
    requires e.Valid() && f in e.families && JobTotal(e.miners, f) <= 0.0
    ensures Sum(Eligible(e.miners), Parts(e, f)) == 1.0
  {
    forall h { CapacityPart(e, f, h); }
    CapacitySumIs(e.miners, Eligible(e.miners), f);
    SumFractions(Eligible(e.miners), Capacities(e.miners, f), ReadyTotal(e.miners, f), Parts(e, f));
  }

  lemma BlendedPartsSum(e: Emission, f: string)
    requires e.Valid() && f in e.families && JobTotal(e.miners, f) > 0.0 && ReadyTotal(e.miners, f) > 0.0
    ensures Sum(Eligible(e.miners), Parts(e, f)) == 1.0
  {
    BlendedSum(e, f, Eligible(e.miners), JobTotal(e.miners, f), ReadyTotal(e.miners, f), e.Blend(f));
  }

  lemma BlendedSum(e: Emission, f: string, s: set<string>, a: real, b: real, blend: real)
    requires f in e.ready && a == JobTotal(e.miners, f) > 0.0 && b == ReadyTotal(e.miners, f) > 0.0 && blend == e.Blend(f)
    requires s == Eligible(e.miners)
    ensures Sum(s, Parts(e, f)) == 1.0
  {
    WorkSumIs(e.miners, s, f);
    CapacitySumIs(e.miners, s, f);
    forall h { BlendedPart(e, f, h, a, b, blend); }
    BlendSums(s, Works(e.miners, f), Capacities(e.miners, f), a, b, blend, Parts(e, f));
  }

  lemma BlendSums(s: set<string>, works: string -> real, capacities: string -> real, a: real, b: real, blend: real, parts: string -> real)
    requires a == Sum(s, works) > 0.0 && b == Sum(s, capacities) > 0.0
    requires forall h :: parts(h) == Times((1.0 - blend) / a, works)(h) + Times(blend / b, capacities)(h)
    ensures Sum(s, parts) == 1.0
  {
    SumBlend(s, works, a, capacities, b, blend, parts);
  }

  // ------------------------------------------------------------ conservation

  lemma {:induction false} SumOnes(s: set<string>, ones: string -> real)
    requires forall f :: f in s ==> ones(f) == 1.0
    ensures Sum(s, ones) == |s| as real
    decreases s
  {
    if s != {} {
      var f :| f in s;
      SumSplit(s, ones, f);
      SumOnes(s - {f}, ones);
    }
  }

  lemma SplitsPositive(e: Emission)
    ensures forall f :: e.SplitOf(f) >= 0.0
    ensures e.TotalSplit() == Sum(e.families, Splits(e))
    ensures e.families != {} ==> e.TotalSplit() > 0.0
  {
    RawSumIs(e.switch, e.families);
    SumNonNegative(e.families, RawSplits(e.switch));
    if e.RawTotal() == 0.0 {
      SumOnes(e.families, Splits(e));
    } else {
      SumSame(e.families, Splits(e), RawSplits(e.switch));
    }
  }

  lemma WeightNonNegative(e: Emission, f: string)
    requires f in e.families
    ensures Weights(e)(f) >= 0.0
  {
    SplitsPositive(e);
    QuotientNonNegative(e.SplitOf(f), e.TotalSplit());
  }

  lemma FamilyScoresNonNegative(e: Emission, f: string, h: string)
    requires e.Valid() && f in e.families
    ensures FamilyScores(e)(h, f) >= 0.0
  {
    assert Parts(e, f)(h) >= 0.0 by { PartNonNegative(e, f, h); }
    assert Weights(e)(f) >= 0.0 by { WeightNonNegative(e, f); }
    assert FamilyParts(e)(f) == Parts(e, f);
    WeightedAt(Weights(e), FamilyParts(e), h, f, Weights(e)(f), Parts(e, f)(h));
  }

  /** Scores are never negative, and a gated miner's is 0. */
  lemma ScoresNonNegative(e: Emission, h: string)
    requires e.Valid()
    ensures ScoreOf(e, h) >= 0.0
    ensures h !in Eligible(e.miners) ==> ScoreOf(e, h) == 0.0
  {
    ScoreSumIs(e, e.families, h);
    forall f | f in e.families ensures Row(FamilyScores(e), h)(f) >= 0.0 { FamilyScoresNonNegative(e, f, h); }
    SumNonNegative(e.families, Row(FamilyScores(e), h));
  }

  lemma WeightIsFraction(e: Emission, f: string)
    requires e.TotalSplit() > 0.0
    ensures Weights(e)(f) == Times(1.0 / e.TotalSplit(), Splits(e))(f)
  {
    DividedBy(e.SplitOf(f), e.TotalSplit());
  }

  /** Over every mix of job pay, capacity and split, the scores sum to 1 when a family is in use and to 0 otherwise. */
  lemma EmissionConserved(e: Emission)
    requires e.Valid()
    ensures Sum(e.miners.Keys, Scores(e)) == if e.families == {} then 0.0 else 1.0
  {
    var s := Eligible(e.miners);
    assert Sum(e.miners.Keys, Scores(e)) == Sum(s, Rows(e.families, FamilyScores(e))) by {
      SumSubset(s, e.miners.Keys, Scores(e));
      forall h | h in s ensures Scores(e)(h) == Rows(e.families, FamilyScores(e))(h) { ScoreSumIs(e, e.families, h); }
      SumSame(s, Scores(e), Rows(e.families, FamilyScores(e)));
    }
    forall f | f in e.families ensures Sum(s, FamilyParts(e)(f)) == 1.0 { PartsSumToOne(e, f); }
    WeightedRows(s, e.families, Weights(e), FamilyParts(e));
    WeightsSumToOne(e);
  }

  lemma WeightsSumToOne(e: Emission)
    ensures Sum(e.families, Weights(e)) == if e.families == {} then 0.0 else 1.0
  {
    if e.families != {} {
      assert e.TotalSplit() > 0.0 && e.TotalSplit() == Sum(e.families, Splits(e)) by { SplitsPositive(e); }
      forall f | f in e.families ensures Weights(e)(f) == Times(1.0 / e.TotalSplit(), Splits(e))(f) { WeightIsFraction(e, f); }
      SumFractions(e.families, Splits(e), e.TotalSplit(), Weights(e));
    }
  }

  ghost predicate NoCapacityCredit(miners: Miners) {
    forall f, h :: CapacityAt(miners, f, h) == 0.0
  }

  /** A miner's fraction of a family's work, weighted by the split: what VCU alone pays. */
  ghost function WorkPay(e: Emission, f: string, h: string): real {
    e.Weight(f) * (if JobTotal(e.miners, f) > 0.0 then WorkAt(e.miners, f, h) / JobTotal(e.miners, f) else 0.0)
  }

  ghost function WorkPays(e: Emission, h: string): string -> real {
    f => WorkPay(e, f, h)
  }

  /** The VCU score: the work fractions of the families in use, for a miner that is not gated. */
  ghost function VcuScore(e: Emission, h: string): real {
    if h in Eligible(e.miners) then Sum(e.families, WorkPays(e, h)) else 0.0
  }

  lemma PartIsWorkFraction(e: Emission, f: string, h: string)
    requires e.Valid() && f in e.families && NoCapacityCredit(e.miners)
    ensures JobTotal(e.miners, f) > 0.0
    ensures e.Part(f, h) == WorkAt(e.miners, f, h) / JobTotal(e.miners, f)
  {
    CapacitySumIs(e.miners, Eligible(e.miners), f);
    SumZero(Eligible(e.miners), Capacities(e.miners, f));
  }

  lemma ScoreIsWorkPay(e: Emission, f: string, h: string)
    requires e.Valid() && f in e.families && NoCapacityCredit(e.miners)
    ensures FamilyScores(e)(h, f) == WorkPay(e, f, h)
  {
    assert e.FamilyScore(f, h) == WorkPay(e, f, h) by { PartIsWorkFraction(e, f, h); }
    FamilyScoreIs(e, f, h);
  }

  /** Without capacity credit the score is exactly the VCU score. */
  lemma WithoutCapacity(e: Emission, h: string)
    requires e.Valid() && NoCapacityCredit(e.miners)
    ensures ScoreOf(e, h) == VcuScore(e, h)
  {
    forall f | f in e.families ensures Row(FamilyScores(e), h)(f) == WorkPays(e, h)(f) {
      ScoreIsWorkPay(e, f, h);
    }
    ScoreSumIs(e, e.families, h);
    SumSame(e.families, Row(FamilyScores(e), h), WorkPays(e, h));
  }

  // ------------------------------------------------------------ what each family pays

  /** A family's entry in the split, 0 where there is none or it is negative. */
  function Entry(split: map<string, real>, f: string): real {
    if f in split && split[f] > 0.0 then split[f] else 0.0
  }

  function Entries(split: map<string, real>): string -> real {
    f => Entry(split, f)
  }

  /** What each miner gets from one family, and one miner from each. */
  ghost function Pays(e: Emission, f: string): string -> real {
    h => e.FamilyScore(f, h)
  }

  ghost function Received(e: Emission, h: string): string -> real {
    f => e.FamilyScore(f, h)
  }

  lemma ScaledWhole(s: set<string>, weight: real, parts: string -> real, pays: string -> real)
    requires Sum(s, parts) == 1.0
    requires forall h :: h in s ==> pays(h) == Times(weight, parts)(h)
    ensures Sum(s, pays) == weight
  {
    SumScaled(s, weight, parts, pays);
  }

  lemma PaysScaled(e: Emission, f: string, h: string, weight: real)
    requires weight == e.Weight(f)
    ensures Pays(e, f)(h) == Times(weight, Parts(e, f))(h)
  {
    PaysAt(e, f, h, weight, Parts(e, f)(h));
    TimesAt(weight, Parts(e, f), h, Parts(e, f)(h));
  }

  lemma PaysAt(e: Emission, f: string, h: string, weight: real, part: real)
    requires weight == e.Weight(f) && part == e.Part(f, h)
    ensures Pays(e, f)(h) == weight * part
  {
  }

  lemma TimesAt(weight: real, parts: string -> real, h: string, part: real)
    requires parts(h) == part
    ensures Times(weight, parts)(h) == weight * part
  {
  }

  lemma PaysWeight(e: Emission, f: string, weight: real)
    requires e.Valid() && f in e.families && weight == e.Weight(f)
    ensures Sum(Eligible(e.miners), Pays(e, f)) == weight
  {
    var s := Eligible(e.miners);
    PartsSumToOne(e, f);
    forall h | h in s ensures Pays(e, f)(h) == Times(weight, Parts(e, f))(h) { PaysScaled(e, f, h, weight); }
    ScaledWhole(s, weight, Parts(e, f), Pays(e, f));
  }

  lemma RawTotalIs(e: Emission)
    ensures e.RawTotal() == Sum(e.families, Entries(e.switch.emissionSplit)) >= 0.0
  {
    RawSumIs(e.switch, e.families);
    SumSame(e.families, RawSplits(e.switch), Entries(e.switch.emissionSplit));
    SumNonNegative(e.families, RawSplits(e.switch));
  }

  lemma WeightOfEntry(e: Emission, f: string)
    requires f in e.families
    ensures var total := Sum(e.families, Entries(e.switch.emissionSplit));
            e.Weight(f) == if total > 0.0 then Entry(e.switch.emissionSplit, f) / total else 1.0 / |e.families| as real
  {
    RawTotalIs(e);
    SplitsPositive(e);
  }

  /** A family in use pays its part of the split: its own entry over the sum of the entries of all families in use, or an
      equal part when they have none. */
  lemma FamilyPays(e: Emission, f: string)
    requires e.Valid() && f in e.families
    ensures var total := Sum(e.families, Entries(e.switch.emissionSplit));
            Sum(Eligible(e.miners), Pays(e, f))
            == if total > 0.0 then Entry(e.switch.emissionSplit, f) / total else 1.0 / |e.families| as real
  {
    PaysWeight(e, f, e.Weight(f));
    WeightOfEntry(e, f);
  }

  /** A miner that is not gated scores what it gets from the families in use, and nothing else. */
  lemma ScoreIsReceived(e: Emission, h: string)
    requires h in Eligible(e.miners)
    ensures ScoreOf(e, h) == Sum(e.families, Received(e, h))
  {
    forall f | f in e.families ensures Row(FamilyScores(e), h)(f) == Received(e, h)(f) { FamilyScoreIs(e, f, h); }
    ScoreSumIs(e, e.families, h);
    SumSame(e.families, Row(FamilyScores(e), h), Received(e, h));
  }

  lemma FractionIs(x: real, d: real, fraction: real)
    requires d > 0.0 && fraction * d == x
    ensures x / d == fraction
  {
  }

  /** Without verified time or a window nothing is scaled, and without a target or a window nothing is utilized. */
  lemma IdleCapacity(c: FamilyCapacity)
    ensures c.gpuSeconds <= 0.0 || c.windowS <= 0.0 ==> c.Scale() == 1.0
    ensures c.target <= 0 || c.windowS <= 0.0 ==> c.Utilization() == 0.0
  {
    if c.windowS > 0.0 && c.gpuSeconds <= 0.0 { NoPositiveQuotient(c.gpuSeconds, c.windowS); }
  }

  lemma NoPositiveQuotient(x: real, d: real)
    requires x <= 0.0 && d > 0.0
    ensures x / d <= 0.0
  {
  }

  /** The utilization is the verified time over the target for the window, and at most 1. */
  lemma UtilizationIs(c: FamilyCapacity, u: real)
    requires c.target > 0 && c.windowS > 0.0 && c.gpuSeconds >= 0.0
    requires u * (c.target as real * c.windowS) == Min(c.target as real * c.windowS, c.gpuSeconds)
    ensures c.Utilization() == u
  {
    UtilizationOf(c.gpuSeconds, c.windowS, c.target as real, c.AverageGpus(), c.AverageGpus() / c.target as real, u);
  }

  lemma UtilizationOf(seconds: real, window: real, target: real, average: real, ratio: real, u: real)
    requires target > 0.0 && window > 0.0 && average == seconds / window && ratio == average / target
    requires u * (target * window) == Min(target * window, seconds)
    ensures Min(1.0, ratio) == u
  {
    Cancels(seconds, window);
    Cancels(average, target);
    assert ratio * (target * window) == seconds by { RatioTimes(ratio, target, window, average, seconds); }
    SameFactor(u, Min(1.0, ratio), target * window, ratio, seconds);
  }

  lemma RatioTimes(ratio: real, target: real, window: real, average: real, seconds: real)
    requires ratio * target == average && average * window == seconds
    ensures ratio * (target * window) == seconds
  {
  }

  lemma SameFactor(u: real, v: real, whole: real, ratio: real, seconds: real)
    requires whole > 0.0 && ratio * whole == seconds && v == Min(1.0, ratio) && u * whole == Min(whole, seconds)
    ensures u == v
  {
    if ratio <= 1.0 { Ordered(ratio, 1.0, whole); } else { Ordered(1.0, ratio, whole); }
    FractionIs(Min(whole, seconds), whole, u);
    FractionIs(Min(whole, seconds), whole, v);
  }

  lemma Ordered(a: real, b: real, k: real)
    requires a <= b && k > 0.0
    ensures a * k <= b * k
  {
    assert (b - a) * k >= 0.0;
  }

  /** With j and c the miner's fractions of the work and of the capacity of a family, and u the fraction of the target for
      the window that was verified, capacity pays `capacityShare` times u of its part and jobs the rest; jobs alone pay
      where there is no capacity, and capacity alone where there was no work. */
  lemma PartIsBlend(e: Emission, f: string, h: string, j: real, c: real, u: real)
    requires e.Valid() && f in e.families
    requires JobTotal(e.miners, f) > 0.0 ==> j * JobTotal(e.miners, f) == WorkAt(e.miners, f, h)
    requires ReadyTotal(e.miners, f) > 0.0 ==>
               && c * ReadyTotal(e.miners, f) == CapacityAt(e.miners, f, h)
               && e.ready[f].target > 0 && e.ready[f].windowS > 0.0
               && var whole := e.ready[f].target as real * e.ready[f].windowS; u * whole == Min(whole, e.ready[f].gpuSeconds)
    ensures ReadyTotal(e.miners, f) <= 0.0 ==> e.Part(f, h) == j
    ensures ReadyTotal(e.miners, f) > 0.0 && JobTotal(e.miners, f) <= 0.0 ==> e.Part(f, h) == c
    ensures ReadyTotal(e.miners, f) > 0.0 && JobTotal(e.miners, f) > 0.0 ==>
              e.Part(f, h) == (1.0 - e.switch.capacityShare * u) * j + e.switch.capacityShare * u * c
  {
    var (jobs, ready) := (JobTotal(e.miners, f), ReadyTotal(e.miners, f));
    if jobs > 0.0 { FractionIs(WorkAt(e.miners, f, h), jobs, j); }
    if ready > 0.0 {
      FractionIs(CapacityAt(e.miners, f, h), ready, c);
      UtilizationIs(e.ready[f], u);
      BlendedFractions(e.Blend(f), CapacityAt(e.miners, f, h), ready, c);
    }
  }

  lemma BlendedFractions(blend: real, capacity: real, total: real, c: real)
    requires total > 0.0 && capacity / total == c
    ensures blend * capacity / total == blend * c
  {
  }

  // ------------------------------------------------------------ distributing the emission

  type Tally = map<string, real>

  function ScoreAt(scores: Tally, h: string): real {
    if h in scores then scores[h] else 0.0
  }

  lemma WorkSumPlus(miners: Miners, s: set<string>, family: string, h: string)
    requires h !in s
    ensures WorkSum(miners, s + {h}, family) == WorkSum(miners, s, family) + WorkAt(miners, family, h)
  {
    WorkSumIs(miners, s, family);
    WorkSumIs(miners, s + {h}, family);
    SumAdd(s, Works(miners, family), h);
  }

  lemma CapacitySumPlus(miners: Miners, s: set<string>, family: string, h: string)
    requires h !in s
    ensures CapacitySum(miners, s + {h}, family) == CapacitySum(miners, s, family) + CapacityAt(miners, family, h)
  {
    CapacitySumIs(miners, s, family);
    CapacitySumIs(miners, s + {h}, family);
    SumAdd(s, Capacities(miners, family), h);
  }

  lemma RawSumPlus(switch: Switch, s: set<string>, f: string)
    requires f !in s
    ensures RawSum(switch, s + {f}) == RawSum(switch, s) + RawSplit(switch, f)
  {
    RawSumIs(switch, s);
    RawSumIs(switch, s + {f});
    SumAdd(s, RawSplits(switch), f);
  }

  lemma ScoreSumPlus(e: Emission, s: set<string>, f: string, h: string)
    requires f !in s
    ensures ScoreSum(e, s + {f}, h) == ScoreSum(e, s, h) + e.FamilyScore(f, h)
  {
    ScoreSumIs(e, s, h);
    ScoreSumIs(e, s + {f}, h);
    SumAdd(s, Row(FamilyScores(e), h), f);
    FamilyScoreIs(e, f, h);
  }

  method SumWork(miners: Miners, s: set<string>, f: string) returns (total: real)
    ensures total == WorkSum(miners, s, f)
  {
    total := 0.0;
    var todo := s;
    ghost var done: set<string> := {};
    while todo != {}
      invariant todo <= s && done == s - todo && total == WorkSum(miners, done, f)
      decreases |todo|
    {
      var h :| h in todo;
      WorkSumPlus(miners, done, f, h);
      total := total + WorkAt(miners, f, h);
      todo, done := todo - {h}, done + {h};
    }
    assert done == s;
  }

  method SumCapacity(miners: Miners, s: set<string>, f: string) returns (total: real)
    ensures total == CapacitySum(miners, s, f)
  {
    total := 0.0;
    var todo := s;
    ghost var done: set<string> := {};
    while todo != {}
      invariant todo <= s && done == s - todo && total == CapacitySum(miners, done, f)
      decreases |todo|
    {
      var h :| h in todo;
      CapacitySumPlus(miners, done, f, h);
      total := total + CapacityAt(miners, f, h);
      todo, done := todo - {h}, done + {h};
    }
    assert done == s;
  }

  method SumSplits(switch: Switch, families: set<string>) returns (total: real)
    ensures total == RawSum(switch, families)
  {
    total := 0.0;
    var todo := families;
    ghost var done: set<string> := {};
    while todo != {}
      invariant todo <= families && done == families - todo && total == RawSum(switch, done)
      decreases |todo|
    {
      var f :| f in todo;
      RawSumPlus(switch, done, f);
      total := total + RawSplit(switch, f);
      todo, done := todo - {f}, done + {f};
    }
    assert done == families;
  }

  lemma Reassociate(weight: real, x: real, d: real)
    requires d != 0.0
    ensures weight * x / d == weight * (x / d)
  {
  }

  /** One miner's addition from one family. */
  method FamilyAddition(work: real, capacity: real, weight: real, jobTotal: real, readyTotal: real, blend: real, ghost part: real)
    returns (score: real)
    requires readyTotal > 0.0 || jobTotal != 0.0
    requires part == PartOf(work, jobTotal, capacity, readyTotal, blend)
    ensures score == weight * part
  {
    if readyTotal <= 0.0 {
      score := weight * work / jobTotal;
      Reassociate(weight, work, jobTotal);
    } else {
      var job := if jobTotal > 0.0 then work / jobTotal else 0.0;
      score := weight * ((1.0 - blend) * job + blend * capacity / readyTotal);
    }
  }

  lemma PartIs(e: Emission, f: string, h: string, jobTotal: real, readyTotal: real, blend: real)
    requires e.InUse(f) && jobTotal == JobTotal(e.miners, f) && readyTotal == ReadyTotal(e.miners, f)
    requires readyTotal > 0.0 ==> blend == e.Blend(f)
    ensures readyTotal > 0.0 || jobTotal != 0.0
    ensures e.Part(f, h) == PartOf(WorkAt(e.miners, f, h), jobTotal, CapacityAt(e.miners, f, h), readyTotal, blend)
  {
  }

  /** Scores grew by a column's values for some miners, and by nothing for others. */
  ghost predicate Added(scored: Tally, after: Tally, column: Tally, done: set<string>) {
    forall h :: ScoreAt(after, h) == ScoreAt(scored, h) + if h in done then ScoreAt(column, h) else 0.0
  }

  /** What a family adds to each eligible miner. */
  ghost function ColumnOf(e: Emission, f: string): Tally {
    map h | h in Eligible(e.miners) :: e.FamilyScore(f, h)
  }

  /** The column holds each eligible miner's part of the family, from the family's numbers. */
  ghost predicate IsColumn(
    miners: Miners, column: Tally, f: string, weight: real, jobTotal: real, readyTotal: real, blend: real
  )
    requires readyTotal > 0.0 || jobTotal != 0.0
  {
    && column.Keys == Eligible(miners)
    && forall h :: h in column ==>
         column[h] == weight * PartOf(WorkAt(miners, f, h), jobTotal, CapacityAt(miners, f, h), readyTotal, blend)
  }

  lemma ColumnIs(e: Emission, f: string, weight: real, jobTotal: real, readyTotal: real, blend: real)
    requires e.InUse(f) && weight == e.Weight(f) && jobTotal == JobTotal(e.miners, f) && readyTotal == ReadyTotal(e.miners, f)
    requires readyTotal > 0.0 ==> blend == e.Blend(f)
    ensures readyTotal > 0.0 || jobTotal != 0.0
    ensures IsColumn(e.miners, ColumnOf(e, f), f, weight, jobTotal, readyTotal, blend)
  {
    forall h | h in Eligible(e.miners)
      ensures e.FamilyScore(f, h)
              == weight * PartOf(WorkAt(e.miners, f, h), jobTotal, CapacityAt(e.miners, f, h), readyTotal, blend)
    {
      PartIs(e, f, h, jobTotal, readyTotal, blend);
    }
  }

  method AddMiner(miners: Miners, f: string, h: string, weight: real, jobTotal: real, readyTotal: real, blend: real,
                  ghost column: Tally)
    returns (score: real)
    requires readyTotal > 0.0 || jobTotal != 0.0
    requires IsColumn(miners, column, f, weight, jobTotal, readyTotal, blend) && h in column
    ensures score == ScoreAt(column, h)
  {
    var (work, capacity) := (WorkAt(miners, f, h), CapacityAt(miners, f, h));
    score := FamilyAddition(work, capacity, weight, jobTotal, readyTotal, blend,
                            PartOf(work, jobTotal, capacity, readyTotal, blend));
  }

  lemma ScoreAdded(scored: Tally, after: Tally, column: Tally, done: set<string>, h: string, score: real)
    requires Added(scored, after, column, done) && h !in done && score == ScoreAt(column, h)
    ensures Added(scored, after[h := ScoreAt(after, h) + score], column, done + {h})
  {
  }

  method AddFamily(miners: Miners, scored: Tally, f: string, weight: real, jobTotal: real, readyTotal: real, blend: real,
                   ghost column: Tally)
    returns (after: Tally)
    requires readyTotal > 0.0 || jobTotal != 0.0
    requires IsColumn(miners, column, f, weight, jobTotal, readyTotal, blend)
    ensures Added(scored, after, column, column.Keys)
  {
    after := scored;
    var todo := Eligible(miners);
    ghost var done: set<string> := {};
    while todo != {}
      invariant todo <= column.Keys && done == column.Keys - todo && Added(scored, after, column, done)
      decreases |todo|
    {
      var h :| h in todo;
      var score := AddMiner(miners, f, h, weight, jobTotal, readyTotal, blend, column);
      ScoreAdded(scored, after, column, done, h, score);
      after := after[h := ScoreAt(after, h) + score];
      todo, done := todo - {h}, done + {h};
    }
    assert done == column.Keys;
  }

  /** Each eligible miner's score is its sum over the families done. */
  ghost predicate ScoredSoFar(e: Emission, scored: Tally, done: set<string>) {
    forall h :: ScoreAt(scored, h) == if h in Eligible(e.miners) then ScoreSum(e, done, h) else 0.0
  }

  lemma NothingScored(e: Emission)
    ensures ScoredSoFar(e, map[], {}) && BlendedSoFar(e, e.ready, {})
  {
  }

  lemma ScoredStep(e: Emission, scored: Tally, after: Tally, done: set<string>, f: string)
    requires f !in done && ScoredSoFar(e, scored, done) && Added(scored, after, ColumnOf(e, f), Eligible(e.miners))
    ensures ScoredSoFar(e, after, done + {f})
  {
    forall h ensures ScoreAt(after, h) == if h in Eligible(e.miners) then ScoreSum(e, done + {f}, h) else 0.0 {
      ScoreSumPlus(e, done, f, h);
    }
  }

  /** The blend each family with capacity was paid at. */
  ghost predicate BlendedSoFar(e: Emission, blended: map<string, FamilyCapacity>, done: set<string>) {
    && blended.Keys == e.ready.Keys
    && forall f :: f in e.ready ==>
         blended[f] == if f in done && ReadyTotal(e.miners, f) > 0.0 then e.ready[f].(blend := e.Blend(f)) else e.ready[f]
  }

  lemma WeightIs(e: Emission, f: string, rawTotal: real, totalSplit: real)
    requires f in e.families && rawTotal == e.RawTotal() && totalSplit == e.TotalSplit()
    ensures totalSplit > 0.0 && (if rawTotal == 0.0 then 1.0 else RawSplit(e.switch, f)) / totalSplit == e.Weight(f)
  {
    SplitsPositive(e);
  }

  method ScoreFamily(e: Emission, scored: Tally, blended: map<string, FamilyCapacity>, ghost done: set<string>, f: string,
                          rawTotal: real, totalSplit: real)
    returns (after: Tally, blended': map<string, FamilyCapacity>)
    requires e.AllInUse() && f in e.families && f !in done && rawTotal == e.RawTotal() && totalSplit == e.TotalSplit()
    requires ScoredSoFar(e, scored, done) && BlendedSoFar(e, blended, done)
    ensures ScoredSoFar(e, after, done + {f}) && BlendedSoFar(e, blended', done + {f})
  {
    WeightIs(e, f, rawTotal, totalSplit);
    var weight := (if rawTotal == 0.0 then 1.0 else RawSplit(e.switch, f)) / totalSplit;
    var jobTotal := SumWork(e.miners, Eligible(e.miners), f);
    var readyTotal := SumCapacity(e.miners, Eligible(e.miners), f);
    var blend := 0.0;
    blended' := blended;
    if readyTotal > 0.0 {
      blend := if jobTotal > 0.0 then e.switch.capacityShare * e.ready[f].Utilization() else 1.0;
      blended' := blended[f := blended[f].(blend := blend)];
    }
    ColumnIs(e, f, weight, jobTotal, readyTotal, blend);
    after := AddFamily(e.miners, scored, f, weight, jobTotal, readyTotal, blend, ColumnOf(e, f));
    ScoredStep(e, scored, after, done, f);
  }

  method ScoreFamilies(e: Emission) returns (scored: Tally, blended: map<string, FamilyCapacity>)
    requires e.AllInUse()
    ensures ScoredSoFar(e, scored, e.families) && BlendedSoFar(e, blended, e.families)
  {
    var rawTotal := SumSplits(e.switch, e.families);
    var totalSplit := if rawTotal == 0.0 then |e.families| as real else rawTotal;
    scored, blended := map[], e.ready;
    NothingScored(e);
    var todo := e.families;
    ghost var done: set<string> := {};
    while todo != {}
      invariant todo <= e.families && done == e.families - todo
      invariant ScoredSoFar(e, scored, done) && BlendedSoFar(e, blended, done)
      decreases |todo|
    {
      var f :| f in todo;
      scored, blended := ScoreFamily(e, scored, blended, done, f, rawTotal, totalSplit);
      todo, done := todo - {f}, done + {f};
    }
    assert done == e.families;
  }
}
