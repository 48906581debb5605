/** Serving scores: the ledger's paid work, the gates, the capacity that counts, and the scores of all miners. */
module Scoring {
  import opened Wrappers
  import opened Sums
  import opened Emissions

  // ------------------------------------------------------------ the ledger's work

  datatype Status = Succeeded | Failed | Unfinished

  /** An audited ledger entry; `vcu` is the VCU of its billable seconds. */
  datatype Entry = Entry(
    hotkey: string, finishedAt: Option<real>, profileId: string, status: Status, hasReceipt: bool, tier: string, plan: bool,
    credit: Option<bool>, billableS: Option<real>, billableUsd: Option<real>, vcu: real, minerFault: bool
  )

  /** The window, the family of each profile and the rate of each tier. */
  datatype Context = Context(now: real, windowS: real, profiles: map<string, string>, rates: map<string, real>) {
    predicate Counted(entry: Entry) {
      entry.hotkey != "" && (if entry.finishedAt.Some? then entry.finishedAt.value else 0.0) >= now - windowS
    }

    predicate Delivered(entry: Entry) {
      entry.status == Succeeded && entry.hasReceipt && entry.profileId in profiles
    }

    function Rate(tier: string): real {
      if tier in rates then rates[tier] else 1.0
    }
  }

  const OPEN_TIER := "open"

  /** Seconds to pay for, or none when the entry must not earn. */
  function BillableSeconds(entry: Entry): Option<real> {
    if entry.credit == Some(false) then None else entry.billableS
  }

  /** Only jobs a customer paid for earn job pay; entries that do not say are paid. */
  predicate EarnsJobPay(entry: Entry) {
    entry.billableUsd.None? || entry.billableUsd.value > 0.0
  }

  function Amount(amounts: map<string, real>, f: string): real {
    if f in amounts then amounts[f] else 0.0
  }

  function NewMiner(): Miner {
    Miner(map[], 0, 0, 0, {}, [], map[], 0.0)
  }

  /** A miner's record after one of its entries. */
  function Tallied(miner: Miner, entry: Entry, ctx: Context): Miner {
    if ctx.Delivered(entry) then
      var f := ctx.profiles[entry.profileId];
      var counted := miner.(succeeded := miner.succeeded + 1);
      if BillableSeconds(entry).None? then counted
      else
        var serving := if entry.tier != OPEN_TIER && !entry.plan then counted.(served := counted.served + {f}) else counted;
        if EarnsJobPay(entry) then serving.(work := serving.work[f := Amount(serving.work, f) + entry.vcu * ctx.Rate(entry.tier)])
        else serving.(unpaidJobs := serving.unpaidJobs + 1)
    else if entry.status == Failed && entry.minerFault then miner.(failed := miner.failed + 1)
    else miner
  }

  function TallyOf(ledger: seq<Entry>, ctx: Context): Miners {
    if ledger == [] then map[]
    else
      var (miners, entry) := (TallyOf(ledger[..|ledger| - 1], ctx), ledger[|ledger| - 1]);
      if !ctx.Counted(entry) then miners
      else miners[entry.hotkey := Tallied(if entry.hotkey in miners then miners[entry.hotkey] else NewMiner(), entry, ctx)]
  }

  method TallyLedger(ledger: seq<Entry>, ctx: Context) returns (miners: Miners)
    ensures miners == TallyOf(ledger, ctx)
  {
    miners := map[];
    for i := 0 to |ledger|
      invariant miners == TallyOf(ledger[..i], ctx)
    {
      assert ledger[..i + 1][..i] == ledger[..i];
      var entry := ledger[i];
      if ctx.Counted(entry) {
        var miner := if entry.hotkey in miners then miners[entry.hotkey] else NewMiner();
        miners := miners[entry.hotkey := Tallied(miner, entry, ctx)];
      }
    }
    assert ledger[..|ledger|] == ledger;
  }

  /** An entry of the miner in the window; without a finish time it counts as finished at 0. */
  predicate InWindow(entry: Entry, ctx: Context, h: string) {
    entry.hotkey == h && h != "" && ctx.now - ctx.windowS <= if entry.finishedAt == None then 0.0 else entry.finishedAt.value
  }

  predicate Succeeds(entry: Entry, ctx: Context, h: string) {
    InWindow(entry, ctx, h) && entry.status.Succeeded? && entry.hasReceipt && entry.profileId in ctx.profiles
  }

  predicate Fails(entry: Entry, ctx: Context, h: string) {
    InWindow(entry, ctx, h) && entry.status.Failed? && entry.minerFault
  }

  /** A succeeded job of the family with seconds to bill that was not denied credit. */
  predicate Credits(entry: Entry, ctx: Context, f: string, h: string) {
    Succeeds(entry, ctx, h) && ctx.profiles[entry.profileId] == f && entry.credit != Some(false) && entry.billableS != None
  }

  /** Such a job is paid for unless its row says that no customer paid. */
  predicate Earns(entry: Entry, ctx: Context, f: string, h: string) {
    Credits(entry, ctx, f, h) && (entry.billableUsd.Some? ==> entry.billableUsd.value > 0.0)
  }

  /** On the confidential tier, and rendering something, it shows that the miner can serve the family. */
  predicate Shows(entry: Entry, ctx: Context, f: string, h: string) {
    Credits(entry, ctx, f, h) && entry.tier != "open" && !entry.plan
  }

  /** The VCU of a miner's paid jobs in a family, each times the rate of its tier. */
  function WorkTotal(ledger: seq<Entry>, ctx: Context, f: string, h: string): real {
    if ledger == [] then 0.0
    else
      var entry := ledger[|ledger| - 1];
      WorkTotal(ledger[..|ledger| - 1], ctx, f, h)
      + if Earns(entry, ctx, f, h) then entry.vcu * (if entry.tier in ctx.rates then ctx.rates[entry.tier] else 1.0) else 0.0
  }

  function SucceededCount(ledger: seq<Entry>, ctx: Context, h: string): nat {
    if ledger == [] then 0
    else SucceededCount(ledger[..|ledger| - 1], ctx, h) + (if Succeeds(ledger[|ledger| - 1], ctx, h) then 1 else 0)
  }

  function FailedCount(ledger: seq<Entry>, ctx: Context, h: string): nat {
    if ledger == [] then 0
    else FailedCount(ledger[..|ledger| - 1], ctx, h) + (if Fails(ledger[|ledger| - 1], ctx, h) then 1 else 0)
  }

  /** The tally holds each miner's paid work. */
  lemma {:induction false} TallyWork(ledger: seq<Entry>, ctx: Context, f: string, h: string)
    ensures WorkAt(TallyOf(ledger, ctx), f, h) == WorkTotal(ledger, ctx, f, h)
  {
    if ledger != [] {
      var (miners, entry) := (TallyOf(ledger[..|ledger| - 1], ctx), ledger[|ledger| - 1]);
      TallyWork(ledger[..|ledger| - 1], ctx, f, h);
      var miner := if entry.hotkey in miners then miners[entry.hotkey] else NewMiner();
      if ctx.Counted(entry) { TalliedWork(miner, entry, ctx, f); }
    }
  }

  lemma TalliedWork(miner: Miner, entry: Entry, ctx: Context, f: string)
    requires ctx.Counted(entry)
    ensures Amount(Tallied(miner, entry, ctx).work, f)
            == Amount(miner.work, f) + if Earns(entry, ctx, f, entry.hotkey) then entry.vcu * ctx.Rate(entry.tier) else 0.0
  {
  }

  /** And how many of its jobs succeeded, and how many failed by its fault. */
  lemma {:induction false} TallyCounts(ledger: seq<Entry>, ctx: Context, h: string)
    ensures var miner := if h in TallyOf(ledger, ctx) then TallyOf(ledger, ctx)[h] else NewMiner();
            miner.succeeded == SucceededCount(ledger, ctx, h) && miner.failed == FailedCount(ledger, ctx, h)
  {
    if ledger != [] {
      TallyCounts(ledger[..|ledger| - 1], ctx, h);
    }
  }

  /** A credited job that no customer paid for. */
  predicate Unpaid(entry: Entry, ctx: Context, h: string) {
    && Succeeds(entry, ctx, h) && entry.credit != Some(false) && entry.billableS != None
    && entry.billableUsd.Some? && entry.billableUsd.value <= 0.0
  }

  function UnpaidCount(ledger: seq<Entry>, ctx: Context, h: string): nat {
    if ledger == [] then 0
    else UnpaidCount(ledger[..|ledger| - 1], ctx, h) + (if Unpaid(ledger[|ledger| - 1], ctx, h) then 1 else 0)
  }

  lemma {:induction false} TallyUnpaid(ledger: seq<Entry>, ctx: Context, h: string)
    ensures (if h in TallyOf(ledger, ctx) then TallyOf(ledger, ctx)[h].unpaidJobs else 0) == UnpaidCount(ledger, ctx, h)
  {
    if ledger != [] {
      TallyUnpaid(ledger[..|ledger| - 1], ctx, h);
    }
  }

  predicate Serves(miners: Miners, f: string, h: string) {
    h in miners && f in miners[h].served
  }

  /** It holds the families each miner showed it can serve. */
  lemma {:induction false} TallyServed(ledger: seq<Entry>, ctx: Context, f: string, h: string)
    ensures Serves(TallyOf(ledger, ctx), f, h) <==> exists i :: 0 <= i < |ledger| && Shows(ledger[i], ctx, f, h)
  {
    if ledger != [] {
      var n := |ledger| - 1;
      TallyServed(ledger[..n], ctx, f, h);
      assert Serves(TallyOf(ledger, ctx), f, h) <==> Serves(TallyOf(ledger[..n], ctx), f, h) || Shows(ledger[n], ctx, f, h);
    }
  }

  predicate Fresh(miner: Miner) {
    miner.reasons == [] && miner.capacity == map[] && miner.score == 0.0
  }

  /** Nothing in it is gated, credited or scored yet. */
  lemma {:induction false} TallyFresh(ledger: seq<Entry>, ctx: Context, h: string)
    ensures h in TallyOf(ledger, ctx) ==> Fresh(TallyOf(ledger, ctx)[h])
    ensures h in TallyOf(ledger, ctx) <==> exists i :: 0 <= i < |ledger| && ctx.Counted(ledger[i]) && ledger[i].hotkey == h
  {
    if ledger != [] {
      var n := |ledger| - 1;
      TallyFresh(ledger[..n], ctx, h);
      if ctx.Counted(ledger[n]) { TallyFresh(ledger[..n], ctx, ledger[n].hotkey); }
    }
  }

  predicate Earning(ledger: seq<Entry>, ctx: Context) {
    && (forall i :: 0 <= i < |ledger| ==> ledger[i].vcu >= 0.0)
    && (forall tier :: tier in ctx.rates ==> ctx.rates[tier] >= 0.0)
  }

  lemma {:induction false} WorkNonNegative(ledger: seq<Entry>, ctx: Context, f: string, h: string)
    requires Earning(ledger, ctx)
    ensures WorkTotal(ledger, ctx, f, h) >= 0.0
  {
    if ledger != [] {
      var entry := ledger[|ledger| - 1];
      WorkNonNegative(ledger[..|ledger| - 1], ctx, f, h);
      ProductNonNegative(entry.vcu, ctx.Rate(entry.tier));
    }
  }

  // ------------------------------------------------------------ the gates

  datatype Gates = Gates(attested: set<string>, minSuccess: real, minSamples: nat, penalties: map<string, seq<Reason>>) {
    function Reasons(h: string, miner: Miner): seq<Reason> {
      var total := miner.succeeded + miner.failed;
      (if h !in attested then [NotAttested] else [])
      + (if total >= minSamples && (if total > 0 then miner.succeeded as real / total as real else 1.0) < minSuccess
           then [LowSuccess] else [])
      + (if h in penalties then penalties[h] else [])
    }
  }

  function Gated(miners: Miners, gates: Gates): Miners {
    map h | h in miners.Keys + gates.attested + gates.penalties.Keys ::
      var miner := if h in miners then miners[h] else NewMiner();
      miner.(reasons := gates.Reasons(h, miner))
  }

  ghost function GatedExcept(miners: Miners, gates: Gates, todo: set<string>): Miners {
    map h | h in Gated(miners, gates) && h !in todo :: Gated(miners, gates)[h]
  }

  lemma GatedOne(miners: Miners, gates: Gates, todo: set<string>, h: string)
    requires h in todo && h in Gated(miners, gates)
    ensures GatedExcept(miners, gates, todo)[h := Gated(miners, gates)[h]] == GatedExcept(miners, gates, todo - {h})
  {
  }

  lemma GatedEnds(miners: Miners, gates: Gates)
    ensures GatedExcept(miners, gates, {}) == Gated(miners, gates)
    ensures GatedExcept(miners, gates, miners.Keys + gates.attested + gates.penalties.Keys) == map[]
  {
  }

  method ApplyGates(miners: Miners, gates: Gates) returns (gated: Miners)
    ensures gated == Gated(miners, gates)
  {
    gated := map[];
    var hotkeys := miners.Keys + gates.attested + gates.penalties.Keys;
    var todo := hotkeys;
    GatedEnds(miners, gates);
    while todo != {}
      invariant todo <= hotkeys && gated == GatedExcept(miners, gates, todo)
      decreases |todo|
    {
      var h :| h in todo;
      var miner := if h in miners then miners[h] else NewMiner();
      GatedOne(miners, gates, todo, h);
      gated := gated[h := miner.(reasons := gates.Reasons(h, miner))];
      todo := todo - {h};
    }
  }

  /** An attested enclave, no penalty and, with enough samples, the least success rate; without any job the rate is 1. */
  predicate Passes(gates: Gates, h: string, succeeded: nat, failed: nat) {
    && h in gates.attested && (h in gates.penalties ==> gates.penalties[h] == [])
    && (succeeded + failed >= gates.minSamples ==>
          if succeeded + failed == 0 then gates.minSuccess <= 1.0
          else gates.minSuccess * (succeeded + failed) as real <= succeeded as real)
  }

  lemma ReasonsExactly(gates: Gates, h: string, miner: Miner)
    ensures gates.Reasons(h, miner) == [] <==> Passes(gates, h, miner.succeeded, miner.failed)
  {
    var all := miner.succeeded + miner.failed;
    if all > 0 { RateAtLeast(miner.succeeded as real, all as real, gates.minSuccess); }
  }

  lemma GatedMiner(miners: Miners, gates: Gates, h: string)
    ensures var miner := if h in miners then miners[h] else NewMiner();
            h in Eligible(Gated(miners, gates)) <==> gates.Reasons(h, miner) == [] && h in Gated(miners, gates)
  {
  }

  /** A miner shares in the emission exactly when it passes the gates with the jobs it has in the window. */
  lemma EligibleExactly(ledger: seq<Entry>, ctx: Context, gates: Gates, h: string)
    ensures h in Eligible(Gated(TallyOf(ledger, ctx), gates))
            <==> Passes(gates, h, SucceededCount(ledger, ctx, h), FailedCount(ledger, ctx, h))
  {
    var miners := TallyOf(ledger, ctx);
    var miner := if h in miners then miners[h] else NewMiner();
    TallyCounts(ledger, ctx, h);
    GatedMiner(miners, gates, h);
    ReasonsExactly(gates, h, miner);
  }

  lemma RateAtLeast(good: real, all: real, rate: real)
    requires all > 0.0
    ensures good / all < rate <==> good < rate * all
  {
    Cancels(good, all);
    if good / all < rate { assert (rate - good / all) * all > 0.0; } else { assert (good / all - rate) * all >= 0.0; }
  }

  // ------------------------------------------------------------ gating capacity

  type GpuSeconds = map<string, map<string, real>>

  /** The GPU-seconds of a family that count for a miner that passes the gates. */
  function Creditable(miner: Miner, seconds: map<string, real>, switch: Switch, f: string): real {
    if f in seconds && seconds[f] > 0.0 && f in switch.enabled && switch.Target(f) > 0 && f in miner.served
      then seconds[f]
      else 0.0
  }

  function CreditedAt(miners: Miners, gpu: GpuSeconds, switch: Switch, f: string, h: string): real {
    if h in miners && h in gpu && miners[h].reasons == [] then Creditable(miners[h], gpu[h], switch, f) else 0.0
  }

  function Credited(miners: Miners, gpu: GpuSeconds, switch: Switch, f: string): string -> real {
    h => CreditedAt(miners, gpu, switch, f, h)
  }

  function SecondsOf(families: map<string, FamilyCapacity>, f: string): real {
    if f in families then families[f].gpuSeconds else 0.0
  }

  /** Each family holds positive credit against the switch's target. */
  predicate Counting(families: map<string, FamilyCapacity>, switch: Switch, windowS: real) {
    forall f :: f in families ==>
      && families[f] == FamilyCapacity(switch.Target(f), windowS, families[f].gpuSeconds, 0.0)
      && families[f].gpuSeconds > 0.0 && families[f].target > 0
  }

  method CreditMiner(
    miner: Miner, seconds: map<string, real>, switch: Switch, windowS: real, families: map<string, FamilyCapacity>
  )
    returns (capacity: map<string, real>, families': map<string, FamilyCapacity>)
    requires Counting(families, switch, windowS)
    ensures Counting(families', switch, windowS)
    ensures forall f :: Amount(capacity, f) == Creditable(miner, seconds, switch, f)
    ensures forall f :: SecondsOf(families', f) == SecondsOf(families, f) + Creditable(miner, seconds, switch, f)
  {
    capacity, families' := map[], families;
    var todo := seconds.Keys;
    while todo != {}
      invariant todo <= seconds.Keys && Counting(families', switch, windowS)
      invariant forall f :: Amount(capacity, f) == if f in todo then 0.0 else Creditable(miner, seconds, switch, f)
      invariant forall f :: SecondsOf(families', f)
                            == SecondsOf(families, f) + if f in todo then 0.0 else Creditable(miner, seconds, switch, f)
      decreases |todo|
    {
      var f :| f in todo;
      todo := todo - {f};
      if seconds[f] > 0.0 && f in switch.enabled && switch.Target(f) > 0 && f in miner.served {
        capacity := capacity[f := seconds[f]];
        families' := families'[f := FamilyCapacity(switch.Target(f), windowS, SecondsOf(families', f) + seconds[f], 0.0)];
      }
    }
  }

  /** The miner records with other capacities. */
  ghost predicate OnlyCapacity(before: Miners, after: Miners) {
    after.Keys == before.Keys && forall h :: h in before ==> after[h] == before[h].(capacity := after[h].capacity)
  }

  /** The capacity of every miner not still to do is what it is credited. */
  ghost predicate CreditedSoFar(miners: Miners, after: Miners, gpu: GpuSeconds, switch: Switch, todo: set<string>) {
    forall f, h :: CapacityAt(after, f, h) == if h in todo then 0.0 else CreditedAt(miners, gpu, switch, f, h)
  }

  ghost predicate TotalsSoFar(
    families: map<string, FamilyCapacity>, miners: Miners, gpu: GpuSeconds, switch: Switch, todo: set<string>
  ) {
    forall f :: SecondsOf(families, f) == Sum(miners.Keys - todo, Credited(miners, gpu, switch, f))
  }

  lemma CreditedMiner(
    miners: Miners, after: Miners, gpu: GpuSeconds, switch: Switch, todo: set<string>, hotkey: string, capacity: map<string, real>
  )
    requires hotkey in todo && hotkey in miners && hotkey in gpu && OnlyCapacity(miners, after)
    requires CreditedSoFar(miners, after, gpu, switch, todo)
    requires forall f :: Amount(capacity, f) == CreditedAt(miners, gpu, switch, f, hotkey)
    ensures var next := after[hotkey := after[hotkey].(capacity := capacity)];
            OnlyCapacity(miners, next) && CreditedSoFar(miners, next, gpu, switch, todo - {hotkey})
  {
    var next := after[hotkey := after[hotkey].(capacity := capacity)];
    forall f, h
      ensures CapacityAt(next, f, h) == if h in todo - {hotkey} then 0.0 else CreditedAt(miners, gpu, switch, f, h)
    {
      assert CapacityAt(next, f, h) == if h == hotkey then Amount(capacity, f) else CapacityAt(after, f, h);
    }
  }

  lemma TotalsStep(
    families: map<string, FamilyCapacity>, next: map<string, FamilyCapacity>, miners: Miners, gpu: GpuSeconds, switch: Switch,
    todo: set<string>, hotkey: string
  )
    requires hotkey in todo && TotalsSoFar(families, miners, gpu, switch, todo)
    requires forall f :: SecondsOf(next, f) == SecondsOf(families, f) + CreditedAt(miners, gpu, switch, f, hotkey)
    ensures TotalsSoFar(next, miners, gpu, switch, todo - {hotkey})
  {
    forall f ensures SecondsOf(next, f) == Sum(miners.Keys - (todo - {hotkey}), Credited(miners, gpu, switch, f)) {
      CreditedStep(miners, gpu, switch, f, todo, hotkey);
    }
  }

  lemma NothingYet(miners: Miners, gpu: GpuSeconds, switch: Switch)
    requires forall h :: h in miners ==> miners[h].capacity == map[]
    ensures CreditedSoFar(miners, miners, gpu, switch, gpu.Keys) && TotalsSoFar(map[], miners, gpu, switch, gpu.Keys)
  {
    forall f ensures Sum(miners.Keys - gpu.Keys, Credited(miners, gpu, switch, f)) == 0.0 {
      SumZero(miners.Keys - gpu.Keys, Credited(miners, gpu, switch, f));
    }
  }

  method CreditAll(miners: Miners, gpu: GpuSeconds, switch: Switch, windowS: real)
    returns (after: Miners, families: map<string, FamilyCapacity>)
    requires forall h :: h in miners ==> miners[h].capacity == map[]
    ensures OnlyCapacity(miners, after) && Counting(families, switch, windowS)
    ensures CreditedSoFar(miners, after, gpu, switch, {}) && TotalsSoFar(families, miners, gpu, switch, {})
  {
    after, families := miners, map[];
    var todo := gpu.Keys;
    NothingYet(miners, gpu, switch);
    while todo != {}
      invariant todo <= gpu.Keys && OnlyCapacity(miners, after) && Counting(families, switch, windowS)
      invariant CreditedSoFar(miners, after, gpu, switch, todo) && TotalsSoFar(families, miners, gpu, switch, todo)
      decreases |todo|
    {
      var hotkey :| hotkey in todo;
      if hotkey in miners && miners[hotkey].reasons == [] {
        var capacity, next := CreditMiner(miners[hotkey], gpu[hotkey], switch, windowS, families);
        CreditedMiner(miners, after, gpu, switch, todo, hotkey, capacity);
        TotalsStep(families, next, miners, gpu, switch, todo, hotkey);
        after, families := after[hotkey := after[hotkey].(capacity := capacity)], next;
      } else {
        TotalsStep(families, families, miners, gpu, switch, todo, hotkey);
        assert CreditedSoFar(miners, after, gpu, switch, todo - {hotkey});
      }
      todo := todo - {hotkey};
    }
  }

  lemma CreditedStep(miners: Miners, gpu: GpuSeconds, switch: Switch, f: string, todo: set<string>, hotkey: string)
    requires hotkey in todo
    ensures Sum(miners.Keys - (todo - {hotkey}), Credited(miners, gpu, switch, f))
            == Sum(miners.Keys - todo, Credited(miners, gpu, switch, f)) + CreditedAt(miners, gpu, switch, f, hotkey)
  {
    var rest := miners.Keys - todo;
    if hotkey in miners {
      assert miners.Keys - (todo - {hotkey}) == rest + {hotkey};
      SumAdd(rest, Credited(miners, gpu, switch, f), hotkey);
    } else {
      assert miners.Keys - (todo - {hotkey}) == rest;
    }
  }

  /** One family's capacity is scaled for some miners, and nothing else changed. */
  ghost predicate FamilyScaled(miners: Miners, after: Miners, f: string, scale: real, done: set<string>) {
    && OnlyCapacity(miners, after)
    && forall g, h :: CapacityAt(after, g, h)
                      == if g == f && h in done then CapacityAt(miners, g, h) * scale else CapacityAt(miners, g, h)
  }

  function Rescaled(miner: Miner, f: string, scale: real): Miner {
    if f in miner.capacity then miner.(capacity := miner.capacity[f := miner.capacity[f] * scale]) else miner
  }

  lemma MinerScaled(miners: Miners, after: Miners, f: string, scale: real, done: set<string>, h: string)
    requires FamilyScaled(miners, after, f, scale, done) && h in miners && h !in done
    ensures FamilyScaled(miners, after[h := Rescaled(after[h], f, scale)], f, scale, done + {h})
  {
    var next := after[h := Rescaled(after[h], f, scale)];
    forall g, k
      ensures CapacityAt(next, g, k)
              == if g == f && k in done + {h} then CapacityAt(miners, g, k) * scale else CapacityAt(miners, g, k)
    {
      assert CapacityAt(after, g, k)
             == if g == f && k in done then CapacityAt(miners, g, k) * scale else CapacityAt(miners, g, k);
      assert k != h ==> CapacityAt(next, g, k) == CapacityAt(after, g, k);
    }
  }

  method ScaleFamily(miners: Miners, f: string, scale: real) returns (after: Miners)
    ensures FamilyScaled(miners, after, f, scale, miners.Keys)
  {
    after := miners;
    var todo := miners.Keys;
    while todo != {}
      invariant todo <= miners.Keys && FamilyScaled(miners, after, f, scale, miners.Keys - todo)
      decreases |todo|
    {
      var h :| h in todo;
      MinerScaled(miners, after, f, scale, miners.Keys - todo, h);
      assert miners.Keys - (todo - {h}) == miners.Keys - todo + {h};
      after := after[h := Rescaled(after[h], f, scale)];
      todo := todo - {h};
    }
    assert miners.Keys - {} == miners.Keys;
  }

  /** Every family not still to do is scaled. */
  ghost predicate ScaledSoFar(before: Miners, after: Miners, families: map<string, FamilyCapacity>, todo: set<string>) {
    forall f, h :: CapacityAt(after, f, h)
                   == if f in families && f !in todo then CapacityAt(before, f, h) * families[f].Scale()
                      else CapacityAt(before, f, h)
  }

  method ScaleAll(miners: Miners, families: map<string, FamilyCapacity>) returns (after: Miners)
    ensures OnlyCapacity(miners, after) && ScaledSoFar(miners, after, families, {})
  {
    after := miners;
    var todo := families.Keys;
    while todo != {}
      invariant todo <= families.Keys && OnlyCapacity(miners, after) && ScaledSoFar(miners, after, families, todo)
      decreases |todo|
    {
      var f :| f in todo;
      after := ScaleFamily(after, f, families[f].Scale());
      todo := todo - {f};
    }
  }

  method GateCapacity(miners: Miners, gpu: GpuSeconds, switch: Switch, windowS: real)
    returns (after: Miners, families: map<string, FamilyCapacity>)
    requires forall h :: h in miners ==> miners[h].capacity == map[]
    ensures OnlyCapacity(miners, after) && Counting(families, switch, windowS)
    ensures TotalsSoFar(families, miners, gpu, switch, {})
    ensures forall f, h :: CapacityAt(after, f, h)
                           == if f in families then CreditedAt(miners, gpu, switch, f, h) * families[f].Scale() else 0.0
  {
    var credited;
    credited, families := CreditAll(miners, gpu, switch, windowS);
    after := ScaleAll(credited, families);
    forall f, h | f !in families ensures CreditedAt(miners, gpu, switch, f, h) == 0.0 {
      assert miners.Keys - {} == miners.Keys;
      assert SecondsOf(families, f) == Sum(miners.Keys - {}, Credited(miners, gpu, switch, f));
      NothingCredited(miners, gpu, switch, f, h);
    }
  }

  /** A miner is credited capacity in a family exactly when it passes the gates, has verified seconds of the family, the
      family is enabled and has a target, and the miner served it. */
  lemma CreditedExactly(
    gated: Miners, miners: Miners, gpu: GpuSeconds, switch: Switch, windowS: real, ready: map<string, FamilyCapacity>,
    f: string, h: string
  )
    requires CapacityGated(gated, miners, gpu, switch, windowS, ready)
    ensures CapacityAt(miners, f, h) > 0.0 <==> MayBeCredited(gated, gpu, switch, f, h)
    ensures f in ready <==> exists h :: MayBeCredited(gated, gpu, switch, f, h)
  {
    ReadyExactly(gated, gpu, switch, windowS, ready, f);
    if MayBeCredited(gated, gpu, switch, f, h) {
      ScalePositive(ready[f]);
      PositiveProduct(gpu[h][f], ready[f].Scale());
    }
  }

  predicate MayBeCredited(gated: Miners, gpu: GpuSeconds, switch: Switch, f: string, h: string) {
    && h in gated && gated[h].reasons == [] && h in gpu && f in gpu[h] && gpu[h][f] > 0.0
    && f in switch.enabled && f in switch.capacityTargets && switch.capacityTargets[f] > 0 && f in gated[h].served
  }

  lemma ReadyExactly(
    gated: Miners, gpu: GpuSeconds, switch: Switch, windowS: real, ready: map<string, FamilyCapacity>, f: string
  )
    requires Counting(ready, switch, windowS) && TotalsSoFar(ready, gated, gpu, switch, {})
    ensures f in ready <==> exists h :: MayBeCredited(gated, gpu, switch, f, h)
  {
    var (s, credited) := (gated.Keys - {}, Credited(gated, gpu, switch, f));
    assert SecondsOf(ready, f) == Sum(s, credited);
    if h :| MayBeCredited(gated, gpu, switch, f, h) {
      assert h in s && credited(h) > 0.0;
      SumSplit(s, credited, h);
      SumNonNegative(s - {h}, credited);
    } else {
      forall h | h in s ensures credited(h) == 0.0 { assert !MayBeCredited(gated, gpu, switch, f, h); }
      SumZero(s, credited);
    }
  }

  lemma NothingCredited(miners: Miners, gpu: GpuSeconds, switch: Switch, f: string, h: string)
    requires Sum(miners.Keys, Credited(miners, gpu, switch, f)) == 0.0
    ensures CreditedAt(miners, gpu, switch, f, h) == 0.0
  {
    SumNonNegative(miners.Keys, Credited(miners, gpu, switch, f));
    if h in miners { assert Credited(miners, gpu, switch, f)(h) <= 0.0; }
  }

  /** Scaled credit never exceeds the target over the window, and is scaled only when the window averaged more. */
  lemma ScaleCaps(c: FamilyCapacity)
    requires c.windowS > 0.0 && c.gpuSeconds > 0.0 && c.target > 0
    ensures c.gpuSeconds * c.Scale() == Min(c.gpuSeconds, c.target as real * c.windowS)
    ensures 0.0 < c.Scale() <= 1.0
  {
    QuotientPositive(c.gpuSeconds, c.windowS);
    var average := c.AverageGpus();
    QuotientPositive(c.target as real, average);
    ScaleTimes(c.gpuSeconds, c.windowS, c.target as real, average, c.target as real / average);
  }

  lemma QuotientPositive(x: real, d: real)
    requires x > 0.0 && d > 0.0
    ensures x / d > 0.0
  {
  }

  lemma ScaleTimes(seconds: real, window: real, target: real, average: real, ratio: real)
    requires window > 0.0 && average > 0.0 && seconds > 0.0 && average == seconds / window && ratio == target / average
    ensures seconds * ratio == target * window
    ensures ratio <= 1.0 <==> target * window <= seconds
  {
    assert seconds == average * window;
    assert ratio * average == target;
    assert seconds * ratio == (ratio * average) * window;
    if ratio <= 1.0 { assert seconds * (1.0 - ratio) >= 0.0; } else { assert seconds * (ratio - 1.0) > 0.0; }
  }

  // ------------------------------------------------------------ scores

  /** Families in use: some eligible miner worked in it and the switch enables it, or it pays for capacity. */
  function FamiliesInUse(miners: Miners, switch: Switch, ready: map<string, FamilyCapacity>): set<string> {
    (set h, f | h in Eligible(miners) && f in miners[h].work && miners[h].work[f] > 0.0 && f in switch.enabled :: f) + ready.Keys
  }

  lemma WorkedIsInUse(e: Emission, f: string, h: string)
    requires NonNegative(e.miners) && h in Eligible(e.miners) && WorkAt(e.miners, f, h) > 0.0
    ensures JobTotal(e.miners, f) > 0.0
  {
    WorkSumIs(e.miners, Eligible(e.miners), f);
    SumNonNegative(Eligible(e.miners), Works(e.miners, f));
    assert Works(e.miners, f)(h) <= JobTotal(e.miners, f);
  }

  /** Every miner's capacity is its credit, scaled. */
  ghost predicate ScaledCredit(
    gated: Miners, miners: Miners, gpu: GpuSeconds, switch: Switch, ready: map<string, FamilyCapacity>
  ) {
    forall f, h :: CapacityAt(miners, f, h)
                   == if f in ready then CreditedAt(gated, gpu, switch, f, h) * ready[f].Scale() else 0.0
  }

  /** What gating capacity leaves behind. */
  ghost predicate CapacityGated(
    gated: Miners, miners: Miners, gpu: GpuSeconds, switch: Switch, windowS: real, ready: map<string, FamilyCapacity>
  ) {
    && OnlyCapacity(gated, miners) && Counting(ready, switch, windowS) && TotalsSoFar(ready, gated, gpu, switch, {})
    && ScaledCredit(gated, miners, gpu, switch, ready)
  }

  lemma ScalePositive(c: FamilyCapacity)
    requires c.gpuSeconds >= 0.0 && c.target > 0
    ensures c.Scale() > 0.0
  {
    if c.windowS > 0.0 { QuotientNonNegative(c.gpuSeconds, c.windowS); }
    if c.AverageGpus() > 0.0 { QuotientPositive(c.target as real, c.AverageGpus()); }
  }

  lemma PositiveProduct(x: real, y: real)
    requires x > 0.0 && y > 0.0
    ensures x * y > 0.0
  {
  }

  lemma EligibleOnly(gated: Miners, miners: Miners, gpu: GpuSeconds, switch: Switch, f: string)
    requires OnlyCapacity(gated, miners)
    ensures Sum(Eligible(miners), Credited(gated, gpu, switch, f)) == Sum(gated.Keys - {}, Credited(gated, gpu, switch, f))
  {
    SumSubset(Eligible(miners), gated.Keys - {}, Credited(gated, gpu, switch, f));
  }

  lemma CapacityPoint(gated: Miners, miners: Miners, gpu: GpuSeconds, switch: Switch, f: string, scale: real, h: string)
    requires CapacityAt(miners, f, h) == CreditedAt(gated, gpu, switch, f, h) * scale
    ensures Capacities(miners, f)(h) == Credited(gated, gpu, switch, f)(h) * scale
  {
  }

  lemma ReadyScaled(miners: Miners, f: string, credited: string -> real, scale: real, total: real)
    requires total == Sum(Eligible(miners), credited) && forall h :: Capacities(miners, f)(h) == credited(h) * scale
    ensures ReadyTotal(miners, f) == total * scale
  {
    CapacitySumIs(miners, Eligible(miners), f);
    SumMultiplied(Eligible(miners), credited, scale, Capacities(miners, f));
  }

  lemma TotalOfEligible(gated: Miners, miners: Miners, gpu: GpuSeconds, switch: Switch, ready: map<string, FamilyCapacity>, f: string)
    requires OnlyCapacity(gated, miners) && TotalsSoFar(ready, gated, gpu, switch, {})
    ensures SecondsOf(ready, f) == Sum(Eligible(miners), Credited(gated, gpu, switch, f))
  {
    EligibleOnly(gated, miners, gpu, switch, f);
  }

  lemma CapacitiesScaled(gated: Miners, miners: Miners, gpu: GpuSeconds, switch: Switch, f: string, scale: real)
    requires forall h :: CapacityAt(miners, f, h) == CreditedAt(gated, gpu, switch, f, h) * scale
    ensures forall h :: Capacities(miners, f)(h) == Credited(gated, gpu, switch, f)(h) * scale
  {
    forall h ensures Capacities(miners, f)(h) == Credited(gated, gpu, switch, f)(h) * scale {
      CapacityPoint(gated, miners, gpu, switch, f, scale, h);
    }
  }

  lemma ReadyFromCredit(
    gated: Miners, miners: Miners, gpu: GpuSeconds, switch: Switch, f: string, scale: real, total: real
  )
    requires total == Sum(Eligible(miners), Credited(gated, gpu, switch, f))
    requires forall h :: CapacityAt(miners, f, h) == CreditedAt(gated, gpu, switch, f, h) * scale
    ensures ReadyTotal(miners, f) == total * scale
  {
    CapacitiesScaled(gated, miners, gpu, switch, f, scale);
    ReadyScaled(miners, f, Credited(gated, gpu, switch, f), scale, total);
  }

  lemma ReadyFromGate(
    gated: Miners, miners: Miners, gpu: GpuSeconds, switch: Switch, windowS: real, ready: map<string, FamilyCapacity>,
    f: string, scale: real
  )
    requires CapacityGated(gated, miners, gpu, switch, windowS, ready) && f in ready && scale == ready[f].Scale()
    ensures ReadyTotal(miners, f) == ready[f].gpuSeconds * scale
  {
    var total := SecondsOf(ready, f);
    TotalOfEligible(gated, miners, gpu, switch, ready, f);
    assert forall h :: CapacityAt(miners, f, h) == CreditedAt(gated, gpu, switch, f, h) * scale;
    ReadyFromCredit(gated, miners, gpu, switch, f, scale, total);
  }

  /** After scaling, the capacity credited in a family is its GPU-seconds or the target over the window, the smaller. */
  lemma CreditWithinTarget(
    gated: Miners, miners: Miners, gpu: GpuSeconds, switch: Switch, windowS: real, ready: map<string, FamilyCapacity>, f: string
  )
    requires CapacityGated(gated, miners, gpu, switch, windowS, ready) && f in ready && windowS > 0.0
    ensures ReadyTotal(miners, f) == Min(ready[f].gpuSeconds, switch.Target(f) as real * windowS)
  {
    assert ReadyTotal(miners, f) == ready[f].gpuSeconds * ready[f].Scale() by {
      ReadyFromGate(gated, miners, gpu, switch, windowS, ready, f, ready[f].Scale());
    }
    assert ready[f].gpuSeconds > 0.0 && ready[f].target == switch.Target(f) > 0 && ready[f].windowS == windowS;
    ScaleCaps(ready[f]);
  }

  lemma GatedNonNegative(
    gated: Miners, miners: Miners, gpu: GpuSeconds, switch: Switch, windowS: real, ready: map<string, FamilyCapacity>
  )
    requires CapacityGated(gated, miners, gpu, switch, windowS, ready) && WorkNeverNegative(gated)
    ensures NonNegative(miners)
  {
    forall f, h ensures WorkAt(miners, f, h) >= 0.0 && CapacityAt(miners, f, h) >= 0.0 {
      assert WorkAt(miners, f, h) == WorkAt(gated, f, h);
      if f in ready {
        ScalePositive(ready[f]);
        ProductNonNegative(CreditedAt(gated, gpu, switch, f, h), ready[f].Scale());
      }
    }
  }

  lemma PaidIsReady(
    gated: Miners, miners: Miners, gpu: GpuSeconds, switch: Switch, windowS: real, ready: map<string, FamilyCapacity>, f: string
  )
    requires CapacityGated(gated, miners, gpu, switch, windowS, ready)
    ensures ReadyTotal(miners, f) > 0.0 <==> f in ready
  {
    if f in ready {
      assert ready[f].gpuSeconds > 0.0 && ready[f].Scale() > 0.0 by { ScalePositive(ready[f]); }
      ReadyFromGate(gated, miners, gpu, switch, windowS, ready, f, ready[f].Scale());
      PositiveProduct(ready[f].gpuSeconds, ready[f].Scale());
    } else {
      NoCapacity(miners, f);
    }
  }

  lemma GatedValid(e: Emission, gated: Miners, gpu: GpuSeconds, windowS: real)
    requires e.switch.Valid() && CapacityGated(gated, e.miners, gpu, e.switch, windowS, e.ready)
    requires WorkNeverNegative(gated)
    requires e.families == FamiliesInUse(e.miners, e.switch, e.ready)
    ensures e.Valid()
  {
    GatedNonNegative(gated, e.miners, gpu, e.switch, windowS, e.ready);
    forall f | f in e.families ensures e.InUse(f) {
      PaidIsReady(gated, e.miners, gpu, e.switch, windowS, e.ready, f);
      if f !in e.ready {
        var h :| h in Eligible(e.miners) && f in e.miners[h].work && e.miners[h].work[f] > 0.0;
        WorkedIsInUse(e, f, h);
      }
    }
  }

  lemma NoCapacity(miners: Miners, f: string)
    requires forall h :: CapacityAt(miners, f, h) == 0.0
    ensures ReadyTotal(miners, f) == 0.0
  {
    CapacitySumIs(miners, Eligible(miners), f);
    SumZero(Eligible(miners), Capacities(miners, f));
  }

  lemma WithoutGpus(gated: Miners, switch: Switch, windowS: real)
    requires forall h :: h in gated ==> gated[h].capacity == map[]
    ensures CapacityGated(gated, gated, map[], switch, windowS, map[])
  {
    forall f ensures Sum(gated.Keys - {}, Credited(gated, map[], switch, f)) == 0.0 {
      SumZero(gated.Keys - {}, Credited(gated, map[], switch, f));
    }
  }

  ghost predicate WorkNeverNegative(miners: Miners) {
    forall f, h :: WorkAt(miners, f, h) >= 0.0
  }

  lemma GatedTally(ledger: seq<Entry>, ctx: Context, gates: Gates)
    requires Earning(ledger, ctx)
    ensures var gated := Gated(TallyOf(ledger, ctx), gates);
            && (forall h :: h in gated ==> gated[h].capacity == map[])
            && WorkNeverNegative(gated)
  {
    var (miners, gated) := (TallyOf(ledger, ctx), Gated(TallyOf(ledger, ctx), gates));
    forall h | h in gated ensures gated[h].capacity == map[] { TallyFresh(ledger, ctx, h); }
    forall f, h ensures WorkAt(gated, f, h) >= 0.0 {
      TallyWork(ledger, ctx, f, h);
      WorkNonNegative(ledger, ctx, f, h);
      assert WorkAt(gated, f, h) == WorkAt(miners, f, h);
    }
  }

  /** The GPU-seconds that go into a round: none unless the switch pays for capacity. */
  function GpusPaid(switch: Switch, capacity: Option<GpuSeconds>): GpuSeconds {
    if capacity.Some? && switch.capacityShare > 0.0 then capacity.value else map[]
  }

  method GatedMiners(ledger: seq<Entry>, ctx: Context, gates: Gates) returns (gated: Miners)
    ensures gated == Gated(TallyOf(ledger, ctx), gates)
  {
    var tallied := TallyLedger(ledger, ctx);
    gated := ApplyGates(tallied, gates);
  }

  method PayCapacity(gated: Miners, switch: Switch, capacity: Option<GpuSeconds>, windowS: real)
    returns (miners: Miners, ready: map<string, FamilyCapacity>)
    requires forall h :: h in gated ==> gated[h].capacity == map[]
    ensures CapacityGated(gated, miners, GpusPaid(switch, capacity), switch, windowS, ready)
  {
    if capacity.Some? && switch.capacityShare > 0.0 {
      miners, ready := GateCapacity(gated, capacity.value, switch, windowS);
    } else {
      miners, ready := gated, map[];
      WithoutGpus(gated, switch, windowS);
    }
  }

  /** The miners of an emission with their scores. */
  ghost predicate ScoredBy(e: Emission, scored: Miners) {
    scored.Keys == e.miners.Keys && forall h :: h in scored ==> scored[h] == e.miners[h].(score := ScoreOf(e, h))
  }

  lemma ScoresAttached(e: Emission, scores: Tally)
    requires ScoredSoFar(e, scores, e.families)
    ensures ScoredBy(e, map h | h in e.miners :: e.miners[h].(score := ScoreAt(scores, h)))
  {
    forall h | h in e.miners ensures ScoreAt(scores, h) == ScoreOf(e, h) {
    }
  }

  method ScoreMiners(e: Emission) returns (scored: Miners, blended: map<string, FamilyCapacity>)
    requires e.AllInUse()
    ensures ScoredBy(e, scored) && BlendedSoFar(e, blended, e.families)
  {
    var scores;
    scores, blended := ScoreFamilies(e);
    ScoresAttached(e, scores);
    scored := map h | h in e.miners :: e.miners[h].(score := ScoreAt(scores, h));
  }

  /** The emission of a round: the gated tally with the capacity it pays for, over the families in use. */
  ghost predicate RoundOf(
    ledger: seq<Entry>, ctx: Context, gates: Gates, switch: Switch, capacity: Option<GpuSeconds>, e: Emission
  ) {
    && CapacityGated(Gated(TallyOf(ledger, ctx), gates), e.miners, GpusPaid(switch, capacity), switch, ctx.windowS, e.ready)
    && e.switch == switch && e.families == FamiliesInUse(e.miners, switch, e.ready)
  }

  lemma RoundValid(
    ledger: seq<Entry>, ctx: Context, gates: Gates, switch: Switch, capacity: Option<GpuSeconds>, e: Emission
  )
    requires switch.Valid() && Earning(ledger, ctx) && RoundOf(ledger, ctx, gates, switch, capacity, e)
    ensures e.Valid()
  {
    var gated := Gated(TallyOf(ledger, ctx), gates);
    assert WorkNeverNegative(gated) by { GatedTally(ledger, ctx, gates); }
    GatedValid(e, gated, GpusPaid(switch, capacity), ctx.windowS);
  }

  /** The miner passes the gates and has paid work in the enabled family, or capacity that counts in it. */
  predicate InUseBy(
    ledger: seq<Entry>, ctx: Context, gates: Gates, switch: Switch, capacity: Option<GpuSeconds>, f: string, h: string
  ) {
    && Passes(gates, h, SucceededCount(ledger, ctx, h), FailedCount(ledger, ctx, h)) && f in switch.enabled
    && (WorkTotal(ledger, ctx, f, h) > 0.0
        || (switch.capacityShare > 0.0 && capacity.Some?
            && MayBeCredited(Gated(TallyOf(ledger, ctx), gates), capacity.value, switch, f, h)))
  }

  lemma WorkedExactly(ledger: seq<Entry>, ctx: Context, gates: Gates, e: Emission, f: string, h: string)
    requires OnlyCapacity(Gated(TallyOf(ledger, ctx), gates), e.miners)
    ensures h in Eligible(e.miners) && WorkAt(e.miners, f, h) > 0.0
            <==> Passes(gates, h, SucceededCount(ledger, ctx, h), FailedCount(ledger, ctx, h)) && WorkTotal(ledger, ctx, f, h) > 0.0
  {
    TallyWork(ledger, ctx, f, h);
    EligibleExactly(ledger, ctx, gates, h);
  }

  /** The families a round pays are exactly the enabled ones in which some miner that passes the gates has paid work or
      capacity that counts. */
  lemma FamiliesExactly(
    ledger: seq<Entry>, ctx: Context, gates: Gates, switch: Switch, capacity: Option<GpuSeconds>, e: Emission, f: string
  )
    requires RoundOf(ledger, ctx, gates, switch, capacity, e)
    ensures f in e.families <==> exists h :: InUseBy(ledger, ctx, gates, switch, capacity, f, h)
  {
    var (gated, gpu) := (Gated(TallyOf(ledger, ctx), gates), GpusPaid(switch, capacity));
    ReadyExactly(gated, gpu, switch, ctx.windowS, e.ready, f);
    if f in e.families {
      if f in e.ready {
        var h :| MayBeCredited(gated, gpu, switch, f, h);
        EligibleExactly(ledger, ctx, gates, h);
        assert InUseBy(ledger, ctx, gates, switch, capacity, f, h);
      } else {
        var h :| h in Eligible(e.miners) && WorkAt(e.miners, f, h) > 0.0 && f in switch.enabled;
        WorkedExactly(ledger, ctx, gates, e, f, h);
        assert InUseBy(ledger, ctx, gates, switch, capacity, f, h);
      }
    }
    if h :| InUseBy(ledger, ctx, gates, switch, capacity, f, h) {
      WorkedExactly(ledger, ctx, gates, e, f, h);
    }
  }

  /** Scores and blends change nothing of what makes a family in use. */
  lemma SameFamilies(e: Emission, scored: Miners, blended: map<string, FamilyCapacity>)
    requires ScoredBy(e, scored) && BlendedSoFar(e, blended, e.families)
    ensures FamiliesInUse(scored, e.switch, blended) == FamiliesInUse(e.miners, e.switch, e.ready)
  {
    assert Eligible(scored) == Eligible(e.miners);
    forall h | h in Eligible(scored) ensures scored[h].work == e.miners[h].work {
    }
  }

  /** Every miner's score is its score in the round's emission; so no score is negative, a gated miner's is 0, and they sum
      to 1 when a family is in use, else to 0. */
  method ComputeScores(ledger: seq<Entry>, ctx: Context, gates: Gates, switch: Switch, capacity: Option<GpuSeconds>)
    returns (scored: Miners, blended: map<string, FamilyCapacity>)
    requires switch.Valid() && Earning(ledger, ctx)
    ensures exists e :: RoundOf(ledger, ctx, gates, switch, capacity, e)
                        && ScoredBy(e, scored) && BlendedSoFar(e, blended, e.families)
    ensures FinalSum(scored) == if FamiliesInUse(scored, switch, blended) == {} then 0.0 else 1.0
    ensures forall h :: h in scored ==> scored[h].score >= 0.0 && (scored[h].reasons != [] ==> scored[h].score == 0.0)
  {
    var gated := GatedMiners(ledger, ctx, gates);
    assert forall h :: h in gated ==> gated[h].capacity == map[] by { GatedTally(ledger, ctx, gates); }
    var miners, ready := PayCapacity(gated, switch, capacity, ctx.windowS);
    var e := Emission(miners, FamiliesInUse(miners, switch, ready), ready, switch);
    assert RoundOf(ledger, ctx, gates, switch, capacity, e);
    RoundValid(ledger, ctx, gates, switch, capacity, e);
    scored, blended := ScoreMiners(e);
    SameFamilies(e, scored, blended);
    ScoresConserved(scored, e);
  }

  function FinalScoreAt(scored: Miners, h: string): real {
    if h in scored then scored[h].score else 0.0
  }

  function FinalScores(scored: Miners): string -> real {
    h => FinalScoreAt(scored, h)
  }

  ghost function FinalSum(scored: Miners): real {
    Sum(scored.Keys, FinalScores(scored))
  }

  /** The scores of a round are non-negative, 0 for every gated miner, and sum to 1 when a family is in use, else to 0. */
  lemma ScoresConserved(scored: Miners, e: Emission)
    requires e.Valid() && ScoredBy(e, scored)
    ensures FinalSum(scored) == if e.families == {} then 0.0 else 1.0
    ensures forall h :: h in scored ==> scored[h].score >= 0.0 && (scored[h].reasons != [] ==> scored[h].score == 0.0)
  {
    EmissionConserved(e);
    SumSame(scored.Keys, FinalScores(scored), Scores(e));
    forall h | h in scored ensures scored[h].score >= 0.0 && (scored[h].reasons != [] ==> scored[h].score == 0.0) {
      ScoresNonNegative(e, h);
    }
  }

  lemma NothingReady(
    ledger: seq<Entry>, ctx: Context, gates: Gates, switch: Switch, capacity: Option<GpuSeconds>, e: Emission
  )
    requires RoundOf(ledger, ctx, gates, switch, capacity, e) && (capacity.None? || switch.capacityShare == 0.0)
    requires switch.Valid()
    ensures e.ready == map[] && NoCapacityCredit(e.miners)
  {
    var gated := Gated(TallyOf(ledger, ctx), gates);
    forall g ensures g !in e.ready {
      SumZero(gated.Keys - {}, Credited(gated, map[], switch, g));
      assert SecondsOf(e.ready, g) == 0.0;
    }
  }

  lemma SameJobTotal(miners: Miners, other: Miners, f: string)
    requires OnlyCapacity(miners, other)
    ensures JobTotal(miners, f) == JobTotal(other, f)
  {
    assert Eligible(miners) == Eligible(other);
    WorkSumIs(miners, Eligible(miners), f);
    WorkSumIs(other, Eligible(miners), f);
    SumSame(Eligible(miners), Works(miners, f), Works(other, f));
  }

  /** Emissions over the same work, without capacity, pay the same for work. */
  lemma SameWorkPay(e: Emission, e': Emission, f: string, h: string)
    requires OnlyCapacity(e.miners, e'.miners) && e.families == e'.families && e.switch == e'.switch
    ensures WorkPay(e, f, h) == WorkPay(e', f, h)
  {
    SameJobTotal(e.miners, e'.miners, f);
    SameWeight(e, e', f);
  }

  lemma SameWeight(e: Emission, e': Emission, f: string)
    requires e.families == e'.families && e.switch == e'.switch
    ensures e.Weight(f) == e'.Weight(f)
  {
  }

  /** With a capacity share of 0 every score is exactly the VCU score, the one of a round that knows of no GPU time. */
  lemma VcuOnly(
    ledger: seq<Entry>, ctx: Context, gates: Gates, switch: Switch, capacity: Option<GpuSeconds>, e: Emission, e': Emission, h: string
  )
    requires switch.Valid() && Earning(ledger, ctx) && switch.capacityShare == 0.0
    requires RoundOf(ledger, ctx, gates, switch, capacity, e) && RoundOf(ledger, ctx, gates, switch, None, e')
    ensures ScoreOf(e, h) == VcuScore(e, h) == ScoreOf(e', h)
  {
    RoundValid(ledger, ctx, gates, switch, capacity, e);
    RoundValid(ledger, ctx, gates, switch, None, e');
    NothingReady(ledger, ctx, gates, switch, capacity, e);
    NothingReady(ledger, ctx, gates, switch, None, e');
    WithoutCapacity(e, h);
    WithoutCapacity(e', h);
    assert OnlyCapacity(e.miners, e'.miners);
    assert Eligible(e.miners) == Eligible(e'.miners);
    SameFamiliesInUse(e.miners, e'.miners, switch);
    forall f | f in e.families ensures WorkPays(e, h)(f) == WorkPays(e', h)(f) { SameWorkPay(e, e', f, h); }
    SumSame(e.families, WorkPays(e, h), WorkPays(e', h));
  }

  lemma SameFamiliesInUse(miners: Miners, other: Miners, switch: Switch)
    requires OnlyCapacity(miners, other)
    ensures FamiliesInUse(miners, switch, map[]) == FamiliesInUse(other, switch, map[])
  {
    assert Eligible(miners) == Eligible(other);
    assert forall h :: h in Eligible(miners) ==> miners[h].work == other[h].work;
  }

  /** Weights: none when nothing scores, else the positive scores in proportion; they sum to 1 when no score is negative,
      and scores that already do are kept as they are. */
  method Normalize(scored: Miners) returns (weights: Tally)
    ensures FinalSum(scored) <= 0.0 ==> weights == map[]
    ensures FinalSum(scored) > 0.0 ==> Proportional(scored, weights)
    ensures FinalSum(scored) > 0.0 && NoneNegative(scored) ==> Sum(weights.Keys, WeightsOf(weights)) == 1.0
    ensures FinalSum(scored) == 1.0 ==> forall h :: h in weights ==> weights[h] == scored[h].score
  {
    var total := SumOver(scored.Keys, FinalScores(scored));
    if total <= 0.0 {
      return map[];
    }
    weights := map h | h in scored && scored[h].score > 0.0 :: scored[h].score / total;
    InProportion(scored, total, weights);
    if NoneNegative(scored) { ProportionalSum(scored, weights); }
  }

  ghost predicate NoneNegative(scored: Miners) {
    forall h :: h in scored ==> scored[h].score >= 0.0
  }

  ghost predicate Proportional(scored: Miners, weights: Tally) {
    && (forall h :: h in weights <==> h in scored && scored[h].score > 0.0)
    && forall h :: h in weights ==> weights[h] * FinalSum(scored) == scored[h].score
  }

  ghost function WeightsOf(weights: Tally): string -> real {
    h => ScoreAt(weights, h)
  }

  lemma InProportion(scored: Miners, total: real, weights: Tally)
    requires total == FinalSum(scored) > 0.0
    requires forall h :: h in weights <==> h in scored && scored[h].score > 0.0
    requires forall h :: h in weights ==> weights[h] == scored[h].score / total
    ensures Proportional(scored, weights)
  {
    forall h | h in weights ensures weights[h] * total == scored[h].score { Cancels(scored[h].score, total); }
  }

  lemma ProportionalSum(scored: Miners, weights: Tally)
    requires FinalSum(scored) > 0.0 && NoneNegative(scored) && Proportional(scored, weights)
    ensures Sum(weights.Keys, WeightsOf(weights)) == 1.0
  {
    var total := FinalSum(scored);
    assert total == Sum(weights.Keys, FinalScores(scored)) by {
      SumSubset(weights.Keys, scored.Keys, FinalScores(scored));
    }
    forall h | h in weights.Keys ensures WeightsOf(weights)(h) == Times(1.0 / total, FinalScores(scored))(h) {
      FractionIs(weights[h], total, FinalScoreAt(scored, h));
    }
    SumFractions(weights.Keys, FinalScores(scored), total, WeightsOf(weights));
  }

  lemma FractionIs(fraction: real, total: real, score: real)
    requires total != 0.0 && fraction * total == score
    ensures fraction == 1.0 / total * score
  {
  }
}
