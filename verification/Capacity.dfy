/**
  Capacity pay: the verified runs of each GPU, merged, pruned every round and queried over a sliding window.

  The tracker refines a plain log of check times: merging stretches and pruning never change a later answer.
 */
module Capacity {
  import opened Sums

  datatype Gpu = Gpu(hotkey: string, token: string)

  /** The time between two checks, with the profiles the enclave served at the later one. */
  datatype Span = Span(begin: real, end: real, profiles: set<string>)

  datatype Run = Run(start: real, last: real, spans: seq<Span>)

  type Runs = map<Gpu, seq<Run>>

  /** What capacity pay asks: the window, the least uptime, and the families a list of profiles is split over. */
  datatype Query = Query(now: real, windowS: real, minUptimeS: real, families: set<string> -> seq<string>) {
    function Start(): real {
      now - windowS
    }
  }

  // ------------------------------------------------------------ one GPU's runs

  function Continued(run: Run, profiles: set<string>, now: real): Run {
    var n := |run.spans| - 1;
    if run.spans != [] && run.spans[n].profiles == profiles then
      Run(run.start, now, run.spans[n := run.spans[n].(end := now)])
    else
      Run(run.start, now, run.spans + [Span(run.last, now, profiles)])
  }

  /** One check: ignored if not later than the last, a new run after a gap, and otherwise a stretch of the last run. */
  function Checked(runs: seq<Run>, profiles: set<string>, now: real, maxGapS: real): (after: seq<Run>)
    ensures after != []
  {
    var n := |runs| - 1;
    if runs == [] then [Run(now, now, [])]
    else if now <= runs[n].last then runs
    else if now - runs[n].last > maxGapS then runs + [Run(now, now, [])]
    else runs[..n] + [Continued(runs[n], profiles, now)]
  }

  function KeptSpans(spans: seq<Span>, start: real): seq<Span> {
    if spans == [] then []
    else
      var (kept, span) := (KeptSpans(spans[..|spans| - 1], start), spans[|spans| - 1]);
      if span.end > start then kept + [span] else kept
  }

  /** Drops the runs that ended before the horizon, and the stretches that ended before the window. */
  function Pruned(runs: seq<Run>, start: real, horizon: real): seq<Run> {
    if runs == [] then []
    else
      var (kept, run) := (Pruned(runs[..|runs| - 1], start, horizon), runs[|runs| - 1]);
      if run.last >= horizon then kept + [run.(spans := KeptSpans(run.spans, start))] else kept
  }

  function Horizon(now: real, windowS: real, maxGapS: real): real {
    now - Max(windowS, maxGapS)
  }

  // ------------------------------------------------------------ credit

  function Clipped(begin: real, end: real, q: Query): real {
    Max(Min(end, q.now) - Max(begin, q.Start()), 0.0)
  }

  function Count(family: string, served: seq<string>): nat {
    if served == [] then 0
    else Count(family, served[..|served| - 1]) + (if served[|served| - 1] == family then 1 else 0)
  }

  /** The part of a stretch that goes to one family. */
  function Share(family: string, served: seq<string>): real {
    if served == [] then 0.0 else Count(family, served) as real / |served| as real
  }

  function StretchCredit(begin: real, end: real, profiles: set<string>, q: Query, family: string): real {
    Clipped(begin, end, q) * Share(family, q.families(profiles))
  }

  function SpansCredit(spans: seq<Span>, q: Query, family: string): real {
    if spans == [] then 0.0
    else
      var span := spans[|spans| - 1];
      SpansCredit(spans[..|spans| - 1], q, family) + StretchCredit(span.begin, span.end, span.profiles, q, family)
  }

  function RunCredit(run: Run, q: Query, family: string): real {
    if run.last - run.start < q.minUptimeS then 0.0 else SpansCredit(run.spans, q, family)
  }

  function RunsCredit(runs: seq<Run>, q: Query, family: string): real {
    if runs == [] then 0.0
    else RunsCredit(runs[..|runs| - 1], q, family) + RunCredit(runs[|runs| - 1], q, family)
  }

  // ------------------------------------------------------------ the raw log

  datatype Check = Check(at: real, profiles: set<string>)

  /** Checks in increasing order of time. */
  predicate Increasing(log: seq<Check>) {
    forall i, j :: 0 <= i < j < |log| ==> log[i].at < log[j].at
  }

  /** The gap before check i is not longer than the limit. */
  predicate Near(log: seq<Check>, i: int, maxGapS: real) {
    0 < i < |log| && log[i].at - log[i - 1].at <= maxGapS
  }

  /** No gap between the checks from a to b is longer than the limit. */
  predicate Linked(log: seq<Check>, a: int, b: int, maxGapS: real) {
    0 <= a <= b < |log| && forall i :: a < i <= b ==> Near(log, i, maxGapS)
  }

  predicate LongEnough(log: seq<Check>, i: int, maxGapS: real, minUptimeS: real, a: int, b: int) {
    a < i <= b && Linked(log, a, b, maxGapS) && log[b].at - log[a].at >= minUptimeS
  }

  /** The stretch that ends at check i lies in an unbroken series of checks that spans the least uptime. */
  ghost predicate Counts(log: seq<Check>, i: int, maxGapS: real, minUptimeS: real) {
    exists a, b :: LongEnough(log, i, maxGapS, minUptimeS, a, b)
  }

  /** The credit of the first n checks' stretches, read off the log. */
  ghost function LogCredit(log: seq<Check>, n: nat, maxGapS: real, q: Query, family: string): real
    requires n <= |log|
  {
    if n <= 1 then 0.0
    else
      LogCredit(log, n - 1, maxGapS, q, family)
      + if Counts(log, n - 1, maxGapS, q.minUptimeS)
        then StretchCredit(log[n - 2].at, log[n - 1].at, log[n - 1].profiles, q, family)
        else 0.0
  }

  // ------------------------------------------------------------ rounds

  /** One round: the GPUs it proved, with the profiles each enclave served. */
  datatype Round = Round(served: map<Gpu, set<string>>, now: real, windowS: real)

  function RunsOf(runs: Runs, gpu: Gpu): seq<Run> {
    if gpu in runs then runs[gpu] else []
  }

  function PrunedAll(runs: Runs, now: real, windowS: real, maxGapS: real): Runs {
    map gpu | gpu in runs && Pruned(runs[gpu], now - windowS, Horizon(now, windowS, maxGapS)) != []
      :: Pruned(runs[gpu], now - windowS, Horizon(now, windowS, maxGapS))
  }

  function CheckedAll(runs: Runs, served: map<Gpu, set<string>>, now: real, maxGapS: real): Runs {
    runs + map gpu | gpu in served :: Checked(RunsOf(runs, gpu), served[gpu], now, maxGapS)
  }

  function Recorded(runs: Runs, round: Round, maxGapS: real): Runs {
    PrunedAll(CheckedAll(runs, round.served, round.now, maxGapS), round.now, round.windowS, maxGapS)
  }

  function After(rounds: seq<Round>, maxGapS: real): Runs {
    if rounds == [] then map[] else Recorded(After(rounds[..|rounds| - 1], maxGapS), rounds[|rounds| - 1], maxGapS)
  }

  /** A round without checks only prunes. */
  lemma AfterNoChecks(rounds: seq<Round>, now: real, windowS: real, maxGapS: real)
    ensures After(rounds + [Round(map[], now, windowS)], maxGapS) == PrunedAll(After(rounds, maxGapS), now, windowS, maxGapS)
  {
    assert (rounds + [Round(map[], now, windowS)])[..|rounds|] == rounds;
    assert CheckedAll(After(rounds, maxGapS), map[], now, maxGapS) == After(rounds, maxGapS);
  }

  /** The log of one GPU's checks, without those that are not later than the last. */
  function LogOf(rounds: seq<Round>, gpu: Gpu): seq<Check> {
    if rounds == [] then []
    else
      var (log, round) := (LogOf(rounds[..|rounds| - 1], gpu), rounds[|rounds| - 1]);
      if gpu in round.served && (log == [] || round.now > log[|log| - 1].at)
        then log + [Check(round.now, round.served[gpu])]
        else log
  }

  /** A clock that never goes back. */
  predicate Ordered(rounds: seq<Round>) {
    forall i, j :: 0 <= i < j < |rounds| ==> rounds[i].now <= rounds[j].now
  }

  /** The query's window starts no earlier than the window any round pruned to. */
  predicate NothingPruned(rounds: seq<Round>, q: Query) {
    forall i :: 0 <= i < |rounds| ==> rounds[i].now - rounds[i].windowS <= q.Start()
  }

  // ------------------------------------------------------------ runs without merging or pruning

  function Joined(runs: seq<Run>, check: Check, maxGapS: real): seq<Run> {
    var n := |runs| - 1;
    if runs == [] || check.at - runs[n].last > maxGapS then runs + [Run(check.at, check.at, [])]
    else
      var run := runs[n];
      runs[..n] + [Run(run.start, check.at, run.spans + [Span(run.last, check.at, check.profiles)])]
  }

  function RunsOfLog(log: seq<Check>, maxGapS: real): (runs: seq<Run>)
    ensures log != [] ==> runs != [] && runs[|runs| - 1].last == log[|log| - 1].at
    ensures log == [] ==> runs == []
  {
    if log == [] then [] else Joined(RunsOfLog(log[..|log| - 1], maxGapS), log[|log| - 1], maxGapS)
  }

  /** Stretches end one after another, the last of them at the run's last check. */
  predicate WellFormed(run: Run) {
    && (forall i :: 0 <= i < |run.spans| ==> run.spans[i].begin <= run.spans[i].end <= run.last)
    && (run.spans != [] ==> run.spans[|run.spans| - 1].end == run.last)
  }

  predicate AllWellFormed(runs: seq<Run>) {
    && (forall i :: 0 <= i < |runs| ==> WellFormed(runs[i]))
    && (forall i :: 0 <= i < |runs| - 1 ==> runs[i].last <= runs[|runs| - 1].last)
  }

  /** The same open run, and the same credit from it and from the closed ones. */
  predicate SameOpenRun(a: seq<Run>, b: seq<Run>, q: Query, family: string) {
    && a != [] && b != [] && a[|a| - 1].start == b[|b| - 1].start && a[|a| - 1].last == b[|b| - 1].last
    && SpansCredit(a[|a| - 1].spans, q, family) == SpansCredit(b[|b| - 1].spans, q, family)
    && RunsCredit(a[..|a| - 1], q, family) == RunsCredit(b[..|b| - 1], q, family)
  }

  /** The tracked runs and the log's runs answer alike: the same open run, and the same credit from the closed ones; or
      all runs were dropped, with no credit left and too long ago to be continued. */
  predicate Agrees(tracked: seq<Run>, full: seq<Run>, clock: real, maxGapS: real, q: Query, family: string) {
    if tracked == [] then
      RunsCredit(full, q, family) == 0.0 && (full != [] ==> clock - full[|full| - 1].last > maxGapS)
    else
      SameOpenRun(tracked, full, q, family)
  }

  lemma AgreesOnCredit(tracked: seq<Run>, full: seq<Run>, clock: real, maxGapS: real, q: Query, family: string)
    requires Agrees(tracked, full, clock, maxGapS, q, family)
    ensures RunsCredit(tracked, q, family) == RunsCredit(full, q, family)
  {
  }

  // ------------------------------------------------------------ pruning

  lemma SpansCreditPlus(spans: seq<Span>, span: Span, q: Query, family: string)
    ensures SpansCredit(spans + [span], q, family)
            == SpansCredit(spans, q, family) + StretchCredit(span.begin, span.end, span.profiles, q, family)
  {
    assert (spans + [span])[..|spans|] == spans;
  }

  lemma RunsCreditPlus(runs: seq<Run>, run: Run, q: Query, family: string)
    ensures RunsCredit(runs + [run], q, family) == RunsCredit(runs, q, family) + RunCredit(run, q, family)
  {
    assert (runs + [run])[..|runs|] == runs;
  }

  lemma {:induction false} KeptSpansCredit(spans: seq<Span>, start: real, q: Query, family: string)
    requires start <= q.Start()
    ensures SpansCredit(KeptSpans(spans, start), q, family) == SpansCredit(spans, q, family)
  {
    if spans != [] {
      var (front, span) := (spans[..|spans| - 1], spans[|spans| - 1]);
      KeptSpansCredit(front, start, q, family);
      if span.end > start {
        SpansCreditPlus(KeptSpans(front, start), span, q, family);
      } else {
        NothingClipped(span, q, family);
      }
    }
  }

  lemma NothingClipped(span: Span, q: Query, family: string)
    requires span.end <= q.Start()
    ensures StretchCredit(span.begin, span.end, span.profiles, q, family) == 0.0
  {
    assert Clipped(span.begin, span.end, q) == 0.0;
  }

  lemma {:induction false} KeptSpansShape(spans: seq<Span>, start: real)
    ensures forall i :: 0 <= i < |KeptSpans(spans, start)| ==> KeptSpans(spans, start)[i] in spans
    ensures spans != [] && spans[|spans| - 1].end > start ==>
              KeptSpans(spans, start) != [] && KeptSpans(spans, start)[|KeptSpans(spans, start)| - 1] == spans[|spans| - 1]
    ensures (forall i :: 0 <= i < |spans| ==> spans[i].end <= start) ==> KeptSpans(spans, start) == []
  {
    if spans != [] { KeptSpansShape(spans[..|spans| - 1], start); }
  }

  lemma KeptSpansWellFormed(run: Run, start: real)
    requires WellFormed(run)
    ensures WellFormed(run.(spans := KeptSpans(run.spans, start)))
  {
    KeptSpansShape(run.spans, start);
  }

  lemma {:induction false} EndedEarly(spans: seq<Span>, q: Query, family: string)
    requires forall i :: 0 <= i < |spans| ==> spans[i].end <= q.Start()
    ensures SpansCredit(spans, q, family) == 0.0
  {
    if spans != [] {
      EndedEarly(spans[..|spans| - 1], q, family);
      NothingClipped(spans[|spans| - 1], q, family);
    }
  }

  lemma {:induction false} PrunedShape(runs: seq<Run>, start: real, horizon: real, top: real)
    requires forall i :: 0 <= i < |runs| ==> WellFormed(runs[i]) && runs[i].last <= top
    ensures forall i :: 0 <= i < |Pruned(runs, start, horizon)| ==>
              WellFormed(Pruned(runs, start, horizon)[i]) && Pruned(runs, start, horizon)[i].last <= top
  {
    if runs != [] {
      PrunedShape(runs[..|runs| - 1], start, horizon, top);
      KeptSpansWellFormed(runs[|runs| - 1], start);
    }
  }

  lemma PrunedRunCredit(run: Run, start: real, horizon: real, q: Query, family: string)
    requires horizon <= start <= q.Start() && WellFormed(run)
    ensures RunCredit(run.(spans := KeptSpans(run.spans, start)), q, family) == RunCredit(run, q, family)
    ensures run.last < horizon ==> RunCredit(run, q, family) == 0.0
  {
    KeptSpansCredit(run.spans, start, q, family);
    if run.last < horizon { EndedEarly(run.spans, q, family); }
  }

  lemma {:induction false} PrunedCredit(runs: seq<Run>, start: real, horizon: real, q: Query, family: string)
    requires horizon <= start <= q.Start() && forall i :: 0 <= i < |runs| ==> WellFormed(runs[i])
    ensures RunsCredit(Pruned(runs, start, horizon), q, family) == RunsCredit(runs, q, family)
  {
    if runs != [] {
      var (front, run) := (runs[..|runs| - 1], runs[|runs| - 1]);
      PrunedCredit(front, start, horizon, q, family);
      PrunedRunCredit(run, start, horizon, q, family);
      if run.last >= horizon {
        RunsCreditPlus(Pruned(front, start, horizon), run.(spans := KeptSpans(run.spans, start)), q, family);
      }
    }
  }

  lemma {:induction false} AllEnded(runs: seq<Run>, start: real, horizon: real)
    requires forall i :: 0 <= i < |runs| ==> runs[i].last < horizon
    ensures Pruned(runs, start, horizon) == []
  {
    if runs != [] { AllEnded(runs[..|runs| - 1], start, horizon); }
  }

  lemma PrunedWellFormed(runs: seq<Run>, start: real, horizon: real)
    requires AllWellFormed(runs)
    ensures AllWellFormed(Pruned(runs, start, horizon))
  {
    if runs != [] {
      var run := runs[|runs| - 1];
      PrunedShape(runs, start, horizon, run.last);
      if run.last < horizon { AllEnded(runs, start, horizon); }
    }
  }

  lemma PrunedKeepsAgreement(
    tracked: seq<Run>, full: seq<Run>, now: real, windowS: real, maxGapS: real, q: Query, family: string
  )
    requires AllWellFormed(tracked) && Agrees(tracked, full, now, maxGapS, q, family) && now - windowS <= q.Start()
    ensures Agrees(Pruned(tracked, now - windowS, Horizon(now, windowS, maxGapS)), full, now, maxGapS, q, family)
  {
    var (start, horizon) := (now - windowS, Horizon(now, windowS, maxGapS));
    if tracked != [] {
      if tracked[|tracked| - 1].last >= horizon {
        OpenRunKept(tracked, start, horizon, q, family);
      } else {
        AllDropped(tracked, start, horizon, q, family);
        AgreesOnCredit(tracked, full, now, maxGapS, q, family);
      }
    }
  }

  lemma AllDropped(runs: seq<Run>, start: real, horizon: real, q: Query, family: string)
    requires AllWellFormed(runs) && runs != [] && horizon <= start <= q.Start() && runs[|runs| - 1].last < horizon
    ensures Pruned(runs, start, horizon) == [] && RunsCredit(runs, q, family) == 0.0
  {
    AllEnded(runs, start, horizon);
    PrunedCredit(runs, start, horizon, q, family);
  }

  lemma OpenRunKept(runs: seq<Run>, start: real, horizon: real, q: Query, family: string)
    requires AllWellFormed(runs) && runs != [] && horizon <= start <= q.Start() && runs[|runs| - 1].last >= horizon
    ensures SameOpenRun(Pruned(runs, start, horizon), runs, q, family)
  {
    var (front, run) := (runs[..|runs| - 1], runs[|runs| - 1]);
    var kept := Pruned(front, start, horizon);
    PrunedCredit(front, start, horizon, q, family);
    KeptSpansCredit(run.spans, start, q, family);
    assert (kept + [run.(spans := KeptSpans(run.spans, start))])[..|kept|] == kept;
  }

  // ------------------------------------------------------------ one round

  lemma ClippedSplits(a: real, b: real, c: real, q: Query)
    requires a <= b <= c
    ensures Clipped(a, c, q) == Clipped(a, b, q) + Clipped(b, c, q)
  {
  }

  /** Merging two stretches of the same profiles keeps their credit. */
  lemma StretchSplits(a: real, b: real, c: real, profiles: set<string>, q: Query, family: string)
    requires a <= b <= c
    ensures StretchCredit(a, c, profiles, q, family)
            == StretchCredit(a, b, profiles, q, family) + StretchCredit(b, c, profiles, q, family)
  {
    ClippedSplits(a, b, c, q);
    Distribute(Share(family, q.families(profiles)), Clipped(a, b, q), Clipped(b, c, q));
  }

  lemma ContinuedCredit(run: Run, profiles: set<string>, now: real, q: Query, family: string)
    requires WellFormed(run) && run.last < now
    ensures SpansCredit(Continued(run, profiles, now).spans, q, family)
            == SpansCredit(run.spans, q, family) + StretchCredit(run.last, now, profiles, q, family)
  {
    var spans := run.spans;
    if spans != [] && spans[|spans| - 1].profiles == profiles {
      var (front, span) := (spans[..|spans| - 1], spans[|spans| - 1]);
      assert spans[|spans| - 1 := span.(end := now)] == front + [span.(end := now)];
      SpansCreditPlus(front, span.(end := now), q, family);
      StretchSplits(span.begin, run.last, now, profiles, q, family);
    } else {
      SpansCreditPlus(spans, Span(run.last, now, profiles), q, family);
    }
  }

  lemma ContinuedWellFormed(run: Run, profiles: set<string>, now: real)
    requires WellFormed(run) && run.last < now
    ensures WellFormed(Continued(run, profiles, now))
  {
  }

  lemma WellFormedPlus(runs: seq<Run>, run: Run)
    requires (forall i :: 0 <= i < |runs| ==> WellFormed(runs[i]) && runs[i].last <= run.last) && WellFormed(run)
    ensures AllWellFormed(runs + [run])
  {
  }

  lemma CheckedWellFormed(runs: seq<Run>, profiles: set<string>, now: real, maxGapS: real)
    requires AllWellFormed(runs)
    ensures AllWellFormed(Checked(runs, profiles, now, maxGapS))
  {
    if runs == [] || runs[|runs| - 1].last < now {
      WellFormedPlus(runs, Run(now, now, []));
      if runs != [] {
        var run := runs[|runs| - 1];
        ContinuedWellFormed(run, profiles, now);
        WellFormedPlus(runs[..|runs| - 1], Continued(run, profiles, now));
      }
    }
  }

  function JoinedIfLater(runs: seq<Run>, check: Check, maxGapS: real): seq<Run> {
    if runs == [] || check.at > runs[|runs| - 1].last then Joined(runs, check, maxGapS) else runs
  }

  lemma CheckedKeepsAgreement(
    tracked: seq<Run>, full: seq<Run>, clock: real, check: Check, maxGapS: real, q: Query, family: string
  )
    requires AllWellFormed(tracked) && Agrees(tracked, full, clock, maxGapS, q, family)
    requires clock <= check.at && maxGapS > 0.0
    ensures Agrees(Checked(tracked, check.profiles, check.at, maxGapS), JoinedIfLater(full, check, maxGapS),
                   check.at, maxGapS, q, family)
  {
    var (now, n, m) := (check.at, |tracked| - 1, |full| - 1);
    AgreesOnCredit(tracked, full, clock, maxGapS, q, family);
    if tracked == [] || now - tracked[n].last > maxGapS {
      OpenRunsAgree(tracked, Run(now, now, []), full, Run(now, now, []), q, family);
    } else if now > tracked[n].last {
      var f := full[m];
      ContinuedCredit(tracked[n], check.profiles, now, q, family);
      SpansCreditPlus(f.spans, Span(f.last, now, check.profiles), q, family);
      OpenRunsAgree(tracked[..n], Continued(tracked[n], check.profiles, now), full[..m],
                    Run(f.start, now, f.spans + [Span(f.last, now, check.profiles)]), q, family);
    }
  }

  lemma OpenRunsAgree(a: seq<Run>, openA: Run, b: seq<Run>, openB: Run, q: Query, family: string)
    requires RunsCredit(a, q, family) == RunsCredit(b, q, family) && openA.start == openB.start && openA.last == openB.last
    requires SpansCredit(openA.spans, q, family) == SpansCredit(openB.spans, q, family)
    ensures SameOpenRun(a + [openA], b + [openB], q, family)
  {
    assert (a + [openA])[..|a|] == a;
    assert (b + [openB])[..|b|] == b;
  }

  lemma LogLast(rounds: seq<Round>, gpu: Gpu, maxGapS: real)
    requires rounds != []
    ensures RunsOfLog(LogOf(rounds, gpu), maxGapS)
            == LoggedIn(RunsOfLog(LogOf(rounds[..|rounds| - 1], gpu), maxGapS), rounds[|rounds| - 1], gpu, maxGapS)
  {
    var (log, round) := (LogOf(rounds[..|rounds| - 1], gpu), rounds[|rounds| - 1]);
    if gpu in round.served {
      assert (log + [Check(round.now, round.served[gpu])])[..|log|] == log;
    }
  }

  function CheckedIn(runs: seq<Run>, round: Round, gpu: Gpu, maxGapS: real): seq<Run> {
    if gpu in round.served then Checked(runs, round.served[gpu], round.now, maxGapS) else runs
  }

  function PrunedIn(runs: seq<Run>, round: Round, maxGapS: real): seq<Run> {
    Pruned(runs, round.now - round.windowS, Horizon(round.now, round.windowS, maxGapS))
  }

  function LoggedIn(full: seq<Run>, round: Round, gpu: Gpu, maxGapS: real): seq<Run> {
    if gpu in round.served then JoinedIfLater(full, Check(round.now, round.served[gpu]), maxGapS) else full
  }

  lemma RecordedRuns(runs: Runs, round: Round, maxGapS: real, gpu: Gpu)
    ensures RunsOf(Recorded(runs, round, maxGapS), gpu)
            == PrunedIn(CheckedIn(RunsOf(runs, gpu), round, gpu, maxGapS), round, maxGapS)
  {
  }

  /** Over every run of rounds the tracker agrees with the log. */
  lemma {:induction false} TrackerAgrees(rounds: seq<Round>, gpu: Gpu, maxGapS: real, q: Query, family: string)
    requires Ordered(rounds) && NothingPruned(rounds, q) && maxGapS > 0.0 && rounds != []
    ensures AllWellFormed(RunsOf(After(rounds, maxGapS), gpu))
    ensures Agrees(RunsOf(After(rounds, maxGapS), gpu), RunsOfLog(LogOf(rounds, gpu), maxGapS),
                   rounds[|rounds| - 1].now, maxGapS, q, family)
  {
    var (front, round) := (rounds[..|rounds| - 1], rounds[|rounds| - 1]);
    var (tracked, full) := (RunsOf(After(front, maxGapS), gpu), RunsOfLog(LogOf(front, gpu), maxGapS));
    if front != [] {
      TrackerAgrees(front, gpu, maxGapS, q, family);
      assert front[|front| - 1].now <= round.now;
    }
    assert AllWellFormed(tracked) && Agrees(tracked, full, round.now, maxGapS, q, family);
    RoundKeepsAgreement(tracked, full, round, gpu, maxGapS, q, family);
    RecordedRuns(After(front, maxGapS), round, maxGapS, gpu);
    LogLast(rounds, gpu, maxGapS);
  }

  lemma RoundKeepsAgreement(
    tracked: seq<Run>, full: seq<Run>, round: Round, gpu: Gpu, maxGapS: real, q: Query, family: string
  )
    requires AllWellFormed(tracked) && Agrees(tracked, full, round.now, maxGapS, q, family)
    requires round.now - round.windowS <= q.Start() && maxGapS > 0.0
    ensures AllWellFormed(PrunedIn(CheckedIn(tracked, round, gpu, maxGapS), round, maxGapS))
    ensures Agrees(PrunedIn(CheckedIn(tracked, round, gpu, maxGapS), round, maxGapS),
                   LoggedIn(full, round, gpu, maxGapS), round.now, maxGapS, q, family)
  {
    var (checked, full') := (CheckedIn(tracked, round, gpu, maxGapS), LoggedIn(full, round, gpu, maxGapS));
    assert AllWellFormed(checked) by {
      if gpu in round.served { CheckedWellFormed(tracked, round.served[gpu], round.now, maxGapS); }
    }
    assert Agrees(checked, full', round.now, maxGapS, q, family) by {
      if gpu in round.served {
        CheckedKeepsAgreement(tracked, full, round.now, Check(round.now, round.served[gpu]), maxGapS, q, family);
      }
    }
    PrunedWellFormed(checked, round.now - round.windowS, Horizon(round.now, round.windowS, maxGapS));
    PrunedKeepsAgreement(checked, full', round.now, round.windowS, maxGapS, q, family);
  }

  // ------------------------------------------------------------ the log's runs

  /** The stretches between the checks from s on. */
  function Stretches(log: seq<Check>, s: nat): seq<Span> {
    if |log| <= s + 1 then []
    else
      var n := |log| - 1;
      Stretches(log[..n], s) + [Span(log[n - 1].at, log[n].at, log[n].profiles)]
  }

  lemma StretchesPlus(log: seq<Check>, s: nat, k: nat)
    requires s + 1 < k <= |log|
    ensures Stretches(log[..k], s) == Stretches(log[..k - 1], s) + [Span(log[k - 2].at, log[k - 1].at, log[k - 1].profiles)]
  {
    assert log[..k][..k - 1] == log[..k - 1];
  }

  lemma JoinedLast(runs: seq<Run>, run: Run, check: Check, maxGapS: real)
    requires check.at - run.last <= maxGapS
    ensures Joined(runs + [run], check, maxGapS)
            == runs + [Run(run.start, check.at, run.spans + [Span(run.last, check.at, check.profiles)])]
  {
    assert (runs + [run])[..|runs|] == runs;
  }

  /** The last run of a log goes from some check s, which no earlier one is near, to the end. */
  lemma {:induction false} LastRunOfLog(log: seq<Check>, maxGapS: real) returns (s: nat)
    requires log != []
    ensures s < |log| && Linked(log, s, |log| - 1, maxGapS) && !Near(log, s, maxGapS)
    ensures RunsOfLog(log, maxGapS)
            == RunsOfLog(log[..s], maxGapS) + [Run(log[s].at, log[|log| - 1].at, Stretches(log, s))]
  {
    var n := |log| - 1;
    if Near(log, n, maxGapS) {
      var front := log[..n];
      s := LastRunOfLog(front, maxGapS);
      assert front[..s] == log[..s];
      LinkedOn(log, s, maxGapS);
      LastRunGrows(log, s, maxGapS);
    } else {
      s := n;
      NewRunOfLog(log, maxGapS);
    }
  }

  lemma LinkedOn(log: seq<Check>, s: nat, maxGapS: real)
    requires Near(log, |log| - 1, maxGapS) && Linked(log[..|log| - 1], s, |log| - 2, maxGapS)
    ensures Linked(log, s, |log| - 1, maxGapS)
    ensures Near(log, s, maxGapS) <==> Near(log[..|log| - 1], s, maxGapS)
  {
    forall i | s < i < |log| - 1 ensures Near(log, i, maxGapS) {
      assert Near(log[..|log| - 1], i, maxGapS);
    }
  }

  /** A near check prolongs the last run by one stretch. */
  lemma LastRunGrows(log: seq<Check>, s: nat, maxGapS: real)
    requires Near(log, |log| - 1, maxGapS) && s < |log| - 1
    requires RunsOfLog(log[..|log| - 1], maxGapS)
             == RunsOfLog(log[..s], maxGapS) + [Run(log[s].at, log[|log| - 2].at, Stretches(log[..|log| - 1], s))]
    ensures RunsOfLog(log, maxGapS)
            == RunsOfLog(log[..s], maxGapS) + [Run(log[s].at, log[|log| - 1].at, Stretches(log, s))]
  {
    var n := |log| - 1;
    JoinedLast(RunsOfLog(log[..s], maxGapS), Run(log[s].at, log[n - 1].at, Stretches(log[..n], s)), log[n], maxGapS);
  }

  lemma NewRunOfLog(log: seq<Check>, maxGapS: real)
    requires log != [] && !Near(log, |log| - 1, maxGapS)
    ensures RunsOfLog(log, maxGapS)
            == RunsOfLog(log[..|log| - 1], maxGapS) + [Run(log[|log| - 1].at, log[|log| - 1].at, [])]
  {
  }

  lemma BrokenDoesNotCount(log: seq<Check>, i: nat, maxGapS: real, minUptimeS: real)
    requires 0 < i < |log| && !Near(log, i, maxGapS)
    ensures !Counts(log, i, maxGapS, minUptimeS)
  {
  }

  /** Inside the last run a stretch counts when the run is long enough. */
  lemma CountsInBlock(log: seq<Check>, s: nat, i: nat, maxGapS: real, minUptimeS: real)
    requires Increasing(log) && s < i < |log| && Linked(log, s, |log| - 1, maxGapS)
    requires !Near(log, s, maxGapS)
    ensures Counts(log, i, maxGapS, minUptimeS) <==> log[|log| - 1].at - log[s].at >= minUptimeS
  {
    if Counts(log, i, maxGapS, minUptimeS) {
      var a, b :| LongEnough(log, i, maxGapS, minUptimeS, a, b);
      assert a >= s;
      assert log[s].at <= log[a].at && log[b].at <= log[|log| - 1].at;
    } else {
      assert !LongEnough(log, i, maxGapS, minUptimeS, s, |log| - 1);
    }
  }

  /** Before the last run nothing later decides whether a stretch counts. */
  lemma CountsBefore(log: seq<Check>, s: nat, i: nat, maxGapS: real, minUptimeS: real)
    requires i < s < |log| && !Near(log, s, maxGapS)
    ensures Counts(log, i, maxGapS, minUptimeS) <==> Counts(log[..s], i, maxGapS, minUptimeS)
  {
    if Counts(log, i, maxGapS, minUptimeS) {
      var a, b :| LongEnough(log, i, maxGapS, minUptimeS, a, b);
      assert b < s;
      assert LongEnough(log[..s], i, maxGapS, minUptimeS, a, b) by {
        assert forall k :: a < k <= b && Near(log, k, maxGapS) ==> Near(log[..s], k, maxGapS);
      }
    }
    if Counts(log[..s], i, maxGapS, minUptimeS) {
      var a, b :| LongEnough(log[..s], i, maxGapS, minUptimeS, a, b);
      assert LongEnough(log, i, maxGapS, minUptimeS, a, b) by {
        assert forall k :: a < k <= b && Near(log[..s], k, maxGapS) ==> Near(log, k, maxGapS);
      }
    }
  }

  lemma {:induction false} CreditBefore(log: seq<Check>, s: nat, k: nat, maxGapS: real, q: Query, family: string)
    requires k <= s < |log| && !Near(log, s, maxGapS)
    ensures LogCredit(log, k, maxGapS, q, family) == LogCredit(log[..s], k, maxGapS, q, family)
  {
    if k > 1 {
      CreditBefore(log, s, k - 1, maxGapS, q, family);
      CountsBefore(log, s, k - 1, maxGapS, q.minUptimeS);
    }
  }

  lemma {:induction false} CreditInBlock(log: seq<Check>, s: nat, k: nat, maxGapS: real, q: Query, family: string)
    requires Increasing(log) && s < k <= |log| && Linked(log, s, |log| - 1, maxGapS)
    requires !Near(log, s, maxGapS)
    ensures LogCredit(log, k, maxGapS, q, family)
            == LogCredit(log, s, maxGapS, q, family)
               + if log[|log| - 1].at - log[s].at >= q.minUptimeS then SpansCredit(Stretches(log[..k], s), q, family) else 0.0
  {
    if k == s + 1 {
      if s > 0 { BrokenDoesNotCount(log, s, maxGapS, q.minUptimeS); }
    } else {
      CreditInBlock(log, s, k - 1, maxGapS, q, family);
      CountsInBlock(log, s, k - 1, maxGapS, q.minUptimeS);
      StretchesPlus(log, s, k);
      var span := Span(log[k - 2].at, log[k - 1].at, log[k - 1].profiles);
      SpansCreditPlus(Stretches(log[..k - 1], s), span, q, family);
    }
  }

  /** The last run adds its credit to that of the checks before it. */
  lemma LastRunCredit(log: seq<Check>, s: nat, maxGapS: real, q: Query, family: string)
    requires Increasing(log) && s < |log| && Linked(log, s, |log| - 1, maxGapS) && !Near(log, s, maxGapS)
    ensures LogCredit(log, |log|, maxGapS, q, family)
            == LogCredit(log[..s], s, maxGapS, q, family)
               + RunCredit(Run(log[s].at, log[|log| - 1].at, Stretches(log, s)), q, family)
  {
    CreditBefore(log, s, s, maxGapS, q, family);
    CreditInBlock(log, s, |log|, maxGapS, q, family);
    assert log[..|log|] == log;
  }

  /** The credit of the log's runs is what the log's check times say. */
  lemma {:induction false} RunsCreditLog(log: seq<Check>, maxGapS: real, q: Query, family: string)
    requires Increasing(log)
    ensures RunsCredit(RunsOfLog(log, maxGapS), q, family) == LogCredit(log, |log|, maxGapS, q, family)
    decreases |log|
  {
    if log != [] {
      var s := LastRunOfLog(log, maxGapS);
      RunsCreditLog(log[..s], maxGapS, q, family);
      RunsCreditPlus(RunsOfLog(log[..s], maxGapS), Run(log[s].at, log[|log| - 1].at, Stretches(log, s)), q, family);
      LastRunCredit(log, s, maxGapS, q, family);
    }
  }

  lemma {:induction false} LogIncreasing(rounds: seq<Round>, gpu: Gpu)
    ensures Increasing(LogOf(rounds, gpu))
  {
    if rounds != [] { LogIncreasing(rounds[..|rounds| - 1], gpu); }
  }

  /** The tracker's answer is the log's: merging stretches and pruning change no answer about a window that starts no
      earlier than the windows pruned to. */
  lemma TrackerRefinesLog(rounds: seq<Round>, gpu: Gpu, maxGapS: real, q: Query, family: string)
    requires Ordered(rounds) && NothingPruned(rounds, q) && maxGapS > 0.0
    ensures var log := LogOf(rounds, gpu);
            RunsCredit(RunsOf(After(rounds, maxGapS), gpu), q, family) == LogCredit(log, |log|, maxGapS, q, family)
  {
    LogIncreasing(rounds, gpu);
    RunsCreditLog(LogOf(rounds, gpu), maxGapS, q, family);
    if rounds != [] {
      TrackerAgrees(rounds, gpu, maxGapS, q, family);
      AgreesOnCredit(RunsOf(After(rounds, maxGapS), gpu), RunsOfLog(LogOf(rounds, gpu), maxGapS),
                     rounds[|rounds| - 1].now, maxGapS, q, family);
    }
  }

  // ------------------------------------------------------------ at most the window

  function Tally(served: seq<string>): string -> real {
    family => Count(family, served) as real
  }

  function Shares(served: seq<string>): string -> real {
    family => Share(family, served)
  }

  function Only(last: string): string -> real {
    family => if family == last then 1.0 else 0.0
  }

  function StretchCredits(begin: real, end: real, profiles: set<string>, q: Query): string -> real {
    family => StretchCredit(begin, end, profiles, q, family)
  }

  /** What the log credits each family. */
  ghost function LogCredits(log: seq<Check>, n: nat, maxGapS: real, q: Query): string -> real
    requires n <= |log|
  {
    family => LogCredit(log, n, maxGapS, q, family)
  }

  lemma {:induction false} CountsAddUp(families: set<string>, served: seq<string>)
    ensures Sum(families, Tally(served)) <= |served| as real
    ensures (forall f :: f in served ==> f in families) ==> Sum(families, Tally(served)) == |served| as real
  {
    if served == [] {
      SumZero(families, Tally(served));
    } else {
      var (front, last) := (served[..|served| - 1], served[|served| - 1]);
      CountsAddUp(families, front);
      SumPlus(families, Tally(front), Only(last), Tally(served));
      OneOf(families, last);
    }
  }

  lemma OneOf(families: set<string>, last: string)
    ensures Sum(families, Only(last)) == if last in families then 1.0 else 0.0
  {
    if last in families {
      SumSplit(families, Only(last), last);
      SumZero(families - {last}, Only(last));
    } else {
      SumZero(families, Only(last));
    }
  }

  lemma DividedBy(x: real, n: real, k: real)
    requires n > 0.0 && k == 1.0 / n
    ensures k * x == x / n
    ensures x <= n ==> k * x <= 1.0
    ensures x == n ==> k * x == 1.0
  {
  }

  lemma ShareIsScaled(family: string, served: seq<string>, k: real)
    requires served != [] && k == 1.0 / |served| as real
    ensures Shares(served)(family) == Times(k, Tally(served))(family)
  {
    DividedBy(Count(family, served) as real, |served| as real, k);
  }

  lemma SharesScaled(families: set<string>, served: seq<string>, k: real)
    requires served != [] && k == 1.0 / |served| as real
    ensures Sum(families, Shares(served)) == k * Sum(families, Tally(served))
  {
    forall f | f in families ensures Shares(served)(f) == Times(k, Tally(served))(f) { ShareIsScaled(f, served, k); }
    SumScaled(families, k, Tally(served), Shares(served));
  }

  /** A stretch is split over its families without gain, and without loss when all of them are counted. */
  lemma SharesAddUp(families: set<string>, served: seq<string>)
    ensures Sum(families, Shares(served)) <= 1.0
    ensures served != [] && (forall f :: f in served ==> f in families) ==> Sum(families, Shares(served)) == 1.0
  {
    if served == [] {
      SumZero(families, Shares(served));
    } else {
      var k := 1.0 / |served| as real;
      var tally := Sum(families, Tally(served));
      CountsAddUp(families, served);
      SharesScaled(families, served, k);
      DividedBy(tally, |served| as real, k);
    }
  }

  lemma StretchIsScaled(begin: real, end: real, profiles: set<string>, q: Query, family: string)
    ensures StretchCredits(begin, end, profiles, q)(family)
            == Times(Clipped(begin, end, q), Shares(q.families(profiles)))(family)
  {
  }

  lemma ScaledAtMost(families: set<string>, k: real, shares: string -> real, credits: string -> real)
    requires k >= 0.0 && Sum(families, shares) <= 1.0
    requires forall f :: f in families ==> credits(f) == Times(k, shares)(f)
    ensures Sum(families, credits) <= k
  {
    SumScaled(families, k, shares, credits);
    AtMostWhole(k, Sum(families, shares), Sum(families, credits));
  }

  lemma StretchAddsUp(families: set<string>, begin: real, end: real, profiles: set<string>, q: Query)
    ensures Sum(families, StretchCredits(begin, end, profiles, q)) <= Clipped(begin, end, q)
  {
    var (k, shares, credits) := (Clipped(begin, end, q), Shares(q.families(profiles)), StretchCredits(begin, end, profiles, q));
    SharesAddUp(families, q.families(profiles));
    forall f | f in families ensures credits(f) == Times(k, shares)(f) { StretchIsScaled(begin, end, profiles, q, f); }
    ScaledAtMost(families, k, shares, credits);
  }

  lemma AtMostWhole(k: real, part: real, total: real)
    requires k >= 0.0 && part <= 1.0 && total == k * part
    ensures total <= k
  {
  }

  /** However its time is split, one GPU is credited no more than the time between its first and last check that lies in
      the window. */
  lemma {:induction false} CreditWithinWindow(log: seq<Check>, n: nat, maxGapS: real, q: Query, families: set<string>)
    requires Increasing(log) && 0 < n <= |log|
    ensures Sum(families, LogCredits(log, n, maxGapS, q)) <= Clipped(log[0].at, log[n - 1].at, q) <= Max(q.windowS, 0.0)
  {
    if n == 1 {
      SumZero(families, LogCredits(log, n, maxGapS, q));
    } else {
      CreditWithinWindow(log, n - 1, maxGapS, q, families);
      ClippedSplits(log[0].at, log[n - 2].at, log[n - 1].at, q);
      StretchOnTop(log, n, maxGapS, q, families);
    }
  }

  lemma StretchOnTop(log: seq<Check>, n: nat, maxGapS: real, q: Query, families: set<string>)
    requires Increasing(log) && 1 < n <= |log|
    ensures Sum(families, LogCredits(log, n, maxGapS, q))
            <= Sum(families, LogCredits(log, n - 1, maxGapS, q)) + Clipped(log[n - 2].at, log[n - 1].at, q)
  {
    var (total, before) := (LogCredits(log, n, maxGapS, q), LogCredits(log, n - 1, maxGapS, q));
    var stretch := StretchCredits(log[n - 2].at, log[n - 1].at, log[n - 1].profiles, q);
    StretchAddsUp(families, log[n - 2].at, log[n - 1].at, log[n - 1].profiles, q);
    if Counts(log, n - 1, maxGapS, q.minUptimeS) {
      SumPlus(families, before, stretch, total);
    } else {
      SumSame(families, total, before);
    }
  }

  // ------------------------------------------------------------ exactly the verified time

  predicate ServedWithin(served: seq<string>, families: set<string>) {
    served != [] && forall f :: f in served ==> f in families
  }

  /** Every stretch of the log is split over some of the families, and over nothing else. */
  predicate AllServed(log: seq<Check>, q: Query, families: set<string>) {
    forall i :: 0 < i < |log| ==> ServedWithin(q.families(log[i].profiles), families)
  }

  /** From check a to check b none comes later after the one before than the longest gap. */
  predicate NoGap(log: seq<Check>, a: int, b: int, maxGapS: real) {
    0 <= a <= b < |log| && forall k :: a < k <= b ==> log[k].at - log[k - 1].at <= maxGapS
  }

  /** An unbroken series of checks that spans the least uptime. */
  predicate Unbroken(log: seq<Check>, maxGapS: real, minUptimeS: real) {
    log != [] && NoGap(log, 0, |log| - 1, maxGapS) && log[|log| - 1].at - log[0].at >= minUptimeS
  }

  predicate SpansUptime(log: seq<Check>, i: int, maxGapS: real, minUptimeS: real, a: int, b: int) {
    NoGap(log, a, b, maxGapS) && a < i <= b && log[b].at - log[a].at >= minUptimeS
  }

  lemma CountsExactly(log: seq<Check>, i: int, maxGapS: real, minUptimeS: real)
    ensures Counts(log, i, maxGapS, minUptimeS) <==> exists a, b :: SpansUptime(log, i, maxGapS, minUptimeS, a, b)
  {
    if Counts(log, i, maxGapS, minUptimeS) {
      var a, b :| LongEnough(log, i, maxGapS, minUptimeS, a, b);
      LinkedIsNoGap(log, a, b, maxGapS);
      assert SpansUptime(log, i, maxGapS, minUptimeS, a, b);
    }
    if a, b :| SpansUptime(log, i, maxGapS, minUptimeS, a, b) {
      LinkedIsNoGap(log, a, b, maxGapS);
      assert LongEnough(log, i, maxGapS, minUptimeS, a, b);
    }
  }

  /** A stretch that lies in no such series is credited nothing in any family. */
  lemma NoSeriesNoCredit(log: seq<Check>, i: nat, maxGapS: real, q: Query, family: string)
    requires i < |log| && !exists a, b :: SpansUptime(log, i, maxGapS, q.minUptimeS, a, b)
    ensures LogCredit(log, i + 1, maxGapS, q, family) == LogCredit(log, i, maxGapS, q, family)
  {
    CountsExactly(log, i, maxGapS, q.minUptimeS);
  }

  lemma LinkedIsNoGap(log: seq<Check>, a: int, b: int, maxGapS: real)
    ensures Linked(log, a, b, maxGapS) <==> NoGap(log, a, b, maxGapS)
  {
    if 0 <= a <= b < |log| {
      assert forall k :: a < k <= b ==> (Near(log, k, maxGapS) <==> log[k].at - log[k - 1].at <= maxGapS);
    }
  }

  lemma ScaledWhole(families: set<string>, k: real, shares: string -> real, credits: string -> real)
    requires Sum(families, shares) == 1.0
    requires forall f :: f in families ==> credits(f) == Times(k, shares)(f)
    ensures Sum(families, credits) == k
  {
    SumScaled(families, k, shares, credits);
  }

  lemma StretchAddsUpTo(families: set<string>, begin: real, end: real, profiles: set<string>, q: Query)
    requires ServedWithin(q.families(profiles), families)
    ensures Sum(families, StretchCredits(begin, end, profiles, q)) == Clipped(begin, end, q)
  {
    var (k, shares, credits) := (Clipped(begin, end, q), Shares(q.families(profiles)), StretchCredits(begin, end, profiles, q));
    SharesAddUp(families, q.families(profiles));
    forall f | f in families ensures credits(f) == Times(k, shares)(f) { StretchIsScaled(begin, end, profiles, q, f); }
    ScaledWhole(families, k, shares, credits);
  }

  lemma UnbrokenCounts(log: seq<Check>, i: int, maxGapS: real, minUptimeS: real)
    requires Unbroken(log, maxGapS, minUptimeS) && 0 < i < |log|
    ensures Counts(log, i, maxGapS, minUptimeS)
  {
    CountsExactly(log, i, maxGapS, minUptimeS);
    assert SpansUptime(log, i, maxGapS, minUptimeS, 0, |log| - 1);
  }

  lemma {:induction false} SeriesAddsUp(log: seq<Check>, n: nat, maxGapS: real, q: Query, families: set<string>)
    requires Increasing(log) && 0 < n <= |log| && Unbroken(log, maxGapS, q.minUptimeS) && AllServed(log, q, families)
    ensures Sum(families, LogCredits(log, n, maxGapS, q)) == Clipped(log[0].at, log[n - 1].at, q)
  {
    var credits := LogCredits(log, n, maxGapS, q);
    if n == 1 {
      SumZero(families, credits);
    } else {
      SeriesAddsUp(log, n - 1, maxGapS, q, families);
      ClippedSplits(log[0].at, log[n - 2].at, log[n - 1].at, q);
      var stretch := StretchCredits(log[n - 2].at, log[n - 1].at, log[n - 1].profiles, q);
      StretchAddsUpTo(families, log[n - 2].at, log[n - 1].at, log[n - 1].profiles, q);
      UnbrokenCounts(log, n - 1, maxGapS, q.minUptimeS);
      SumPlus(families, LogCredits(log, n - 1, maxGapS, q), stretch, credits);
    }
  }

  /** An unbroken series of checks is credited, over all families together, exactly its time inside the window; one that
      spans the window is credited the whole window. */
  lemma SeriesCredit(log: seq<Check>, maxGapS: real, q: Query, families: set<string>)
    requires Increasing(log) && Unbroken(log, maxGapS, q.minUptimeS) && AllServed(log, q, families)
    ensures var seconds := Min(log[|log| - 1].at, q.now) - Max(log[0].at, q.now - q.windowS);
            Sum(families, LogCredits(log, |log|, maxGapS, q)) == if seconds > 0.0 then seconds else 0.0
    ensures q.windowS >= 0.0 && log[0].at <= q.now - q.windowS && log[|log| - 1].at >= q.now ==>
              Sum(families, LogCredits(log, |log|, maxGapS, q)) == q.windowS
  {
    SeriesAddsUp(log, |log|, maxGapS, q, families);
  }

  lemma {:induction false} CountIsMultiplicity(family: string, served: seq<string>)
    ensures Count(family, served) == multiset(served)[family]
  {
    if served != [] {
      var n := |served| - 1;
      CountIsMultiplicity(family, served[..n]);
      assert served == served[..n] + [served[n]];
    }
  }

  lemma SameShare(served: seq<string>, f: string, g: string)
    requires multiset(served)[f] == multiset(served)[g]
    ensures Share(f, served) == Share(g, served)
    ensures multiset(served)[f] == 0 ==> Share(f, served) == 0.0
  {
    CountIsMultiplicity(f, served);
    CountIsMultiplicity(g, served);
  }

  lemma SameStretch(begin: real, end: real, profiles: set<string>, q: Query, f: string, g: string)
    requires multiset(q.families(profiles))[f] == multiset(q.families(profiles))[g]
    ensures StretchCredit(begin, end, profiles, q, f) == StretchCredit(begin, end, profiles, q, g)
    ensures multiset(q.families(profiles))[f] == 0 ==> StretchCredit(begin, end, profiles, q, f) == 0.0
  {
    SameShare(q.families(profiles), f, g);
  }

  /** Families that every check serves equally often are credited alike, and a family that no check serves gets nothing. */
  lemma {:induction false} EvenSplit(log: seq<Check>, n: nat, maxGapS: real, q: Query, f: string, g: string)
    requires n <= |log|
    requires forall i :: 0 < i < |log| ==> multiset(q.families(log[i].profiles))[f] == multiset(q.families(log[i].profiles))[g]
    ensures LogCredit(log, n, maxGapS, q, f) == LogCredit(log, n, maxGapS, q, g)
    ensures (forall i :: 0 < i < |log| ==> multiset(q.families(log[i].profiles))[f] == 0) ==> LogCredit(log, n, maxGapS, q, f) == 0.0
  {
    if n > 1 {
      EvenSplit(log, n - 1, maxGapS, q, f, g);
      SameStretch(log[n - 2].at, log[n - 1].at, log[n - 1].profiles, q, f, g);
    }
  }

  lemma ShareTimes(served: seq<string>, f: string)
    requires served != []
    ensures Share(f, served) * |served| as real == multiset(served)[f] as real
  {
    CountIsMultiplicity(f, served);
    DividedTimes(Count(f, served) as real, |served| as real);
  }

  lemma DividedTimes(x: real, n: real)
    requires n != 0.0
    ensures x / n * n == x
  {
  }

  /** A family is credited of two checks' time what it is of the families they serve: k times the n-th part for k of n. */
  lemma ShareOfStretch(log: seq<Check>, maxGapS: real, q: Query, f: string, seconds: real, k: nat, n: nat, part: real)
    requires |log| == 2 && Increasing(log) && Unbroken(log, maxGapS, q.minUptimeS)
    requires var served := q.families(log[1].profiles); n == |served| > 0 && k == multiset(served)[f]
    requires seconds == Min(log[1].at, q.now) - Max(log[0].at, q.now - q.windowS) >= 0.0 && part * n as real == seconds
    ensures LogCredit(log, 2, maxGapS, q, f) == k as real * part
  {
    UnbrokenCounts(log, 1, maxGapS, q.minUptimeS);
    OneStretch(log, maxGapS, q, f, seconds, Share(f, q.families(log[1].profiles)));
    ShareTimes(q.families(log[1].profiles), f);
    PartTimes(seconds, Share(f, q.families(log[1].profiles)), n as real, k as real, part, LogCredit(log, 2, maxGapS, q, f));
  }

  lemma OneStretch(log: seq<Check>, maxGapS: real, q: Query, f: string, seconds: real, share: real)
    requires |log| == 2 && Counts(log, 1, maxGapS, q.minUptimeS)
    requires seconds == Clipped(log[0].at, log[1].at, q) && share == Share(f, q.families(log[1].profiles))
    ensures LogCredit(log, 2, maxGapS, q, f) == seconds * share
  {
    assert LogCredit(log, 1, maxGapS, q, f) == 0.0;
  }

  lemma PartTimes(seconds: real, share: real, n: real, k: real, part: real, credit: real)
    requires part * n == seconds && share * n == k && credit == seconds * share
    ensures credit == k * part
  {
    assert seconds * share == part * (share * n);
  }

  /** Every check in a GPU's log is one of a round that proved it. */
  lemma {:induction false} LogFromRounds(rounds: seq<Round>, gpu: Gpu, k: nat) returns (i: nat)
    requires k < |LogOf(rounds, gpu)|
    ensures i < |rounds| && gpu in rounds[i].served
    ensures LogOf(rounds, gpu)[k] == Check(rounds[i].now, rounds[i].served[gpu])
  {
    var front := rounds[..|rounds| - 1];
    if k < |LogOf(front, gpu)| { i := LogFromRounds(front, gpu, k); } else { i := |front|; }
  }

  /** And a round that is later than all before adds its check to the log of each GPU it proved, and to no other. */
  lemma LogGrows(rounds: seq<Round>, round: Round, gpu: Gpu)
    requires forall i :: 0 <= i < |rounds| ==> rounds[i].now < round.now
    ensures LogOf(rounds + [round], gpu)
            == LogOf(rounds, gpu) + if gpu in round.served then [Check(round.now, round.served[gpu])] else []
  {
    assert (rounds + [round])[..|rounds|] == rounds;
    var log := LogOf(rounds, gpu);
    if log != [] {
      var i := LogFromRounds(rounds, gpu, |log| - 1);
      assert rounds[i].now < round.now;
    }
  }

  /** What the tracker credits a GPU in each family. */
  function TrackedCredits(runs: seq<Run>, q: Query): string -> real {
    family => RunsCredit(runs, q, family)
  }

  /** So a tracker that saw such a series of one GPU credits exactly that time, after any merging and pruning. */
  lemma TrackedSeries(rounds: seq<Round>, gpu: Gpu, maxGapS: real, q: Query, families: set<string>)
    requires Ordered(rounds) && NothingPruned(rounds, q) && maxGapS > 0.0
    requires Unbroken(LogOf(rounds, gpu), maxGapS, q.minUptimeS) && AllServed(LogOf(rounds, gpu), q, families)
    ensures var log := LogOf(rounds, gpu);
            var seconds := Min(log[|log| - 1].at, q.now) - Max(log[0].at, q.now - q.windowS);
            Sum(families, TrackedCredits(RunsOf(After(rounds, maxGapS), gpu), q)) == if seconds > 0.0 then seconds else 0.0
  {
    var (log, tracked) := (LogOf(rounds, gpu), TrackedCredits(RunsOf(After(rounds, maxGapS), gpu), q));
    var credits := LogCredits(log, |log|, maxGapS, q);
    assert Sum(families, tracked) == Sum(families, credits) by {
      forall f | f in families ensures tracked(f) == credits(f) { TrackerRefinesLog(rounds, gpu, maxGapS, q, f); }
      SumSame(families, tracked, credits);
    }
    LogIncreasing(rounds, gpu);
    SeriesCredit(log, maxGapS, q, families);
  }

  /** Pruning keeps only runs that last into the horizon, and of them only stretches that end inside the window. */
  lemma {:induction false} PrunedIsRecent(runs: seq<Run>, start: real, horizon: real, i: nat)
    requires i < |Pruned(runs, start, horizon)|
    ensures var run := Pruned(runs, start, horizon)[i];
            run.last >= horizon && forall k :: 0 <= k < |run.spans| ==> run.spans[k].end > start
  {
    var (front, last) := (Pruned(runs[..|runs| - 1], start, horizon), runs[|runs| - 1]);
    if i < |front| { PrunedIsRecent(runs[..|runs| - 1], start, horizon, i); } else { KeptSpansRecent(last.spans, start); }
  }

  lemma {:induction false} KeptSpansRecent(spans: seq<Span>, start: real)
    ensures forall k :: 0 <= k < |KeptSpans(spans, start)| ==> KeptSpans(spans, start)[k].end > start
  {
    if spans != [] { KeptSpansRecent(spans[..|spans| - 1], start); }
  }

  // ------------------------------------------------------------ a miner's credit

  ghost function GpuCredits(runs: Runs, q: Query, family: string): Gpu -> real {
    gpu => RunsCredit(RunsOf(runs, gpu), q, family)
  }

  ghost function GpuLogCredits(rounds: seq<Round>, maxGapS: real, q: Query, family: string): Gpu -> real {
    gpu => LogCredit(LogOf(rounds, gpu), |LogOf(rounds, gpu)|, maxGapS, q, family)
  }

  function Owned(gpus: set<Gpu>, hotkey: string): set<Gpu> {
    set gpu | gpu in gpus && gpu.hotkey == hotkey
  }

  /** Every GPU some round proved. */
  function Seen(rounds: seq<Round>): set<Gpu> {
    if rounds == [] then {} else Seen(rounds[..|rounds| - 1]) + rounds[|rounds| - 1].served.Keys
  }

  lemma {:induction false} TrackedWasSeen(rounds: seq<Round>, maxGapS: real)
    ensures After(rounds, maxGapS).Keys <= Seen(rounds)
  {
    if rounds != [] { TrackedWasSeen(rounds[..|rounds| - 1], maxGapS); }
  }

  /** A miner's tracked credit is what the logs of all its GPUs ever seen say. */
  lemma MinerRefinesLog(rounds: seq<Round>, maxGapS: real, q: Query, hotkey: string, family: string)
    requires Ordered(rounds) && NothingPruned(rounds, q) && maxGapS > 0.0
    ensures Sum(Owned(After(rounds, maxGapS).Keys, hotkey), GpuCredits(After(rounds, maxGapS), q, family))
            == Sum(Owned(Seen(rounds), hotkey), GpuLogCredits(rounds, maxGapS, q, family))
  {
    var runs := After(rounds, maxGapS);
    var (tracked, seen) := (Owned(runs.Keys, hotkey), Owned(Seen(rounds), hotkey));
    TrackedWasSeen(rounds, maxGapS);
    forall gpu | gpu in seen ensures GpuCredits(runs, q, family)(gpu) == GpuLogCredits(rounds, maxGapS, q, family)(gpu) {
      TrackerRefinesLog(rounds, gpu, maxGapS, q, family);
    }
    SumSame(seen, GpuCredits(runs, q, family), GpuLogCredits(rounds, maxGapS, q, family));
    SumSubset(tracked, seen, GpuCredits(runs, q, family));
  }

  /** A GPU's log credits do not depend on the windows the rounds pruned to. */
  lemma {:induction false} LogIgnoresWindows(rounds: seq<Round>, others: seq<Round>, gpu: Gpu)
    requires |rounds| == |others|
    requires forall i :: 0 <= i < |rounds| ==> rounds[i].served == others[i].served && rounds[i].now == others[i].now
    ensures LogOf(rounds, gpu) == LogOf(others, gpu)
  {
    if rounds != [] { LogIgnoresWindows(rounds[..|rounds| - 1], others[..|others| - 1], gpu); }
  }

  /** Two trackers that saw the same checks and pruned to different windows give the same later answers. */
  lemma PruningUnobservable(
    rounds: seq<Round>, others: seq<Round>, gpu: Gpu, maxGapS: real, q: Query, family: string
  )
    requires |rounds| == |others| && Ordered(rounds) && maxGapS > 0.0
    requires forall i :: 0 <= i < |rounds| ==> rounds[i].served == others[i].served && rounds[i].now == others[i].now
    requires NothingPruned(rounds, q) && NothingPruned(others, q)
    ensures RunsCredit(RunsOf(After(rounds, maxGapS), gpu), q, family)
            == RunsCredit(RunsOf(After(others, maxGapS), gpu), q, family)
  {
    TrackerRefinesLog(rounds, gpu, maxGapS, q, family);
    TrackerRefinesLog(others, gpu, maxGapS, q, family);
    LogIgnoresWindows(rounds, others, gpu);
  }

  function FamilyCredits(runs: seq<Run>, q: Query): string -> real {
    family => RunsCredit(runs, q, family)
  }

  /** One GPU is never credited more than the window, over all families together. */
  lemma GpuWithinWindow(rounds: seq<Round>, gpu: Gpu, maxGapS: real, q: Query, families: set<string>)
    requires Ordered(rounds) && NothingPruned(rounds, q) && maxGapS > 0.0
    ensures Sum(families, FamilyCredits(RunsOf(After(rounds, maxGapS), gpu), q)) <= Max(q.windowS, 0.0)
  {
    var (runs, log) := (RunsOf(After(rounds, maxGapS), gpu), LogOf(rounds, gpu));
    forall f | f in families ensures FamilyCredits(runs, q)(f) == LogCredits(log, |log|, maxGapS, q)(f) {
      TrackerRefinesLog(rounds, gpu, maxGapS, q, f);
    }
    SumSame(families, FamilyCredits(runs, q), LogCredits(log, |log|, maxGapS, q));
    if log == [] {
      SumZero(families, LogCredits(log, |log|, maxGapS, q));
    } else {
      LogIncreasing(rounds, gpu);
      CreditWithinWindow(log, |log|, maxGapS, q, families);
    }
  }

  // ------------------------------------------------------------ the tracker

  /** The profiles each proved GPU's enclaves serve; a GPU that several enclaves show is one check. */
  function Served(checks: seq<(Gpu, set<string>)>): map<Gpu, set<string>> {
    if checks == [] then map[]
    else
      var (served, (gpu, profiles)) := (Served(checks[..|checks| - 1]), checks[|checks| - 1]);
      served[gpu := (if gpu in served then served[gpu] else {}) + profiles]
  }

  lemma {:induction false} ServedIsUnion(checks: seq<(Gpu, set<string>)>, gpu: Gpu, profile: string)
    ensures gpu in Served(checks) <==> exists i :: 0 <= i < |checks| && checks[i].0 == gpu
    ensures gpu in Served(checks) ==>
              (profile in Served(checks)[gpu] <==> exists i :: 0 <= i < |checks| && checks[i].0 == gpu && profile in checks[i].1)
  {
    if checks != [] {
      var n := |checks| - 1;
      ServedIsUnion(checks[..n], gpu, profile);
      assert checks[n].0 == gpu ==> gpu in Served(checks);
    }
  }

  type Credit = map<(string, string), real>

  function Credited(credit: Credit, hotkey: string, family: string): real {
    if (hotkey, family) in credit then credit[(hotkey, family)] else 0.0
  }

  predicate Positive(credit: Credit) {
    forall k :: k in credit ==> credit[k] > 0.0
  }

  /** One miner's credit grew by the amounts of each family, the others' did not change. */
  ghost predicate Adds(before: Credit, after: Credit, hotkey: string, amounts: string -> real) {
    && Positive(after)
    && forall h, f :: Credited(after, h, f) == Credited(before, h, f) + if h == hotkey then amounts(f) else 0.0
  }

  ghost function CheckedExcept(runs: Runs, served: map<Gpu, set<string>>, todo: set<Gpu>, now: real, maxGapS: real): Runs {
    runs + map gpu | gpu in served && gpu !in todo :: Checked(RunsOf(runs, gpu), served[gpu], now, maxGapS)
  }

  lemma CheckedEnds(runs: Runs, served: map<Gpu, set<string>>, now: real, maxGapS: real)
    ensures CheckedExcept(runs, served, served.Keys, now, maxGapS) == runs
    ensures CheckedExcept(runs, served, {}, now, maxGapS) == CheckedAll(runs, served, now, maxGapS)
  {
  }

  lemma CheckedOne(runs: Runs, served: map<Gpu, set<string>>, todo: set<Gpu>, now: real, maxGapS: real, gpu: Gpu)
    requires gpu in todo && todo <= served.Keys
    ensures var sofar := CheckedExcept(runs, served, todo, now, maxGapS);
            sofar[gpu := Checked(RunsOf(sofar, gpu), served[gpu], now, maxGapS)]
            == CheckedExcept(runs, served, todo - {gpu}, now, maxGapS)
  {
  }

  ghost function PrunedExcept(runs: Runs, todo: set<Gpu>, now: real, windowS: real, maxGapS: real): Runs {
    map gpu | gpu in runs && (gpu in todo || Pruned(runs[gpu], now - windowS, Horizon(now, windowS, maxGapS)) != [])
      :: if gpu in todo then runs[gpu] else Pruned(runs[gpu], now - windowS, Horizon(now, windowS, maxGapS))
  }

  lemma PrunedOne(runs: Runs, todo: set<Gpu>, now: real, windowS: real, maxGapS: real, gpu: Gpu)
    requires gpu in todo && todo <= runs.Keys
    ensures var sofar := PrunedExcept(runs, todo, now, windowS, maxGapS);
            var kept := Pruned(runs[gpu], now - windowS, Horizon(now, windowS, maxGapS));
            && gpu in sofar && sofar[gpu] == runs[gpu]
            && (if kept != [] then sofar[gpu := kept] else sofar - {gpu})
               == PrunedExcept(runs, todo - {gpu}, now, windowS, maxGapS)
  {
  }

  method CollectServed(checks: seq<(Gpu, set<string>)>) returns (served: map<Gpu, set<string>>)
    ensures served == Served(checks)
  {
    served := map[];
    for i := 0 to |checks|
      invariant served == Served(checks[..i])
    {
      assert checks[..i + 1][..i] == checks[..i];
      var (gpu, profiles) := checks[i];
      served := served[gpu := (if gpu in served then served[gpu] else {}) + profiles];
    }
    assert checks[..|checks|] == checks;
  }

  class CapacityTracker {
    const maxGapS: real
    var runs: Runs
    ghost var history: seq<Round>

    ghost predicate Valid()
      reads this
    {
      maxGapS > 0.0 && runs == After(history, maxGapS)
    }

    constructor (maxGapS: real)
      requires maxGapS > 0.0
      ensures Valid() && this.maxGapS == maxGapS && runs == map[] && history == []
    {
      this.maxGapS := maxGapS;
      runs := map[];
      history := [];
    }

    method Record(checks: seq<(Gpu, set<string>)>, now: real, windowS: real)
      requires Valid()
      modifies this
      ensures Valid() && history == old(history) + [Round(Served(checks), now, windowS)]
    {
      var served := CollectServed(checks);
      CheckServed(served, now);
      PruneRuns(now, windowS);
      history := history + [Round(served, now, windowS)];
      assert history[..|history| - 1] == old(history);
    }

    method CheckServed(served: map<Gpu, set<string>>, now: real)
      modifies this`runs
      ensures runs == CheckedAll(old(runs), served, now, maxGapS)
    {
      var todo := served.Keys;
      CheckedEnds(runs, served, now, maxGapS);
      while todo != {}
        invariant todo <= served.Keys && runs == CheckedExcept(old(runs), served, todo, now, maxGapS)
        decreases |todo|
      {
        var gpu :| gpu in todo;
        CheckedOne(old(runs), served, todo, now, maxGapS, gpu);
        var after := Checked(RunsOf(runs, gpu), served[gpu], now, maxGapS);
        runs := runs[gpu := after];
        todo := todo - {gpu};
      }
    }

    method Prune(now: real, windowS: real)
      requires Valid()
      modifies this
      ensures Valid() && history == old(history) + [Round(map[], now, windowS)]
      ensures runs == PrunedAll(old(runs), now, windowS, maxGapS)
    {
      PruneRuns(now, windowS);
      AfterNoChecks(history, now, windowS, maxGapS);
      history := history + [Round(map[], now, windowS)];
    }

    method PruneRuns(now: real, windowS: real)
      modifies this`runs
      ensures runs == PrunedAll(old(runs), now, windowS, maxGapS)
    {
      var todo := runs.Keys;
      while todo != {}
        invariant todo <= old(runs).Keys && runs == PrunedExcept(old(runs), todo, now, windowS, maxGapS)
        decreases |todo|
      {
        var gpu :| gpu in todo;
        PrunedOne(old(runs), todo, now, windowS, maxGapS, gpu);
        var kept := Pruned(runs[gpu], now - windowS, Horizon(now, windowS, maxGapS));
        runs := if kept != [] then runs[gpu := kept] else runs - {gpu};
        todo := todo - {gpu};
      }
    }

    /** Credit per miner and family, absent where there is none. */
    method GpuSeconds(q: Query) returns (credit: Credit)
      requires Valid()
      ensures Positive(credit)
      ensures forall hotkey, family :: Credited(credit, hotkey, family)
                                       == Sum(Owned(runs.Keys, hotkey), GpuCredits(runs, q, family))
      ensures Ordered(history) && NothingPruned(history, q) ==>
                forall hotkey, family :: Credited(credit, hotkey, family)
                                         == Sum(Owned(Seen(history), hotkey), GpuLogCredits(history, maxGapS, q, family))
    {
      credit := map[];
      var todo := runs.Keys;
      assert forall hotkey :: Owned({}, hotkey) == {};
      while todo != {}
        invariant todo <= runs.Keys && Positive(credit)
        invariant forall hotkey, family :: Credited(credit, hotkey, family)
                                           == Sum(Owned(runs.Keys - todo, hotkey), GpuCredits(runs, q, family))
        decreases |todo|
      {
        var gpu :| gpu in todo;
        var after := AddRuns(credit, gpu.hotkey, runs[gpu], q);
        forall hotkey, family
          ensures Credited(after, hotkey, family)
                  == Sum(Owned(runs.Keys - (todo - {gpu}), hotkey), GpuCredits(runs, q, family))
        {
          OwnedPlus(runs, todo, gpu, hotkey, q, family);
        }
        credit, todo := after, todo - {gpu};
      }
      assert runs.Keys - {} == runs.Keys;
      if Ordered(history) && NothingPruned(history, q) {
        forall hotkey, family { MinerRefinesLog(history, maxGapS, q, hotkey, family); }
      }
    }
  }

  lemma OwnedPlus(runs: Runs, todo: set<Gpu>, gpu: Gpu, hotkey: string, q: Query, family: string)
    requires todo <= runs.Keys && gpu in todo
    ensures Sum(Owned(runs.Keys - (todo - {gpu}), hotkey), GpuCredits(runs, q, family))
            == Sum(Owned(runs.Keys - todo, hotkey), GpuCredits(runs, q, family))
               + if hotkey == gpu.hotkey then RunsCredit(runs[gpu], q, family) else 0.0
  {
    var (before, after) := (Owned(runs.Keys - todo, hotkey), Owned(runs.Keys - (todo - {gpu}), hotkey));
    if hotkey == gpu.hotkey {
      assert after == before + {gpu};
      SumAdd(before, GpuCredits(runs, q, family), gpu);
    } else {
      assert after == before;
    }
  }

  method AddRuns(credit: Credit, hotkey: string, runs: seq<Run>, q: Query) returns (after: Credit)
    requires Positive(credit)
    ensures Adds(credit, after, hotkey, FamilyCredits(runs, q))
  {
    after := credit;
    for i := 0 to |runs|
      invariant Adds(credit, after, hotkey, FamilyCredits(runs[..i], q))
    {
      assert runs[..i + 1][..i] == runs[..i];
      if runs[i].last - runs[i].start >= q.minUptimeS {
        after := AddSpans(after, hotkey, runs[i].spans, q);
      }
    }
    assert runs[..|runs|] == runs;
  }

  function SpanCredits(spans: seq<Span>, q: Query): string -> real {
    family => SpansCredit(spans, q, family)
  }

  method AddSpans(credit: Credit, hotkey: string, spans: seq<Span>, q: Query) returns (after: Credit)
    requires Positive(credit)
    ensures Adds(credit, after, hotkey, SpanCredits(spans, q))
  {
    after := credit;
    for i := 0 to |spans|
      invariant Adds(credit, after, hotkey, SpanCredits(spans[..i], q))
    {
      assert spans[..i + 1][..i] == spans[..i];
      after := AddSpan(after, hotkey, spans[i], q);
    }
    assert spans[..|spans|] == spans;
  }

  method AddEach(credit: Credit, hotkey: string, served: seq<string>, each: real) returns (after: Credit)
    requires Positive(credit) && each > 0.0
    ensures Adds(credit, after, hotkey, EachTimes(each, served))
  {
    after := credit;
    for i := 0 to |served|
      invariant Adds(credit, after, hotkey, EachTimes(each, served[..i]))
    {
      assert served[..i + 1] == served[..i] + [served[i]];
      forall family { OneMore(each, served[..i], served[i], family); }
      var next := after[(hotkey, served[i]) := Credited(after, hotkey, served[i]) + each];
      assert Adds(after, next, hotkey, f => if f == served[i] then each else 0.0);
      after := next;
    }
    assert served[..|served|] == served;
  }

  method AddSpan(credit: Credit, hotkey: string, span: Span, q: Query) returns (after: Credit)
    requires Positive(credit)
    ensures Adds(credit, after, hotkey, StretchCredits(span.begin, span.end, span.profiles, q))
  {
    after := credit;
    var (seconds, served) := (Min(span.end, q.now) - Max(span.begin, q.Start()), q.families(span.profiles));
    if seconds <= 0.0 || served == [] {
      return;
    }
    var each := seconds / |served| as real;
    after := AddEach(after, hotkey, served, each);
    forall family ensures EachTimes(each, served)(family) == StretchCredit(span.begin, span.end, span.profiles, q, family) {
      SplitEvenly(seconds, Count(family, served), |served|);
    }
  }

  function EachTimes(each: real, served: seq<string>): string -> real {
    family => Count(family, served) as real * each
  }

  lemma OneMore(each: real, served: seq<string>, last: string, family: string)
    ensures EachTimes(each, served + [last])(family)
            == EachTimes(each, served)(family) + if family == last then each else 0.0
  {
    assert (served + [last])[..|served|] == served;
    Distribute(each, Count(family, served) as real, 1.0);
  }

  lemma SplitEvenly(seconds: real, count: nat, n: nat)
    requires n > 0
    ensures count as real * (seconds / n as real) == seconds * (count as real / n as real)
  {
  }
}
