/**
 The repetition plan and the benchmark run (scripts/benchmark-governed-rollback.ts).
 Directories, artifact bodies and the sanitizer are not part of this model: a trial either throws
 before its observation is retained, or retains it together with its artifact problems.
 */
module RollbackRun {
  import opened Wrappers
  import opened Campaign
  import opened Rollback
  import opened RollbackVerdict

  datatype Repetition = Repetition(repetition: nat, environmentRebuild: nat)

  // ---------------------------------------------------------------------------------------
  // The plan
  // ---------------------------------------------------------------------------------------

  function RebuildOf(k: nat, n: nat): nat
    requires n > 0
  {
    k * 3 / n
  }

  function Plan(n: int): Result<seq<Repetition>, string> {
    if n > MAX_SAFE_INTEGER || n < 3 then Err("REPETITION_PLAN_INVALID")
    else Ok(seq(n, k requires 0 <= k < n => Repetition(k + 1, RebuildOf(k, n))))
  }

  /** Where block `b` of a plan of `n` repetitions starts. */
  function BlockStart(n: nat, b: nat): nat { (b * n + 2) / 3 }

  lemma QuotientBounds(x: nat, n: nat, q: nat)
    requires n > 0
    ensures x / n == q <==> q * n <= x < q * n + n
  {
    var r := x % n;
    assert x == x / n * n + r;
    if q * n <= x < q * n + n {
      if x / n < q { MulStep(x / n, q, n); }
      if x / n > q { MulStep(q, x / n, n); }
    }
  }

  lemma MulStep(a: nat, b: nat, n: nat)
    requires a < b
    ensures a * n + n <= b * n
  {
    assert (a + 1) * n <= b * n;
  }

  lemma MulCancel(a: nat, b: nat, n: nat)
    requires a * n < b * n
    ensures a < b
  {
  }

  /** Repetition `k` belongs to block `b` exactly when it lies between the block's ends. */
  lemma RebuildIsBlock(n: nat, k: nat, b: nat)
    requires n > 0 && k < n && b <= 2
    ensures RebuildOf(k, n) == b <==> BlockStart(n, b) <= k < BlockStart(n, b + 1)
  {
    QuotientBounds(k * 3, n, b);
    CeilingBound(b * n, k);
    CeilingBound((b + 1) * n, k);
  }

  lemma CeilingBound(x: nat, k: nat)
    ensures (x + 2) / 3 <= k <==> x <= 3 * k
  {
  }

  /**
   For every `n` of at least 3 the plan is a split into exactly three contiguous non-empty blocks
   in order, whose sizes differ by at most one.
   */
  lemma PlanSplits(n: nat)
    requires 3 <= n <= MAX_SAFE_INTEGER
    ensures Plan(n).Ok? && |Plan(n).value| == n
    ensures BlockStart(n, 0) == 0 && BlockStart(n, 3) == n
    ensures forall b :: 0 <= b <= 2 ==> n / 3 <= BlockStart(n, b + 1) - BlockStart(n, b) <= n / 3 + 1
    ensures forall k :: 0 <= k < n ==>
              && Plan(n).value[k].repetition == k + 1 && Plan(n).value[k].environmentRebuild <= 2
              && var b := Plan(n).value[k].environmentRebuild; BlockStart(n, b) <= k < BlockStart(n, b + 1)
    ensures forall j, k :: 0 <= j <= k < n ==>
              Plan(n).value[j].environmentRebuild <= Plan(n).value[k].environmentRebuild
  {
    BlockSizes(n);
    forall k | 0 <= k < n
      ensures RebuildOf(k, n) <= 2
      ensures BlockStart(n, RebuildOf(k, n)) <= k < BlockStart(n, RebuildOf(k, n) + 1)
    {
      RebuildIsBlock(n, k, 0);
      RebuildIsBlock(n, k, 1);
      RebuildIsBlock(n, k, 2);
    }
    forall j, k | 0 <= j <= k < n ensures RebuildOf(j, n) <= RebuildOf(k, n) {
      QuotientBounds(j * 3, n, RebuildOf(j, n));
      QuotientBounds(k * 3, n, RebuildOf(k, n));
      MulCancel(RebuildOf(j, n), RebuildOf(k, n) + 1, n);
    }
  }

  lemma BlockSizes(n: nat)
    ensures BlockStart(n, 0) == 0 && BlockStart(n, 3) == n
    ensures forall b :: 0 <= b <= 2 ==> n / 3 <= BlockStart(n, b + 1) - BlockStart(n, b) <= n / 3 + 1
  {
  }

  lemma BlocksOrdered(n: nat, a: nat, b: nat)
    requires a <= b <= 3
    ensures BlockStart(n, a) <= BlockStart(n, b)
  {
  }

  function RebuildsUsed(plan: seq<Repetition>, m: nat): set<nat>
    requires m <= |plan|
  {
    set k | 0 <= k < m :: plan[k].environmentRebuild
  }

  /** A whole plan uses three environments. */
  lemma WholePlanUsesThree(n: nat)
    requires 3 <= n <= MAX_SAFE_INTEGER
    ensures RebuildsUsed(Plan(n).value, n) == {0, 1, 2}
  {
    PlanSplits(n);
    var plan := Plan(n).value;
    forall b | b in {0, 1, 2} ensures b in RebuildsUsed(plan, n) {
      var k := BlockStart(n, b);
      BlocksOrdered(n, b + 1, 3);
      RebuildIsBlock(n, k, b);
      assert plan[k].environmentRebuild == b;
    }
    assert RebuildsUsed(plan, n) <= {0, 1, 2};
  }

  // ---------------------------------------------------------------------------------------
  // The run
  // ---------------------------------------------------------------------------------------

  /** What running one planned repetition came to. */
  datatype Outcome = Threw(code: string) | Retained(trial: Trial, problems: set<string>)

  /** An observation as written to the raw events: `labelled` by its position among observations. */
  datatype Event = Event(labelled: Repetition, trial: Trial)

  datatype Report = Report(aggregate: Aggregate, passed: bool, events: seq<Event>, freshRebuilds: nat)

  function Observations(outcomes: seq<Outcome>): (r: seq<Trial>)
    ensures |r| <= |outcomes|
  {
    if outcomes == [] then [] else
      var n := |outcomes| - 1;
      Observations(outcomes[..n]) + if outcomes[n].Retained? then [outcomes[n].trial] else []
  }

  function OneOutcomeFailures(k: nat, o: Outcome): set<Failure> {
    match o
    case Threw(code) => {TrialThrew(k, code)}
    case Retained(_, problems) => set p | p in problems :: RunFailure(p)
  }

  function OutcomeFailures(outcomes: seq<Outcome>): set<Failure> {
    if outcomes == [] then {} else
      var n := |outcomes| - 1;
      OutcomeFailures(outcomes[..n]) + OneOutcomeFailures(n + 1, outcomes[n])
  }

  function EmptyAggregate(defs: seq<Definition>): Aggregate {
    Aggregate({RunFailure("BENCHMARK_TRIALS_NOT_RUN")}, map id | id in AllIds(defs) :: ZERO, 0, 0, 0, 0, 0)
  }

  /** Failures known before any trial: the source's and the plan's. */
  function EarlyFailures(source: set<string>, plan: Result<seq<Repetition>, string>): set<Failure> {
    (set c | c in source :: RunFailure(c)) + if plan.Err? then {RunFailure(plan.error)} else {}
  }

  /** The trials run: none when something failed before. */
  function TrialsRun(source: set<string>, repetitions: int, world: seq<Outcome>): (run: seq<Outcome>)
    requires Plan(repetitions).Ok? ==> |world| == repetitions
    ensures run != [] ==> Plan(repetitions).Ok? && |run| == |Plan(repetitions).value|
  {
    NoEarlyFailures(source, Plan(repetitions));
    if EarlyFailures(source, Plan(repetitions)) == {} then world else []
  }

  lemma NoEarlyFailures(source: set<string>, plan: Result<seq<Repetition>, string>)
    ensures EarlyFailures(source, plan) == {} <==> source == {} && plan.Ok?
  {
    var early := EarlyFailures(source, plan);
    assert plan.Err? ==> RunFailure(plan.error) in early;
    assert forall c :: c in source ==> RunFailure(c) in early;
  }

  function Events(plan: seq<Repetition>, observations: seq<Trial>): seq<Event>
    requires |observations| <= |plan|
  {
    seq(|observations|, i requires 0 <= i < |observations| => Event(plan[i], observations[i]))
  }

  /**
   What the benchmark reports; `world` holds what each planned trial comes to, and `source` the
   failures of the source metadata.
   */
  function BenchmarkReport(defs: seq<Definition>, source: set<string>, repetitions: int, world: seq<Outcome>): Report
    requires Plan(repetitions).Ok? ==> |world| == repetitions
  {
    var run := TrialsRun(source, repetitions, world);
    var observations := Observations(run);
    var plan := if Plan(repetitions).Ok? then Plan(repetitions).value else [];
    var aggregate := if observations == [] then EmptyAggregate(defs) else Aggregated(defs, observations, repetitions);
    var failures := EarlyFailures(source, Plan(repetitions)) + OutcomeFailures(run) + aggregate.failures;
    Report(aggregate.(failures := failures), failures == {}, Events(plan, observations),
           if observations == [] then 0 else |RebuildsUsed(plan, |observations|)|)
  }

  /** `runGovernedRollbackBenchmark`. */
  method RunBenchmark(defs: seq<Definition>, source: set<string>, repetitions: int, world: seq<Outcome>)
    returns (report: Report)
    requires DistinctIds(defs) && (Plan(repetitions).Ok? ==> |world| == repetitions)
    ensures report == BenchmarkReport(defs, source, repetitions, world)
  {
    hide Aggregated, RebuildOf, OneOutcomeFailures, EarlyFailures, DistinctIds, EmptyAggregate;
    var planned := Plan(repetitions);
    var plan := if planned.Ok? then planned.value else [];
    var failures := EarlyFailures(source, planned);
    ghost var early := failures;
    ghost var run := TrialsRun(source, repetitions, world);
    var observations: seq<Trial> := [];
    if failures == {} {
      NoEarlyFailures(source, planned);
      for k := 0 to |plan|
        invariant |observations| <= k
        invariant observations == Observations(run[..k])
        invariant failures == early + OutcomeFailures(run[..k])
      {
        assert run[..k + 1][..k] == run[..k];
        if world[k].Retained? { observations := observations + [world[k].trial]; }
        failures := failures + OneOutcomeFailures(plan[k].repetition, world[k]);
      }
      assert run[..|run|] == run;
    }
    var aggregate := EmptyAggregate(defs);
    if observations != [] { aggregate := AggregateObservations(defs, observations, repetitions); }
    failures := failures + aggregate.failures;
    var rebuilds := if observations == [] then 0 else |RebuildsUsed(plan, |observations|)|;
    report := Report(aggregate.(failures := failures), failures == {}, Events(plan, observations), rebuilds);
  }

  // ---------------------------------------------------------------------------------------
  // What a passed run means
  // ---------------------------------------------------------------------------------------

  lemma {:induction false} CleanOutcomes(outcomes: seq<Outcome>)
    requires OutcomeFailures(outcomes) == {}
    ensures |Observations(outcomes)| == |outcomes|
    ensures forall k :: 0 <= k < |outcomes| ==>
              && outcomes[k].Retained? && outcomes[k].problems == {}
              && Observations(outcomes)[k] == outcomes[k].trial
    decreases |outcomes|
  {
    if outcomes != [] {
      var n := |outcomes| - 1;
      CleanOutcomes(outcomes[..n]);
      NoOutcomeFailure(n + 1, outcomes[n]);
    }
  }

  lemma NoOutcomeFailure(k: nat, o: Outcome)
    ensures OneOutcomeFailures(k, o) == {} <==> o.Retained? && o.problems == {}
  {
    match o
    case Threw(code) =>
    case Retained(_, problems) =>
      assert forall p :: p in problems ==> RunFailure(p) in OneOutcomeFailures(k, o);
  }

  /**
   A passed run retained every planned observation without problem, each labelled by its own
   repetition, used three fresh environments, and its observations are PROVEN.
   */
  lemma PassedRun(defs: seq<Definition>, source: set<string>, repetitions: int, world: seq<Outcome>)
    requires DistinctIds(defs) && (Plan(repetitions).Ok? ==> |world| == repetitions)
    requires BenchmarkReport(defs, source, repetitions, world).passed
    ensures Plan(repetitions).Ok? && source == {}
    ensures var r := BenchmarkReport(defs, source, repetitions, world);
            && |r.events| == repetitions && r.freshRebuilds == 3
            && (forall k :: 0 <= k < repetitions ==>
                  && world[k].Retained? && world[k].problems == {}
                  && r.events[k] == Event(Plan(repetitions).value[k], world[k].trial))
            && ProvenSpec(defs, Observations(world), repetitions)
  {
    hide Aggregated, RebuildOf, ProvenSpec, DistinctIds;
    var run := TrialsRun(source, repetitions, world);
    NoEarlyFailures(source, Plan(repetitions));
    assert EarlyFailures(source, Plan(repetitions)) == {} && OutcomeFailures(run) == {};
    CleanOutcomes(run);
    WholePlanUsesThree(repetitions);
    assert |{0, 1, 2}| == 3;
    VerdictExact(defs, Observations(world), repetitions);
  }

  // ---------------------------------------------------------------------------------------
  // When the labels are right
  // ---------------------------------------------------------------------------------------

  /** The repetitions whose observations were retained, in order. */
  function Origins(plan: seq<Repetition>, outcomes: seq<Outcome>): (r: seq<Repetition>)
    requires |outcomes| <= |plan|
    ensures |r| == |Observations(outcomes)|
  {
    if outcomes == [] then [] else
      var n := |outcomes| - 1;
      Origins(plan, outcomes[..n]) + if outcomes[n].Retained? then [plan[n]] else []
  }

  ghost predicate DistinctPlan(plan: seq<Repetition>) {
    forall i, j :: 0 <= i < j < |plan| ==> plan[i] != plan[j]
  }

  lemma {:induction false} OriginsMembers(plan: seq<Repetition>, outcomes: seq<Outcome>, m: nat)
    requires DistinctPlan(plan) && |outcomes| <= |plan| && m < |plan|
    ensures plan[m] in Origins(plan, outcomes) <==> m < |outcomes| && outcomes[m].Retained?
    decreases |outcomes|
  {
    if outcomes != [] {
      var n := |outcomes| - 1;
      OriginsMembers(plan, outcomes[..n], m);
      assert m != n ==> plan[m] != plan[n];
    }
  }

  /** No observation is retained after a trial that threw. */
  ghost predicate ThrowsLast(outcomes: seq<Outcome>) {
    forall j, k :: 0 <= j < k < |outcomes| && outcomes[k].Retained? ==> outcomes[j].Retained?
  }

  lemma {:induction false} ThrowsLastOrigins(plan: seq<Repetition>, outcomes: seq<Outcome>)
    requires |outcomes| <= |plan| && ThrowsLast(outcomes)
    ensures var r := Origins(plan, outcomes);
            r == plan[..|r|] && (outcomes != [] && outcomes[|outcomes| - 1].Retained? ==> |r| == |outcomes|)
    decreases |outcomes|
  {
    if outcomes != [] {
      var n := |outcomes| - 1;
      assert forall j :: 0 <= j < n ==> outcomes[..n][j] == outcomes[j];
      ThrowsLastOrigins(plan, outcomes[..n]);
      if outcomes[n].Retained? && n > 0 { assert outcomes[n - 1].Retained?; }
    }
  }

  /**
   The raw events of a run carry the repetition each observation came from exactly when no trial
   was retained after one that threw; otherwise later observations are labelled too low.
   */
  lemma LabelsExact(plan: seq<Repetition>, outcomes: seq<Outcome>)
    requires |outcomes| <= |plan| && DistinctPlan(plan)
    ensures (forall i :: 0 <= i < |Observations(outcomes)| ==>
               Events(plan, Observations(outcomes))[i].labelled == Origins(plan, outcomes)[i])
       <==> ThrowsLast(outcomes)
  {
    var r := Origins(plan, outcomes);
    var events := Events(plan, Observations(outcomes));
    if ThrowsLast(outcomes) {
      ThrowsLastOrigins(plan, outcomes);
      assert forall i :: 0 <= i < |r| ==> r[i] == plan[..|r|][i];
    }
    if forall i :: 0 <= i < |r| ==> events[i].labelled == r[i] {
      forall j, k | 0 <= j < k < |outcomes| && outcomes[k].Retained? ensures outcomes[j].Retained? {
        OriginsMembers(plan, outcomes, k);
        OriginsMembers(plan, outcomes, j);
        var i :| 0 <= i < |r| && r[i] == plan[k];
        assert events[i].labelled == plan[i];
        assert i == k;
        assert events[j].labelled == r[j] == plan[j];
      }
    }
  }

  /** The benchmark's own plan numbers its repetitions, so it is such a plan. */
  lemma PlanDistinct(n: int)
    requires Plan(n).Ok?
    ensures DistinctPlan(Plan(n).value)
  {
  }

  /** Three repetitions, the first of which throws: the observation of the second is labelled as the first's. */
  lemma ThrowMislabels(defs: seq<Definition>, code: string, t: Trial)
    ensures var world := [Threw(code), Retained(t, {}), Retained(t, {})];
            && BenchmarkReport(defs, {}, 3, world).events == [Event(Repetition(1, 0), t), Event(Repetition(2, 1), t)]
            && Origins(Plan(3).value, world) == [Repetition(2, 1), Repetition(3, 2)]
  {
    hide Aggregated, EmptyAggregate;
    var world := [Threw(code), Retained(t, {}), Retained(t, {})];
    assert Plan(3).value == [Repetition(1, 0), Repetition(2, 1), Repetition(3, 2)];
    NoEarlyFailures({}, Plan(3));
    hide Plan, RebuildOf;
    assert world[..2] == [Threw(code), Retained(t, {})] && world[..2][..1] == [Threw(code)];
    assert Observations([Threw(code)]) == [] && Origins(Plan(3).value, [Threw(code)]) == [];
    assert Observations(world[..2]) == [t] && Origins(Plan(3).value, world[..2]) == [Repetition(2, 1)];
    assert Observations(world) == [t, t];
  }

  // ---------------------------------------------------------------------------------------
  // When the number of rebuilds is right
  // ---------------------------------------------------------------------------------------

  /** Retained observations of the trials from `lo` to `hi`. */
  function RetainedIn(outcomes: seq<Outcome>, lo: nat, hi: nat): (r: nat)
    requires lo <= hi <= |outcomes|
    ensures r <= hi - lo
  {
    if lo == hi then 0 else RetainedIn(outcomes, lo, hi - 1) + Bit(outcomes[hi - 1].Retained?)
  }

  lemma {:induction false} RetainedSplits(outcomes: seq<Outcome>, lo: nat, mid: nat, hi: nat)
    requires lo <= mid <= hi <= |outcomes|
    ensures RetainedIn(outcomes, lo, hi) == RetainedIn(outcomes, lo, mid) + RetainedIn(outcomes, mid, hi)
    decreases hi
  {
    if mid < hi { RetainedSplits(outcomes, lo, mid, hi - 1); }
  }

  lemma {:induction false} RetainedSome(outcomes: seq<Outcome>, lo: nat, hi: nat)
    requires lo <= hi <= |outcomes|
    ensures RetainedIn(outcomes, lo, hi) > 0 <==> exists k :: lo <= k < hi && outcomes[k].Retained?
    decreases hi
  {
    if lo < hi { RetainedSome(outcomes, lo, hi - 1); }
  }

  lemma {:induction false} ObservationsCounted(outcomes: seq<Outcome>, m: nat)
    requires m <= |outcomes|
    ensures |Observations(outcomes[..m])| == RetainedIn(outcomes, 0, m)
  {
    if m > 0 {
      ObservationsCounted(outcomes, m - 1);
      assert outcomes[..m][..m - 1] == outcomes[..m - 1];
    }
  }

  /** The environments some retained observation came from. */
  function RebuildsRetained(plan: seq<Repetition>, outcomes: seq<Outcome>): set<nat>
    requires |outcomes| <= |plan|
  {
    set k | 0 <= k < |outcomes| && outcomes[k].Retained? :: plan[k].environmentRebuild
  }

  lemma BlockUsed(n: nat, m: nat, b: nat)
    requires 3 <= n <= MAX_SAFE_INTEGER && m <= n && b <= 2
    ensures b in RebuildsUsed(Plan(n).value, m) <==> BlockStart(n, b) < m
  {
    hide RebuildOf;
    var plan, k := Plan(n).value, BlockStart(n, b);
    forall j | 0 <= j < n ensures plan[j].environmentRebuild == b <==> k <= j < BlockStart(n, b + 1) {
      RebuildIsBlock(n, j, b);
    }
    PlanSplits(n);
    if k < m { assert plan[k].environmentRebuild == b; }
  }

  lemma BlockRetained(n: nat, outcomes: seq<Outcome>, b: nat)
    requires 3 <= n <= MAX_SAFE_INTEGER && |outcomes| == n && b <= 2
    ensures BlockStart(n, b) <= BlockStart(n, b + 1) <= n
    ensures b in RebuildsRetained(Plan(n).value, outcomes) <==>
              RetainedIn(outcomes, BlockStart(n, b), BlockStart(n, b + 1)) > 0
  {
    hide RebuildOf, RetainedIn;
    var plan := Plan(n).value;
    BlocksOrdered(n, b, b + 1);
    BlocksOrdered(n, b + 1, 3);
    BlockSizes(n);
    RetainedSome(outcomes, BlockStart(n, b), BlockStart(n, b + 1));
    forall j | 0 <= j < n ensures plan[j].environmentRebuild == b <==> BlockStart(n, b) <= j < BlockStart(n, b + 1) {
      RebuildIsBlock(n, j, b);
    }
  }

  lemma SizeWithout(s: set<nat>, x: nat)
    ensures |s| == |s - {x}| + Bit(x in s)
  {
    if x in s { assert s == (s - {x}) + {x}; } else { assert s == s - {x}; }
  }

  /** The size of a set of environments. */
  lemma ThreeAtMost(s: set<nat>)
    requires s <= {0, 1, 2}
    ensures |s| == Bit(0 in s) + Bit(1 in s) + Bit(2 in s)
  {
    SizeWithout(s, 0);
    SizeWithout(s - {0}, 1);
    SizeWithout(s - {0} - {1}, 2);
    assert s - {0} - {1} - {2} == {};
  }

  /** Earlier blocks are no smaller than later ones. */
  lemma BlocksShrink(n: nat)
    ensures BlockStart(n, 1) >= BlockStart(n, 2) - BlockStart(n, 1) >= n - BlockStart(n, 2) >= 0
  {
  }

  lemma RebuildsAmongThree(n: nat, outcomes: seq<Outcome>, m: nat)
    requires 3 <= n <= MAX_SAFE_INTEGER && |outcomes| == n && m <= n
    ensures RebuildsUsed(Plan(n).value, m) <= {0, 1, 2} && RebuildsRetained(Plan(n).value, outcomes) <= {0, 1, 2}
  {
    hide RebuildOf;
    PlanSplits(n);
  }

  /**
   The reported number of rebuilds, taken over a prefix of the plan, never exceeds the number of
   environments that retained an observation; it is that number exactly when the observations would
   not have fitted into one block less.
   */
  lemma RebuildCountExact(n: nat, outcomes: seq<Outcome>)
    requires 3 <= n <= MAX_SAFE_INTEGER && |outcomes| == n && Observations(outcomes) != []
    ensures var m, environments := |Observations(outcomes)|, |RebuildsRetained(Plan(n).value, outcomes)|;
            && 1 <= environments <= 3
            && |RebuildsUsed(Plan(n).value, m)| <= environments
            && (|RebuildsUsed(Plan(n).value, m)| == environments <==> m > BlockStart(n, environments - 1))
  {
    hide RebuildOf, RetainedIn, RebuildsUsed, RebuildsRetained, BlockStart, Observations;
    var m := |Observations(outcomes)|;
    assert outcomes[..n] == outcomes;
    ObservationsCounted(outcomes, n);
    var used, retained := RebuildsUsed(Plan(n).value, m), RebuildsRetained(Plan(n).value, outcomes);
    RebuildsAmongThree(n, outcomes, m);
    ThreeAtMost(used);
    ThreeAtMost(retained);
    BlockSizes(n);
    BlocksShrink(n);
    BlockUsed(n, m, 0);
    BlockUsed(n, m, 1);
    BlockUsed(n, m, 2);
    BlockRetained(n, outcomes, 0);
    BlockRetained(n, outcomes, 1);
    BlockRetained(n, outcomes, 2);
    RetainedSplits(outcomes, 0, BlockStart(n, 1), n);
    RetainedSplits(outcomes, BlockStart(n, 1), BlockStart(n, 2), n);
  }

  /**
   Six repetitions of which every other one throws: observations come from all three environments,
   two are reported.
   */
  lemma RebuildCountTooSmall(defs: seq<Definition>, code: string, t: Trial)
    ensures var world := [Threw(code), Retained(t, {}), Threw(code), Retained(t, {}), Threw(code), Retained(t, {})];
            && BenchmarkReport(defs, {}, 6, world).freshRebuilds == 2
            && RebuildsRetained(Plan(6).value, world) == {0, 1, 2}
  {
    hide Aggregated, EmptyAggregate;
    var world := [Threw(code), Retained(t, {}), Threw(code), Retained(t, {}), Threw(code), Retained(t, {})];
    var plan := Plan(6).value;
    SixRepetitions();
    hide Plan, RebuildOf;
    NoEarlyFailures({}, Plan(6));
    EveryOther(code, t);
    assert {0, 1, 2} == {plan[1].environmentRebuild, plan[3].environmentRebuild, plan[5].environmentRebuild};
    assert RebuildsUsed(plan, 3) == {0, 1} by {
      assert {0, 1} == {plan[0].environmentRebuild, plan[1].environmentRebuild, plan[2].environmentRebuild};
    }
    assert |{0, 1}| == 2;
  }

  lemma SixRepetitions()
    ensures Plan(6).Ok? && |Plan(6).value| == 6
    ensures forall k :: 0 <= k < 6 ==> Plan(6).value[k].environmentRebuild == k / 2
  {
  }

  lemma EveryOther(code: string, t: Trial)
    ensures |Observations([Threw(code), Retained(t, {}), Threw(code), Retained(t, {}), Threw(code), Retained(t, {})])| == 3
  {
    hide Observations;
    var world := [Threw(code), Retained(t, {}), Threw(code), Retained(t, {}), Threw(code), Retained(t, {})];
    ObservationsCounted(world, 6);
    assert world[..6] == world;
    assert RetainedIn(world, 0, 2) == 1;
    assert RetainedIn(world, 0, 4) == 2;
  }
}
