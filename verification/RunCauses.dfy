/**
 Which failures the report of a whole benchmark run lists, and exactly when
 (scripts/benchmark-governed-rollback.ts).
 */
module RunCauses {
  import opened Campaign
  import opened Rollback
  import opened RollbackRun
  import opened RollbackCauses

  /** Trials are run, and one of them retains an observation. */
  ghost predicate Retains(run: seq<Outcome>) { exists k :: 0 <= k < |run| && run[k].Retained? }

  /** The run starts: the source is clean and the plan valid. */
  predicate Starts(source: set<string>, repetitions: int) { source == {} && 3 <= repetitions <= 9007199254740991 }

  ghost predicate OutcomeCause(run: seq<Outcome>, f: Failure) {
    match f
    case TrialThrew(k, code) => 1 <= k <= |run| && run[k - 1] == Threw(code)
    case RunFailure(code) => exists k :: 0 <= k < |run| && run[k].Retained? && code in run[k].problems
    case _ => false
  }

  ghost predicate EarlyCause(source: set<string>, repetitions: int, f: Failure) {
    && f.RunFailure?
    && (f.code in source || (f.code == "REPETITION_PLAN_INVALID" && !(3 <= repetitions <= 9007199254740991)))
  }

  ghost predicate ReportCause(defs: seq<Definition>, source: set<string>, repetitions: int, world: seq<Outcome>, f: Failure) {
    var run := if Starts(source, repetitions) then world else [];
    || EarlyCause(source, repetitions, f)
    || OutcomeCause(run, f)
    || (!Retains(run) && f == RunFailure("BENCHMARK_TRIALS_NOT_RUN"))
    || (Retains(run) && Cause(defs, Observations(run), repetitions, f))
  }

  lemma {:induction false} OutcomeCauseExact(run: seq<Outcome>, f: Failure)
    ensures f in OutcomeFailures(run) <==> OutcomeCause(run, f)
    ensures Observations(run) == [] <==> !Retains(run)
    decreases |run|
  {
    if run != [] {
      hide OutcomeCause, Retains, OneOutcomeFailures;
      var n := |run| - 1;
      assert run == run[..n] + [run[n]];
      OutcomeCauseExact(run[..n], f);
      OutcomeSnoc(run[..n], run[n], f);
    }
  }

  lemma OutcomeSnoc(p: seq<Outcome>, o: Outcome, f: Failure)
    ensures OutcomeCause(p + [o], f) <==> OutcomeCause(p, f) || f in OneOutcomeFailures(|p| + 1, o)
    ensures Retains(p + [o]) <==> Retains(p) || o.Retained?
  {
    var run := p + [o];
    assert run[|p|] == o;
    assert forall k :: 0 <= k < |p| ==> run[k] == p[k];
    if f.RunFailure? {
      if k :| 0 <= k < |p| && p[k].Retained? && f.code in p[k].problems { assert run[k] == p[k]; }
      if k :| 0 <= k < |run| && run[k].Retained? && f.code in run[k].problems { assert k < |p| ==> run[k] == p[k]; }
    }
    if Retains(p) { var k :| 0 <= k < |p| && p[k].Retained?; assert run[k].Retained?; }
  }

  /** Every failure of the report has its own cause in the source, the plan, the outcomes or the trials. */
  lemma ReportFailuresExact(defs: seq<Definition>, source: set<string>, repetitions: int, world: seq<Outcome>, f: Failure)
    requires DistinctIds(defs) && (Plan(repetitions).Ok? ==> |world| == repetitions)
    ensures f in BenchmarkReport(defs, source, repetitions, world).aggregate.failures <==>
              ReportCause(defs, source, repetitions, world, f)
  {
    hide DistinctIds, Aggregated, Cause, OutcomeCause, Retains, OutcomeFailures, Observations, Events, RebuildsUsed;
    NoEarlyFailures(source, Plan(repetitions));
    var run := TrialsRun(source, repetitions, world);
    assert run == if Starts(source, repetitions) then world else [];
    OutcomeCauseExact(run, f);
    FailuresExact(defs, Observations(run), repetitions, f);
  }

  /** Without a retained observation the report is empty and the run failed. */
  lemma NothingRetained(defs: seq<Definition>, source: set<string>, repetitions: int, world: seq<Outcome>)
    requires Plan(repetitions).Ok? ==> |world| == repetitions
    requires !Starts(source, repetitions) || !Retains(world)
    ensures var r := BenchmarkReport(defs, source, repetitions, world);
            && !r.passed && r.events == [] && r.freshRebuilds == 0 && r.aggregate.scenarios.Keys == AllIds(defs)
            && (forall id :: id in r.aggregate.scenarios ==> r.aggregate.scenarios[id] == Metrics(0, 0, 0, 0, 0, 0, 0, 0))
            && r.aggregate.deniedWrites == 0 && r.aggregate.duplicateWrites == 0 && r.aggregate.unverifiedReceipts == 0
            && r.aggregate.missingEvidence == 0 && r.aggregate.totalTrials == 0
  {
    hide Aggregated, Retains, OutcomeFailures, Observations;
    NoEarlyFailures(source, Plan(repetitions));
    var run := TrialsRun(source, repetitions, world);
    assert run == if Starts(source, repetitions) then world else [];
    NoneRetained();
    OutcomeCauseExact(run, RunFailure(""));
    assert Observations(run) == [];
    assert RunFailure("BENCHMARK_TRIALS_NOT_RUN") in BenchmarkReport(defs, source, repetitions, world).aggregate.failures;
  }

  lemma NoneRetained()
    ensures !Retains([])
  {
  }
}
