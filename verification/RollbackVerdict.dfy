/**
 What the aggregate verdict means (scripts/benchmark-governed-rollback.ts): PROVEN exactly when
 every trial is complete, by a pigeonhole argument over the counters; and that metrics add up over
 concatenated trials and do not depend on the order of trials.
 */
module RollbackVerdict {
  import opened Campaign
  import opened Rollback

  /** A well-typed entry of a declared scenario that passed exactly as defined. */
  ghost predicate GoodEntry(defs: seq<Definition>, s: Scenario) {
    s.Observed? && Declared(defs, s.id) && s.passed && s.receipt && s.evidence &&
    s.writes == DefinitionOf(defs, s.id).expectedWrites
  }

  ghost predicate AllGood(defs: seq<Definition>, ss: seq<Scenario>) {
    forall i :: 0 <= i < |ss| ==> GoodEntry(defs, ss[i])
  }

  predicate Holds(ss: seq<Scenario>, id: string) { exists i :: 0 <= i < |ss| && ss[i].Observed? && ss[i].id == id }

  /** What the benchmark itself demands of a trial's driver, topology, roles and processes. */
  ghost predicate HeaderOk(t: Trial) { DriverOk(t) && TopologyOk(t) && REQUIRED_ROLES <= t.roles && ProcessesOk(t) }

  /** A good entry that also agrees with its definition in what only the validator reads. */
  ghost predicate PerfectEntry(defs: seq<Definition>, s: Scenario) {
    && GoodEntry(defs, s) && s.expected == s.writes && s.latency >= 0
    && var d := DefinitionOf(defs, s.id);
       (d.requiresQuery ==> s.queries >= 1) && s.disposition.Some? && s.disposition.value in d.dispositions
  }

  /** Every declared scenario exactly once, nothing else, and all of them perfect. */
  ghost predicate Complete(defs: seq<Definition>, t: Trial) {
    && HeaderOk(t) && HeaderAgrees(t.observation) && t.observation.entries.Some? && NoRepeat(t.Scenarios())
    && (forall s :: s in t.Scenarios() ==> PerfectEntry(defs, s))
    && (forall d :: d in defs ==> Holds(t.Scenarios(), d.id))
  }

  /** The specification of a PROVEN verdict: a statement about every trial alone, without counters. */
  ghost predicate ProvenSpec(defs: seq<Definition>, trials: seq<Trial>, repetitions: int) {
    && 1 <= repetitions <= MAX_SAFE_INTEGER && |trials| == repetitions
    && forall k :: 0 <= k < |trials| ==> Complete(defs, trials[k])
  }

  // ---------------------------------------------------------------------------------------
  // No failures
  // ---------------------------------------------------------------------------------------

  lemma EntryClean(defs: seq<Definition>, seen: set<string>, s: Scenario)
    ensures EntryFailures(defs, seen, s) == {} <==> GoodEntry(defs, s) && s.id !in seen
  {
  }

  lemma {:induction false} ScenariosClean(defs: seq<Definition>, ss: seq<Scenario>)
    ensures ScenarioFailures(defs, ss) == {} <==> AllGood(defs, ss) && NoRepeat(ss)
    decreases |ss|
  {
    hide EntryFailures, GoodEntry;
    if ss != [] {
      var p, s := ss[..|ss| - 1], ss[|ss| - 1];
      assert ss == p + [s];
      ScenariosClean(defs, p);
      EntryClean(defs, Ids(p), s);
      GoodSnoc(defs, p, s);
    }
  }

  lemma GoodSnoc(defs: seq<Definition>, p: seq<Scenario>, s: Scenario)
    ensures AllGood(defs, p + [s]) <==> AllGood(defs, p) && GoodEntry(defs, s)
    ensures GoodEntry(defs, s) ==> (NoRepeat(p + [s]) <==> NoRepeat(p) && s.id !in Ids(p))
  {
    hide Declared, DefinitionOf;
    var ss := p + [s];
    if AllGood(defs, ss) {
      forall i | 0 <= i < |p| ensures GoodEntry(defs, p[i]) { assert ss[i] == p[i]; }
      assert ss[|p|] == s;
    }
    if GoodEntry(defs, s) && NoRepeat(ss) {
      forall i, j | 0 <= i < j < |p| && !p[i].Malformed? && !p[j].Malformed? ensures p[i].id != p[j].id {
        assert ss[i] == p[i] && ss[j] == p[j];
      }
      forall i | 0 <= i < |p| && !p[i].Malformed? ensures p[i].id != s.id {
        assert ss[i] == p[i] && ss[|p|] == s;
      }
    }
  }

  lemma HeaderClean(k: nat, t: Trial)
    ensures HeaderFailures(k, t) == {} <==> HeaderOk(t)
    ensures forall f :: f in HeaderFailures(k, t) ==> !f.CampaignFailure?
  {
    hide DriverOk, TopologyOk, ProcessesOk;
    var f := HeaderFailures(k, t);
    assert forall r :: r in REQUIRED_ROLES && r !in t.roles ==> DatabaseRoleMissing(k, r) in f;
    assert !DriverOk(t) ==> ExternalDriverRequired(k) in f;
    assert !TopologyOk(t) ==> RealTopologyRequired(k) in f;
    assert !ProcessesOk(t) ==> ProcessIdentitiesInvalid(k) in f;
  }

  ghost predicate CleanTrial(defs: seq<Definition>, t: Trial) {
    HeaderOk(t) && AllGood(defs, t.Scenarios()) && NoRepeat(t.Scenarios())
  }

  /** Nothing but what the campaign validator reported. */
  ghost predicate OnlyCampaign(failures: set<Failure>) { forall f :: f in failures ==> f.CampaignFailure? }

  ghost predicate NoCampaign(failures: set<Failure>) { forall f :: f in failures ==> !f.CampaignFailure? }

  lemma {:induction false} ScenarioFailuresOwn(defs: seq<Definition>, ss: seq<Scenario>)
    ensures NoCampaign(ScenarioFailures(defs, ss))
    decreases |ss|
  {
    hide Declared, DefinitionOf;
    if ss != [] { ScenarioFailuresOwn(defs, ss[..|ss| - 1]); }
  }

  lemma OneTrialClean(defs: seq<Definition>, k: nat, t: Trial)
    ensures OnlyCampaign(OneTrialFailures(defs, k, t)) <==> CleanTrial(defs, t)
    ensures NoCampaign(OneTrialFailures(defs, k, t)) <==> CampaignOk(defs, t.observation)
  {
    hide HeaderFailures, ScenarioFailures, HeaderOk, AllGood, NoRepeat, CampaignFailures, CampaignOk;
    HeaderClean(k, t);
    ScenariosClean(defs, t.Scenarios());
    ScenarioFailuresOwn(defs, t.Scenarios());
    CampaignClean(defs, t.observation);
    var own := HeaderFailures(k, t) + ScenarioFailures(defs, t.Scenarios());
    assert OneTrialFailures(defs, k, t) == CampaignPart(defs, k, t) + own;
    assert NoCampaign(own) && OnlyCampaign(CampaignPart(defs, k, t));
    OnlyOneKind(CampaignPart(defs, k, t), own);
    assert forall c :: c in CampaignFailures(defs, t.observation) ==> CampaignFailure(k, c) in CampaignPart(defs, k, t);
  }

  lemma OnlyOneKind(a: set<Failure>, b: set<Failure>)
    requires OnlyCampaign(a) && NoCampaign(b)
    ensures OnlyCampaign(a + b) <==> b == {}
    ensures NoCampaign(a + b) <==> a == {}
  {
    if b != {} {
      var f :| f in b;
      assert f in a + b;
    }
    if a != {} {
      var f :| f in a;
      assert f in a + b;
    }
  }

  lemma {:induction false} TrialsClean(defs: seq<Definition>, trials: seq<Trial>)
    ensures OnlyCampaign(TrialFailures(defs, trials)) <==> forall k :: 0 <= k < |trials| ==> CleanTrial(defs, trials[k])
    ensures NoCampaign(TrialFailures(defs, trials)) <==>
              forall k :: 0 <= k < |trials| ==> CampaignOk(defs, trials[k].observation)
    decreases |trials|
  {
    hide OneTrialFailures, CleanTrial, CampaignOk;
    if trials != [] {
      var n := |trials| - 1;
      TrialsClean(defs, trials[..n]);
      OneTrialClean(defs, n + 1, trials[n]);
      assert forall k :: 0 <= k < n ==> trials[..n][k] == trials[k];
    }
  }

  ghost predicate CleanDefinition(d: Definition, m: Metrics, repetitions: int) {
    m.trials == repetitions && m.duplicates == 0 && m.receiptFailures == 0 && m.evidenceFailures == 0 &&
    (d.requiresQuery ==> m.queries >= m.trials)
  }

  lemma DefinitionClean(d: Definition, m: Metrics, repetitions: int)
    ensures DefinitionFailures(d, m, repetitions) == {} <==> CleanDefinition(d, m, repetitions)
  {
  }

  lemma {:induction false} DefinitionsClean(defs: seq<Definition>, trials: seq<Trial>, repetitions: int)
    ensures FinalFailures(defs, trials, repetitions) == {} <==>
              forall d :: d in defs ==> CleanDefinition(d, TrialMetrics(d, trials), repetitions)
    decreases |defs|
  {
    hide TrialMetrics, DefinitionFailures, CleanDefinition;
    if defs != [] {
      var p, d := defs[..|defs| - 1], defs[|defs| - 1];
      assert defs == p + [d];
      assert forall e :: e in defs <==> e in p || e == d;
      DefinitionsClean(p, trials, repetitions);
      DefinitionClean(d, TrialMetrics(d, trials), repetitions);
      var before, last := FinalFailures(p, trials, repetitions), DefinitionFailures(d, TrialMetrics(d, trials), repetitions);
      assert FinalFailures(defs, trials, repetitions) == before + last;
      assert before + last == {} <==> before == {} && last == {};
      if before + last == {} {
        forall e | e in defs ensures CleanDefinition(e, TrialMetrics(e, trials), repetitions) { assert e in p || e == d; }
      }
      if forall e :: e in defs ==> CleanDefinition(e, TrialMetrics(e, trials), repetitions) {
        assert d in defs;
        forall e | e in p ensures CleanDefinition(e, TrialMetrics(e, trials), repetitions) { assert e in defs; }
      }
    }
  }

  // ---------------------------------------------------------------------------------------
  // The counters of clean trials
  // ---------------------------------------------------------------------------------------

  lemma HoldsSnoc(p: seq<Scenario>, s: Scenario, id: string)
    requires s.Observed?
    ensures Holds(p + [s], id) <==> Holds(p, id) || s.id == id
    ensures NoRepeat(p + [s]) && s.id == id ==> !Holds(p, id)
  {
    var ss := p + [s];
    assert ss[|p|] == s;
    forall i | 0 <= i < |p| ensures ss[i] == p[i] {}
    if i :| 0 <= i < |ss| && ss[i].Observed? && ss[i].id == id { assert i < |p| ==> p[i] == ss[i]; }
  }

  /** The metrics of `n` clean occurrences. */
  ghost predicate CleanMetrics(d: Definition, m: Metrics, n: nat) {
    m.trials == m.passed == n && m.writes == d.expectedWrites * n &&
    m.duplicates == 0 && m.receiptFailures == 0 && m.evidenceFailures == 0
  }

  lemma CleanSum(d: Definition, a: Metrics, b: Metrics, m: nat, n: nat)
    requires CleanMetrics(d, a, m) && CleanMetrics(d, b, n)
    ensures CleanMetrics(d, Plus(a, b), m + n)
  {
  }

  /** A clean list counts a declared scenario once if it holds it and never otherwise. */
  lemma {:induction false} CleanListMetrics(defs: seq<Definition>, d: Definition, ss: seq<Scenario>)
    requires DistinctIds(defs) && d in defs && AllGood(defs, ss) && NoRepeat(ss)
    ensures CleanMetrics(d, MetricsOf(d, ss), Bit(Holds(ss, d.id)))
    decreases |ss|
  {
    hide Holds, NoRepeat, AllGood, DistinctIds, CleanMetrics, Plus, One, GoodEntry;
    if ss == [] {
      NothingHeld(d.id);
      NothingClean(d);
    } else {
      var p, s := ss[..|ss| - 1], ss[|ss| - 1];
      assert ss == p + [s];
      LastGood(defs, p, s);
      CleanListMetrics(defs, d, p);
      CleanOne(defs, d, s);
      CleanSum(d, MetricsOf(d, p), One(d, s), Bit(Holds(p, d.id)), Bit(s.id == d.id));
      HoldsSnoc(p, s, d.id);
    }
  }

  lemma LastGood(defs: seq<Definition>, p: seq<Scenario>, s: Scenario)
    requires AllGood(defs, p + [s]) && NoRepeat(p + [s])
    ensures AllGood(defs, p) && NoRepeat(p) && GoodEntry(defs, s) && s.Observed?
  {
    hide Declared, DefinitionOf;
    assert (p + [s])[|p|] == s;
    GoodSnoc(defs, p, s);
  }

  /** A good entry counts once for its own definition and not at all for another. */
  lemma CleanOne(defs: seq<Definition>, d: Definition, s: Scenario)
    requires DistinctIds(defs) && d in defs && GoodEntry(defs, s)
    ensures CleanMetrics(d, One(d, s), Bit(s.id == d.id))
  {
    hide DistinctIds, Declared, DefinitionOf;
    DefinitionUnique(defs, d);
  }

  lemma NothingHeld(id: string)
    ensures !Holds([], id)
  {
  }

  /** How many of the trials hold the scenario. */
  function Holders(d: Definition, trials: seq<Trial>): (n: nat)
    ensures n <= |trials|
  {
    if trials == [] then 0
    else Holders(d, trials[..|trials| - 1]) + Bit(Holds(trials[|trials| - 1].Scenarios(), d.id))
  }

  lemma NothingClean(d: Definition)
    ensures CleanMetrics(d, ZERO, 0)
  {
  }

  lemma {:induction false} CleanTrialMetrics(defs: seq<Definition>, d: Definition, trials: seq<Trial>)
    requires DistinctIds(defs) && d in defs
    requires forall k :: 0 <= k < |trials| ==> CleanTrial(defs, trials[k])
    ensures CleanMetrics(d, TrialMetrics(d, trials), Holders(d, trials))
    decreases |trials|
  {
    hide Holds, MetricsOf, AllGood, NoRepeat, HeaderOk, DistinctIds, Plus, CleanMetrics;
    if trials == [] {
      assert CleanMetrics(d, ZERO, 0) by { NothingClean(d); }
    } else {
      var n := |trials| - 1;
      assert forall k :: 0 <= k < n ==> trials[..n][k] == trials[k];
      CleanTrialMetrics(defs, d, trials[..n]);
      CleanListMetrics(defs, d, trials[n].Scenarios());
      CleanSum(d, TrialMetrics(d, trials[..n]), MetricsOf(d, trials[n].Scenarios()), Holders(d, trials[..n]),
               Bit(Holds(trials[n].Scenarios(), d.id)));
    }
  }

  /** Pigeonhole: as many holders as trials means that every trial is one. */
  lemma {:induction false} AllHold(d: Definition, trials: seq<Trial>)
    ensures Holders(d, trials) == |trials| <==> forall k :: 0 <= k < |trials| ==> Holds(trials[k].Scenarios(), d.id)
    decreases |trials|
  {
    hide Holds;
    if trials != [] {
      var n := |trials| - 1;
      AllHold(d, trials[..n]);
      assert forall k :: 0 <= k < n ==> trials[..n][k] == trials[k];
    }
  }

  /** Clean trials have clean records exactly when all of them hold the scenario and queries suffice in total. */
  lemma CleanRecord(defs: seq<Definition>, d: Definition, trials: seq<Trial>)
    requires DistinctIds(defs) && d in defs
    requires forall k :: 0 <= k < |trials| ==> CleanTrial(defs, trials[k])
    ensures CleanDefinition(d, TrialMetrics(d, trials), |trials|) <==>
              && (forall k :: 0 <= k < |trials| ==> Holds(trials[k].Scenarios(), d.id))
              && (d.requiresQuery ==> TrialMetrics(d, trials).queries >= |trials|)
  {
    hide CleanTrial, Holds, TrialMetrics, Holders, DistinctIds;
    CleanTrialMetrics(defs, d, trials);
    AllHold(d, trials);
  }

  /**
   The counters alone: when the only failures are the campaign validator's, still every trial is
   clean and holds every declared scenario, by pigeonhole; of the outcome queries only the total is sure.
   */
  lemma CountersAlone(defs: seq<Definition>, trials: seq<Trial>, repetitions: int)
    requires DistinctIds(defs)
    ensures OnlyCampaign(Aggregated(defs, trials, repetitions).failures) <==>
              && 1 <= repetitions <= MAX_SAFE_INTEGER && |trials| == repetitions
              && (forall k :: 0 <= k < |trials| ==>
                    CleanTrial(defs, trials[k]) && forall d :: d in defs ==> Holds(trials[k].Scenarios(), d.id))
              && (forall d :: d in defs && d.requiresQuery ==> TrialMetrics(d, trials).queries >= repetitions)
  {
    hide CleanTrial, Holds, TrialMetrics, DistinctIds, Aggregated, TrialFailures, FinalFailures, CleanDefinition,
         CountFailures, OnlyCampaign;
    CountsClean(trials, repetitions);
    TrialsClean(defs, trials);
    DefinitionsClean(defs, trials, repetitions);
    AggregatedParts(defs, trials, repetitions);
    if forall k :: 0 <= k < |trials| ==> CleanTrial(defs, trials[k]) {
      forall d | d in defs
        ensures CleanDefinition(d, TrialMetrics(d, trials), |trials|) <==>
                  && (forall k :: 0 <= k < |trials| ==> Holds(trials[k].Scenarios(), d.id))
                  && (d.requiresQuery ==> TrialMetrics(d, trials).queries >= |trials|)
      {
        CleanRecord(defs, d, trials);
      }
    }
  }

  lemma AggregatedParts(defs: seq<Definition>, trials: seq<Trial>, repetitions: int)
    ensures OnlyCampaign(Aggregated(defs, trials, repetitions).failures) <==>
              && CountFailures(trials, repetitions) == {} && OnlyCampaign(TrialFailures(defs, trials))
              && FinalFailures(defs, trials, repetitions) == {}
    ensures NoCampaign(Aggregated(defs, trials, repetitions).failures) <==> NoCampaign(TrialFailures(defs, trials))
  {
    hide TrialFailures, FinalFailures, MetricsMap, Total, TrialDenied;
    FinalFailuresOwn(defs, trials, repetitions);
    OnlyParts(CountFailures(trials, repetitions), TrialFailures(defs, trials), FinalFailures(defs, trials, repetitions));
  }

  lemma OnlyParts(a: set<Failure>, b: set<Failure>, c: set<Failure>)
    requires NoCampaign(a) && NoCampaign(c)
    ensures OnlyCampaign(a + b + c) <==> a == {} && OnlyCampaign(b) && c == {}
    ensures NoCampaign(a + b + c) <==> NoCampaign(b)
  {
    assert a + b + c == b + (a + c);
    assert forall f :: f in a || f in b || f in c ==> f in a + b + c;
    if OnlyCampaign(a + b + c) {
      NoneOfEither(a, a + b + c);
      NoneOfEither(c, a + b + c);
    }
    if NoCampaign(a + b + c) {
      assert forall f :: f in b ==> f in a + b + c;
    }
  }

  lemma NoneOfEither(a: set<Failure>, s: set<Failure>)
    requires NoCampaign(a) && a <= s && OnlyCampaign(s)
    ensures a == {}
  {
    assert forall f :: f in a ==> f in s;
  }

  lemma {:induction false} FinalFailuresOwn(defs: seq<Definition>, trials: seq<Trial>, repetitions: int)
    ensures NoCampaign(FinalFailures(defs, trials, repetitions))
    decreases |defs|
  {
    hide TrialMetrics, DefinitionFailures;
    if defs != [] {
      var d := defs[|defs| - 1];
      FinalFailuresOwn(defs[..|defs| - 1], trials, repetitions);
      DefinitionFailuresOwn(d, TrialMetrics(d, trials), repetitions);
    }
  }

  lemma DefinitionFailuresOwn(d: Definition, m: Metrics, repetitions: int)
    ensures NoCampaign(DefinitionFailures(d, m, repetitions))
  {
  }

  /** An entry is perfect exactly when both readers accept it. */
  lemma PerfectExact(defs: seq<Definition>, s: Scenario)
    ensures PerfectEntry(defs, s) <==> GoodEntry(defs, s) && Agrees(defs, s)
  {
  }

  lemma HoldsMentions(ss: seq<Scenario>, id: string)
    requires forall s :: s in ss ==> s.Observed?
    ensures Holds(ss, id) <==> Mentions(ss, id)
  {
  }

  /** A trial is complete exactly when the benchmark's own checks and the validator find nothing. */
  lemma CompleteExact(defs: seq<Definition>, t: Trial)
    ensures Complete(defs, t) <==> CleanTrial(defs, t) && CampaignOk(defs, t.observation)
  {
    hide HeaderOk, HeaderAgrees, NoRepeat, GoodEntry, PerfectEntry, Agrees, Mentions, Holds;
    var ss := t.Scenarios();
    forall s ensures PerfectEntry(defs, s) <==> GoodEntry(defs, s) && Agrees(defs, s) { PerfectExact(defs, s); }
    forall s ensures GoodEntry(defs, s) ==> s.Observed? { GoodObserved(defs, s); }
    if forall s :: s in ss ==> GoodEntry(defs, s) {
      forall id ensures Holds(ss, id) <==> Mentions(ss, id) { HoldsMentions(ss, id); }
    }
    assert AllGood(defs, ss) <==> forall s :: s in ss ==> GoodEntry(defs, s);
  }

  lemma GoodObserved(defs: seq<Definition>, s: Scenario)
    ensures GoodEntry(defs, s) ==> s.Observed?
  {
  }

  /** A perfect list answers at least one query for a scenario that requires it and is held. */
  lemma {:induction false} QueriesOf(defs: seq<Definition>, d: Definition, ss: seq<Scenario>)
    requires DistinctIds(defs) && d in defs && d.requiresQuery
    requires forall s :: s in ss ==> PerfectEntry(defs, s)
    ensures MetricsOf(d, ss).queries >= Bit(Holds(ss, d.id))
    decreases |ss|
  {
    hide Declared, DefinitionOf, Max, Holds, DistinctIds;
    if ss == [] {
      NothingHeld(d.id);
    } else {
      var p, s := ss[..|ss| - 1], ss[|ss| - 1];
      assert ss == p + [s];
      QueriesOf(defs, d, p);
      DefinitionUnique(defs, d);
      assert PerfectEntry(defs, s);
      HoldsSnoc(p, s, d.id);
    }
  }

  /** So the pooled test on the total number of queries never decides a verdict. */
  lemma {:induction false} PooledQueries(defs: seq<Definition>, d: Definition, trials: seq<Trial>)
    requires DistinctIds(defs) && d in defs && d.requiresQuery
    requires forall k :: 0 <= k < |trials| ==> Complete(defs, trials[k])
    ensures TrialMetrics(d, trials).queries >= |trials|
    decreases |trials|
  {
    hide Complete, MetricsOf, DistinctIds;
    if trials != [] {
      var n := |trials| - 1;
      assert forall k :: 0 <= k < n ==> trials[..n][k] == trials[k];
      PooledQueries(defs, d, trials[..n]);
      QueriesHeld(defs, d, trials[n]);
    }
  }

  /** The verdict is PROVEN exactly when every single trial is complete. */
  lemma VerdictExact(defs: seq<Definition>, trials: seq<Trial>, repetitions: int)
    requires DistinctIds(defs)
    ensures Aggregated(defs, trials, repetitions).Verdict() == Proven <==> ProvenSpec(defs, trials, repetitions)
  {
    hide Complete, CleanTrial, CampaignOk, Holds, TrialMetrics, DistinctIds, Aggregated, FinalFailures;
    var failures := Aggregated(defs, trials, repetitions).failures;
    CountersAlone(defs, trials, repetitions);
    AggregatedParts(defs, trials, repetitions);
    OneKindEach(failures);
    TrialsClean(defs, trials);
    forall k | 0 <= k < |trials|
      ensures Complete(defs, trials[k]) <==> CleanTrial(defs, trials[k]) && CampaignOk(defs, trials[k].observation)
    {
      CompleteExact(defs, trials[k]);
    }
    if ProvenSpec(defs, trials, repetitions) {
      forall k, d | 0 <= k < |trials| && d in defs ensures Holds(trials[k].Scenarios(), d.id) {
        CompleteHolds(defs, trials[k], d);
      }
      forall d | d in defs && d.requiresQuery ensures TrialMetrics(d, trials).queries >= repetitions {
        PooledQueries(defs, d, trials);
      }
    }
  }

  ghost predicate OnlyQueries(failures: set<Failure>) { forall f :: f in failures ==> f.OutcomeQueryRequired? }

  lemma {:induction false} ScenariosAskNoQuery(defs: seq<Definition>, ss: seq<Scenario>)
    requires OnlyQueries(ScenarioFailures(defs, ss))
    ensures ScenarioFailures(defs, ss) == {}
    decreases |ss|
  {
    hide Declared, DefinitionOf;
    if ss != [] { ScenariosAskNoQuery(defs, ss[..|ss| - 1]); }
  }

  lemma {:induction false} TrialsAskNoQuery(defs: seq<Definition>, trials: seq<Trial>)
    requires OnlyQueries(TrialFailures(defs, trials))
    ensures TrialFailures(defs, trials) == {}
    decreases |trials|
  {
    hide ScenarioFailures, CampaignFailures, DriverOk, TopologyOk, ProcessesOk;
    if trials != [] {
      var n := |trials| - 1;
      TrialsAskNoQuery(defs, trials[..n]);
      var own := OneTrialFailures(defs, n + 1, trials[n]);
      assert own <= TrialFailures(defs, trials);
      ScenariosAskNoQuery(defs, trials[n].Scenarios());
      assert own == {};
    }
  }

  /** The test on the total number of outcome queries never decides: it is never the only failure. */
  lemma PooledTestNeverDecides(defs: seq<Definition>, trials: seq<Trial>, repetitions: int)
    requires DistinctIds(defs)
    ensures OnlyQueries(Aggregated(defs, trials, repetitions).failures) ==>
              Aggregated(defs, trials, repetitions).Verdict() == Proven
  {
    hide TrialFailures, FinalFailures, MetricsMap, Total, TrialDenied, Complete, CleanTrial, CampaignOk, DistinctIds;
    var failures := Aggregated(defs, trials, repetitions).failures;
    if OnlyQueries(failures) {
      assert TrialFailures(defs, trials) <= failures && CountFailures(trials, repetitions) <= failures;
      TrialsAskNoQuery(defs, trials);
      TrialsClean(defs, trials);
      forall k | 0 <= k < |trials| ensures Complete(defs, trials[k]) { CompleteExact(defs, trials[k]); }
      VerdictExact(defs, trials, repetitions);
    }
  }

  lemma CompleteHolds(defs: seq<Definition>, t: Trial, d: Definition)
    requires Complete(defs, t) && d in defs
    ensures Holds(t.Scenarios(), d.id)
  {
  }

  lemma OneKindEach(failures: set<Failure>)
    ensures failures == {} <==> OnlyCampaign(failures) && NoCampaign(failures)
  {
  }

  lemma CountsClean(trials: seq<Trial>, repetitions: int)
    ensures CountFailures(trials, repetitions) == {} <==>
              1 <= repetitions <= MAX_SAFE_INTEGER && |trials| == repetitions
  {
  }

  /**
   A PROVEN verdict means: every trial holds every declared scenario exactly once, with an outcome
   query of its own where one is required; and each scenario's external writes total the repetitions
   times the expected count, without a duplicate.
   */
  lemma ProvenMeans(defs: seq<Definition>, trials: seq<Trial>, repetitions: int, d: Definition, k: nat)
    requires DistinctIds(defs) && d in defs && k < |trials|
    requires Aggregated(defs, trials, repetitions).Verdict() == Proven
    ensures MetricsOf(d, trials[k].Scenarios()).trials == 1 && Holds(trials[k].Scenarios(), d.id)
    ensures NoRepeat(trials[k].Scenarios())
    ensures d.requiresQuery ==> MetricsOf(d, trials[k].Scenarios()).queries >= 1
    ensures var m := Aggregated(defs, trials, repetitions).scenarios;
            && d.id in m && m[d.id].trials == m[d.id].passed == repetitions
            && m[d.id].writes == repetitions * d.expectedWrites
            && m[d.id].duplicates == 0
  {
    hide HeaderOk, AllGood, NoRepeat, Holds, TrialMetrics, MetricsOf, Holders, DistinctIds, Aggregated, Complete;
    VerdictExact(defs, trials, repetitions);
    forall j | 0 <= j < |trials| ensures CleanTrial(defs, trials[j]) && Holds(trials[j].Scenarios(), d.id) {
      CompleteExact(defs, trials[j]);
      CompleteHolds(defs, trials[j], d);
    }
    if d.requiresQuery { QueriesHeld(defs, d, trials[k]); }
    CleanTrialMetrics(defs, d, trials);
    AllHold(d, trials);
    CleanListMetrics(defs, d, trials[k].Scenarios());
    AggregatedScenario(defs, trials, repetitions, d);
  }

  lemma QueriesHeld(defs: seq<Definition>, d: Definition, t: Trial)
    requires DistinctIds(defs) && d in defs && d.requiresQuery && Complete(defs, t)
    ensures MetricsOf(d, t.Scenarios()).queries >= 1
  {
    hide PerfectEntry, Holds, MetricsOf;
    QueriesOf(defs, d, t.Scenarios());
  }

  lemma AggregatedScenario(defs: seq<Definition>, trials: seq<Trial>, repetitions: int, d: Definition)
    requires DistinctIds(defs) && d in defs
    ensures var m := Aggregated(defs, trials, repetitions).scenarios; d.id in m && m[d.id] == TrialMetrics(d, trials)
  {
  }

  lemma {:induction false} CleanTotals(defs: seq<Definition>, part: seq<Definition>, trials: seq<Trial>)
    requires DistinctIds(defs) && forall d :: d in part ==> d in defs
    requires forall k :: 0 <= k < |trials| ==> CleanTrial(defs, trials[k])
    ensures var t := Total(part, trials); t.duplicates == 0 && t.receiptFailures == 0 && t.evidenceFailures == 0
    decreases |part|
  {
    hide CleanTrial, TrialMetrics, Holders, DistinctIds;
    if part != [] {
      CleanTotals(defs, part[..|part| - 1], trials);
      CleanTrialMetrics(defs, part[|part| - 1], trials);
    }
  }

  lemma {:induction false} NoneDenied(defs: seq<Definition>, ss: seq<Scenario>)
    requires AllGood(defs, ss)
    ensures Denied(defs, ss) == 0
    decreases |ss|
  {
    hide Declared, DefinitionOf;
    if ss != [] {
      assert GoodEntry(defs, ss[|ss| - 1]);
      assert forall i :: 0 <= i < |ss| - 1 ==> ss[..|ss| - 1][i] == ss[i];
      NoneDenied(defs, ss[..|ss| - 1]);
    }
  }

  lemma {:induction false} NoTrialDenied(defs: seq<Definition>, trials: seq<Trial>)
    requires forall k :: 0 <= k < |trials| ==> CleanTrial(defs, trials[k])
    ensures TrialDenied(defs, trials) == 0
    decreases |trials|
  {
    hide HeaderOk, AllGood, NoRepeat;
    if trials != [] {
      var n := |trials| - 1;
      assert forall k :: 0 <= k < n ==> trials[..n][k] == trials[k];
      assert CleanTrial(defs, trials[n]);
      NoneDenied(defs, trials[n].Scenarios());
      NoTrialDenied(defs, trials[..n]);
    }
  }

  /** The summed counters of a PROVEN verdict are all zero. */
  lemma ProvenTotals(defs: seq<Definition>, trials: seq<Trial>, repetitions: int)
    requires DistinctIds(defs) && Aggregated(defs, trials, repetitions).Verdict() == Proven
    ensures var a := Aggregated(defs, trials, repetitions);
            && a.duplicateWrites == 0 && a.deniedWrites == 0 && a.unverifiedReceipts == 0 && a.missingEvidence == 0
            && a.totalTrials == repetitions * |defs|
  {
    hide Complete, CleanTrial, TrialMetrics, DistinctIds, TrialFailures, FinalFailures, Total, MetricsMap;
    VerdictExact(defs, trials, repetitions);
    forall k | 0 <= k < |trials| ensures CleanTrial(defs, trials[k]) { CompleteExact(defs, trials[k]); }
    CleanTotals(defs, defs, trials);
    NoTrialDenied(defs, trials);
  }

  // ---------------------------------------------------------------------------------------
  // Additivity and permutation
  // ---------------------------------------------------------------------------------------

  /** Metrics add up over concatenated runs. */
  lemma {:induction false} MetricsAdditive(d: Definition, a: seq<Trial>, b: seq<Trial>)
    ensures TrialMetrics(d, a + b) == Plus(TrialMetrics(d, a), TrialMetrics(d, b))
    decreases |b|
  {
    hide MetricsOf, Plus;
    if b == [] {
      assert a + b == a;
      TrialLatencyNonNegative(d, a);
      PlusZero(TrialMetrics(d, a));
    } else {
      var n := |b| - 1;
      assert (a + b)[..|a| + n] == a + b[..n] && (a + b)[|a| + n] == b[n];
      MetricsAdditive(d, a, b[..n]);
      PlusAssoc(TrialMetrics(d, a), TrialMetrics(d, b[..n]), MetricsOf(d, b[n].Scenarios()));
    }
  }

  /** A permutation of `a + [t]` is `t` inserted somewhere into a permutation of `a`. */
  lemma FindLast(a: seq<Trial>, t: Trial, b: seq<Trial>) returns (front: seq<Trial>, back: seq<Trial>)
    requires multiset(a + [t]) == multiset(b)
    ensures b == front + ([t] + back) && multiset(a) == multiset(front + back) && |b| == |a| + 1
  {
    assert |multiset(a + [t])| == |multiset(b)|;
    assert t in multiset(a + [t]);
    assert t in b;
    var i :| 0 <= i < |b| && b[i] == t;
    front, back := b[..i], b[i + 1..];
    assert b == front + ([t] + back);
    assert multiset(b) == multiset(front) + multiset{t} + multiset(back);
    assert multiset(front + back) == multiset(front) + multiset(back);
    assert multiset(a + [t]) == multiset(a) + multiset{t};
    CancelOne(multiset(a), multiset(front + back), t);
  }

  lemma CancelOne(m: multiset<Trial>, n: multiset<Trial>, t: Trial)
    requires m + multiset{t} == n + multiset{t}
    ensures m == n
  {
    assert m == (m + multiset{t}) - multiset{t} && n == (n + multiset{t}) - multiset{t};
  }

  /** Moving one trial to another place changes no metric. */
  lemma MetricsMove(d: Definition, a: seq<Trial>, t: Trial, front: seq<Trial>, back: seq<Trial>)
    requires TrialMetrics(d, a) == TrialMetrics(d, front + back)
    ensures TrialMetrics(d, a + [t]) == TrialMetrics(d, front + ([t] + back))
  {
    hide TrialMetrics, Plus;
    MetricsAdditive(d, front, back);
    MetricsAdditive(d, a, [t]);
    MetricsAdditive(d, front, [t] + back);
    MetricsAdditive(d, [t], back);
    Shuffle(TrialMetrics(d, front), TrialMetrics(d, back), TrialMetrics(d, [t]));
  }

  /** Reordering the trials changes no metric. */
  lemma {:induction false} MetricsPermute(d: Definition, a: seq<Trial>, b: seq<Trial>)
    requires multiset(a) == multiset(b)
    ensures TrialMetrics(d, a) == TrialMetrics(d, b)
    decreases |a|
  {
    hide TrialMetrics;
    if a == [] {
      assert |b| == |multiset(b)| == |multiset(a)|;
      assert b == [];
    } else {
      var n := |a| - 1;
      assert a == a[..n] + [a[n]];
      var front, back := FindLast(a[..n], a[n], b);
      MetricsPermute(d, a[..n], front + back);
      MetricsMove(d, a[..n], a[n], front, back);
    }
  }

  lemma Shuffle(x: Metrics, y: Metrics, z: Metrics)
    ensures Plus(Plus(x, y), z) == Plus(x, Plus(z, y))
  {
  }

  /** And neither the verdict. */
  lemma VerdictPermutes(defs: seq<Definition>, a: seq<Trial>, b: seq<Trial>, repetitions: int)
    requires DistinctIds(defs) && multiset(a) == multiset(b)
    ensures Aggregated(defs, a, repetitions).Verdict() == Aggregated(defs, b, repetitions).Verdict()
    ensures Aggregated(defs, a, repetitions).scenarios == Aggregated(defs, b, repetitions).scenarios
  {
    hide Complete, TrialMetrics, DistinctIds, TrialFailures, FinalFailures, Total;
    VerdictExact(defs, a, repetitions);
    VerdictExact(defs, b, repetitions);
    assert |multiset(a)| == |multiset(b)|;
    forall d ensures TrialMetrics(d, a) == TrialMetrics(d, b) { MetricsPermute(d, a, b); }
    if forall k :: 0 <= k < |a| ==> Complete(defs, a[k]) { SameTrials(defs, a, b); }
    if forall k :: 0 <= k < |b| ==> Complete(defs, b[k]) { SameTrials(defs, b, a); }
  }

  lemma SameTrials(defs: seq<Definition>, a: seq<Trial>, b: seq<Trial>)
    requires multiset(a) == multiset(b) && forall k :: 0 <= k < |a| ==> Complete(defs, a[k])
    ensures forall k :: 0 <= k < |b| ==> Complete(defs, b[k])
  {
    hide Complete;
    forall k | 0 <= k < |b| ensures Complete(defs, b[k]) {
      assert b[k] in multiset(b);
      assert b[k] in a;
    }
  }
}
