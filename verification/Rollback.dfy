/**
 Evidence aggregation of the governed-rollback benchmark (scripts/benchmark-governed-rollback.ts).

 A trial is one campaign observation, with what the benchmark reads of it beyond its validator.
 */
module Rollback {
  import opened Wrappers
  import opened Campaign

  /** Absent, blank and non-string fields read as `None`. */
  datatype Trial = Trial(
    observation: Observation,
    backend: Option<string>, externalMode: Option<string>, standardClientPath: bool,
    roles: set<string>,
    processes: seq<Option<string>>)
  {
    function Scenarios(): seq<Scenario> { observation.Scenarios() }
  }

  datatype Metrics = Metrics(
    trials: nat, passed: nat, writes: int, queries: int, duplicates: nat,
    receiptFailures: nat, evidenceFailures: nat, maxLatency: int)

  datatype Failure =
    | RepetitionsInvalid
    | RepetitionCountMismatch
    | CampaignFailure(trial: nat, reported: Code)
    | TrialThrew(trial: nat, code: string)
    | ExternalDriverRequired(trial: nat)
    | RealTopologyRequired(trial: nat)
    | DatabaseRoleMissing(trial: nat, role: string)
    | ProcessIdentitiesInvalid(trial: nat)
    | ObservationMalformed
    | ObservationIllTyped(id: string)
    | ScenarioDuplicate(id: string)
    | ScenarioUndeclared(id: string)
    | ScenarioFailed(id: string)
    | WriteCountInvalid(id: string)
    | DeniedWrites(id: string)
    | ReceiptUnverified(id: string)
    | EvidenceNotPersisted(id: string)
    | RepetitionCountInvalid(id: string)
    | DuplicateWrites(id: string)
    | OutcomeQueryRequired(id: string)
    | RunFailure(code: string)

  datatype Verdict = Proven | NotReady

  datatype Aggregate = Aggregate(
    failures: set<Failure>,
    scenarios: map<string, Metrics>,
    deniedWrites: int, duplicateWrites: nat, unverifiedReceipts: nat, missingEvidence: nat, totalTrials: nat)
  {
    function Verdict(): Verdict { if failures == {} then Proven else NotReady }
  }

  const MAX_SAFE_INTEGER := 0x1F_FFFF_FFFF_FFFF

  const REQUIRED_ROLES: set<string> := {"commander_app", "commander_adapter_ops", "commander_owner"}

  // ---------------------------------------------------------------------------------------
  // Metrics
  // ---------------------------------------------------------------------------------------

  function Max(a: int, b: int): int { if a < b then b else a }

  function Over(n: int): nat { if n > 0 then n else 0 }

  const ZERO := Metrics(0, 0, 0, 0, 0, 0, 0, 0)

  function Plus(a: Metrics, b: Metrics): Metrics {
    Metrics(a.trials + b.trials, a.passed + b.passed, a.writes + b.writes, a.queries + b.queries,
            a.duplicates + b.duplicates, a.receiptFailures + b.receiptFailures,
            a.evidenceFailures + b.evidenceFailures, Max(a.maxLatency, b.maxLatency))
  }

  function Bit(b: bool): nat { if b then 1 else 0 }

  /** What one observed scenario adds to its definition's metrics. */
  function One(d: Definition, s: Scenario): Metrics {
    if s.Observed? && s.id == d.id
    then Metrics(1, Bit(s.passed), s.writes, s.queries, Over(s.writes - d.expectedWrites), Bit(!s.receipt),
                 Bit(!s.evidence), Max(0, s.latency))
    else ZERO
  }

  function MetricsOf(d: Definition, ss: seq<Scenario>): Metrics {
    if ss == [] then ZERO else Plus(MetricsOf(d, ss[..|ss| - 1]), One(d, ss[|ss| - 1]))
  }

  function TrialMetrics(d: Definition, trials: seq<Trial>): Metrics {
    if trials == [] then ZERO
    else Plus(TrialMetrics(d, trials[..|trials| - 1]), MetricsOf(d, trials[|trials| - 1].Scenarios()))
  }

  // ---------------------------------------------------------------------------------------
  // Failures
  // ---------------------------------------------------------------------------------------

  function Ids(ss: seq<Scenario>): set<string> { set s | s in ss && !s.Malformed? :: s.id }

  /** The failures one scenario entry adds, given the ids seen before it in its trial. */
  function EntryFailures(defs: seq<Definition>, seen: set<string>, s: Scenario): set<Failure> {
    if s.Malformed? then {ObservationMalformed}
    else
      When(s.id in seen, ScenarioDuplicate(s.id)) +
      if !Declared(defs, s.id) then {ScenarioUndeclared(s.id)}
      else if s.IllTyped? then {ObservationIllTyped(s.id)}
      else
        ObservedFailures(DefinitionOf(defs, s.id).expectedWrites, s)
  }

  function ObservedFailures(expected: nat, s: Scenario): set<Failure>
    requires s.Observed?
  {
    When(!s.passed, ScenarioFailed(s.id)) + When(s.writes != expected, WriteCountInvalid(s.id)) +
    When(expected == 0 && s.writes != 0, DeniedWrites(s.id)) +
    When(!s.receipt, ReceiptUnverified(s.id)) + When(!s.evidence, EvidenceNotPersisted(s.id))
  }

  function ScenarioFailures(defs: seq<Definition>, ss: seq<Scenario>): set<Failure> {
    if ss == [] then {} else
      ScenarioFailures(defs, ss[..|ss| - 1]) + EntryFailures(defs, Ids(ss[..|ss| - 1]), ss[|ss| - 1])
  }

  /** External writes of scenarios that expect none. */
  function Denied(defs: seq<Definition>, ss: seq<Scenario>): int {
    if ss == [] then 0 else Denied(defs, ss[..|ss| - 1]) + EntryDenied(defs, ss[|ss| - 1])
  }

  function EntryDenied(defs: seq<Definition>, s: Scenario): int {
    if s.Observed? && Declared(defs, s.id) && DefinitionOf(defs, s.id).expectedWrites == 0 then s.writes else 0
  }

  predicate DriverOk(t: Trial) { ExternalDriver(t.observation.driver) }

  predicate TopologyOk(t: Trial) {
    t.backend == Some("postgresql") && t.externalMode == Some("real") && t.standardClientPath
  }

  predicate ProcessesOk(t: Trial) {
    && (forall i :: 0 <= i < |t.processes| ==> t.processes[i].Some?)
    && (forall i, j :: 0 <= i < j < |t.processes| ==> t.processes[i] != t.processes[j])
  }

  function CampaignPart(defs: seq<Definition>, k: nat, t: Trial): set<Failure> {
    set c | c in CampaignFailures(defs, t.observation) :: CampaignFailure(k, c)
  }

  function HeaderFailures(k: nat, t: Trial): set<Failure> {
    When(!DriverOk(t), ExternalDriverRequired(k)) +
    When(!TopologyOk(t), RealTopologyRequired(k)) +
    (set r | r in REQUIRED_ROLES && r !in t.roles :: DatabaseRoleMissing(k, r)) +
    When(!ProcessesOk(t), ProcessIdentitiesInvalid(k))
  }

  /** Everything one trial contributes. */
  function OneTrialFailures(defs: seq<Definition>, k: nat, t: Trial): set<Failure> {
    CampaignPart(defs, k, t) + HeaderFailures(k, t) + ScenarioFailures(defs, t.Scenarios())
  }

  function TrialFailures(defs: seq<Definition>, trials: seq<Trial>): set<Failure> {
    if trials == [] then {} else
      var n := |trials| - 1;
      TrialFailures(defs, trials[..n]) + OneTrialFailures(defs, n + 1, trials[n])
  }

  function TrialDenied(defs: seq<Definition>, trials: seq<Trial>): int {
    if trials == [] then 0
    else TrialDenied(defs, trials[..|trials| - 1]) + Denied(defs, trials[|trials| - 1].Scenarios())
  }

  function DefinitionFailures(d: Definition, m: Metrics, repetitions: int): set<Failure> {
    When(m.trials != repetitions, RepetitionCountInvalid(d.id)) +
    When(m.duplicates > 0, DuplicateWrites(d.id)) +
    When(m.receiptFailures > 0, ReceiptUnverified(d.id)) +
    When(m.evidenceFailures > 0, EvidenceNotPersisted(d.id)) +
    When(d.requiresQuery && m.queries < m.trials, OutcomeQueryRequired(d.id))
  }

  function FinalFailures(defs: seq<Definition>, trials: seq<Trial>, repetitions: int): set<Failure> {
    if defs == [] then {} else
      var d := defs[|defs| - 1];
      FinalFailures(defs[..|defs| - 1], trials, repetitions) + DefinitionFailures(d, TrialMetrics(d, trials), repetitions)
  }

  function CountFailures(trials: seq<Trial>, repetitions: int): set<Failure> {
    When(repetitions < 1 || repetitions > MAX_SAFE_INTEGER, RepetitionsInvalid) +
    When(|trials| != repetitions, RepetitionCountMismatch)
  }

  function AllIds(defs: seq<Definition>): set<string> { set d | d in defs :: d.id }

  lemma AllIdsDeclared(defs: seq<Definition>, id: string)
    ensures id in AllIds(defs) <==> Declared(defs, id)
  {
  }

  function MetricsMap(defs: seq<Definition>, trials: seq<Trial>): (m: map<string, Metrics>)
  {
    map id | id in AllIds(defs) :: AllIdsDeclared(defs, id); TrialMetrics(DefinitionOf(defs, id), trials)
  }

  /** The metrics of all definitions, added up. */
  function Total(defs: seq<Definition>, trials: seq<Trial>): Metrics {
    if defs == [] then ZERO else Plus(Total(defs[..|defs| - 1], trials), TrialMetrics(defs[|defs| - 1], trials))
  }

  function Aggregated(defs: seq<Definition>, trials: seq<Trial>, repetitions: int): Aggregate {
    var total := Total(defs, trials);
    Aggregate(
      CountFailures(trials, repetitions) + TrialFailures(defs, trials) + FinalFailures(defs, trials, repetitions),
      MetricsMap(defs, trials), TrialDenied(defs, trials),
      total.duplicates, total.receiptFailures, total.evidenceFailures, |trials| * |defs|)
  }

  // ---------------------------------------------------------------------------------------
  // The loops
  // ---------------------------------------------------------------------------------------

  /** The metric records after the trials so far and part of the next. */
  ghost predicate Tallied(defs: seq<Definition>, m: map<string, Metrics>, trials: seq<Trial>, ss: seq<Scenario>) {
    && m.Keys == AllIds(defs)
    && forall d :: d in defs && d.id in m ==> m[d.id] == Plus(TrialMetrics(d, trials), MetricsOf(d, ss))
  }

  lemma PlusZero(m: Metrics)
    requires m.maxLatency >= 0
    ensures Plus(m, ZERO) == m == Plus(ZERO, m)
  {
  }

  lemma PlusAssoc(a: Metrics, b: Metrics, c: Metrics)
    ensures Plus(Plus(a, b), c) == Plus(a, Plus(b, c)) && Plus(a, b) == Plus(b, a)
  {
  }

  lemma {:induction false} LatencyNonNegative(d: Definition, ss: seq<Scenario>)
    ensures MetricsOf(d, ss).maxLatency >= 0
    decreases |ss|
  {
  }

  lemma {:induction false} TrialLatencyNonNegative(d: Definition, trials: seq<Trial>)
    ensures TrialMetrics(d, trials).maxLatency >= 0
    decreases |trials|
  {
  }

  lemma SnocScenario(defs: seq<Definition>, ss: seq<Scenario>, i: nat)
    requires i < |ss|
    ensures ss[..i + 1][..i] == ss[..i] && ss[..i + 1][i] == ss[i] && |ss[..i + 1]| == i + 1
    ensures Ids(ss[..i + 1]) == Ids(ss[..i]) + if ss[i].Malformed? then {} else {ss[i].id}
    ensures ScenarioFailures(defs, ss[..i + 1]) == ScenarioFailures(defs, ss[..i]) + EntryFailures(defs, Ids(ss[..i]), ss[i])
    ensures forall d :: MetricsOf(d, ss[..i + 1]) == Plus(MetricsOf(d, ss[..i]), One(d, ss[i]))
  {
  }

  /** One entry that names no well-typed declared scenario leaves the records alone. */
  lemma TallySkip(defs: seq<Definition>, m: map<string, Metrics>, trials: seq<Trial>, ss: seq<Scenario>, i: nat)
    requires i < |ss| && Tallied(defs, m, trials, ss[..i])
    requires ss[i].Observed? ==> !Declared(defs, ss[i].id)
    ensures Tallied(defs, m, trials, ss[..i + 1])
  {
    hide Plus;
    SnocScenario(defs, ss, i);
    forall d | d in defs && d.id in m ensures m[d.id] == Plus(TrialMetrics(d, trials), MetricsOf(d, ss[..i + 1])) {
      assert One(d, ss[i]) == ZERO by { if ss[i].Observed? { AllIdsDeclared(defs, d.id); } }
      LatencyNonNegative(d, ss[..i]);
      PlusZero(MetricsOf(d, ss[..i]));
    }
  }

  lemma TallyOne(defs: seq<Definition>, m: map<string, Metrics>, trials: seq<Trial>, ss: seq<Scenario>, i: nat)
    requires DistinctIds(defs) && i < |ss| && Tallied(defs, m, trials, ss[..i])
    requires ss[i].Observed? && Declared(defs, ss[i].id)
    ensures ss[i].id in m
    ensures var d := DefinitionOf(defs, ss[i].id);
            Tallied(defs, m[ss[i].id := Plus(m[ss[i].id], One(d, ss[i]))], trials, ss[..i + 1])
  {
    hide Plus;
    AllIdsDeclared(defs, ss[i].id);
    SnocScenario(defs, ss, i);
    var e := DefinitionOf(defs, ss[i].id);
    var n := m[ss[i].id := Plus(m[ss[i].id], One(e, ss[i]))];
    forall d | d in defs && d.id in n ensures n[d.id] == Plus(TrialMetrics(d, trials), MetricsOf(d, ss[..i + 1])) {
      DefinitionUnique(defs, d);
      PlusAssoc(TrialMetrics(d, trials), MetricsOf(d, ss[..i]), One(d, ss[i]));
      if d.id != ss[i].id {
        LatencyNonNegative(d, ss[..i]);
        PlusZero(MetricsOf(d, ss[..i]));
      }
    }
  }

  lemma SnocDenied(defs: seq<Definition>, ss: seq<Scenario>, i: nat)
    requires i < |ss|
    ensures Denied(defs, ss[..i + 1]) == Denied(defs, ss[..i]) + EntryDenied(defs, ss[i])
  {
    assert ss[..i + 1][..i] == ss[..i];
  }

  /** The records after one entry. */
  function EntryRecords(defs: seq<Definition>, m: map<string, Metrics>, s: Scenario): map<string, Metrics> {
    if s.Observed? && Declared(defs, s.id) && s.id in m
    then m[s.id := Plus(m[s.id], One(DefinitionOf(defs, s.id), s))]
    else m
  }

  lemma TallyStep(defs: seq<Definition>, m: map<string, Metrics>, trials: seq<Trial>, ss: seq<Scenario>, i: nat)
    requires DistinctIds(defs) && i < |ss| && Tallied(defs, m, trials, ss[..i])
    ensures Tallied(defs, EntryRecords(defs, m, ss[i]), trials, ss[..i + 1])
  {
    hide Tallied, One, Plus, DistinctIds;
    if ss[i].Observed? && Declared(defs, ss[i].id) { TallyOne(defs, m, trials, ss, i); }
    else { TallySkip(defs, m, trials, ss, i); }
  }

  /** The body of the scenario loop: one entry, with its early exits. */
  method TallyEntry(defs: seq<Definition>, seen: set<string>, s: Scenario, scenarios: map<string, Metrics>, denied: int)
    returns (failures: set<Failure>, records: map<string, Metrics>, deniedWrites: int)
    requires scenarios.Keys == AllIds(defs)
    ensures failures == EntryFailures(defs, seen, s)
    ensures records == EntryRecords(defs, scenarios, s)
    ensures deniedWrites == denied + EntryDenied(defs, s)
  {
    hide One, Plus, ObservedFailures;
    failures, records, deniedWrites := {}, scenarios, denied;
    if s.Malformed? {
      failures := {ObservationMalformed};
      return;
    }
    if s.id in seen { failures := {ScenarioDuplicate(s.id)}; }
    if !Declared(defs, s.id) {
      failures := failures + {ScenarioUndeclared(s.id)};
      return;
    }
    if s.IllTyped? {
      failures := failures + {ObservationIllTyped(s.id)};
      return;
    }
    var d := DefinitionOf(defs, s.id);
    AllIdsDeclared(defs, s.id);
    records := records[s.id := Plus(records[s.id], One(d, s))];
    if d.expectedWrites == 0 && s.writes != 0 { deniedWrites := deniedWrites + s.writes; }
    var found := CheckObserved(d.expectedWrites, s);
    failures := failures + found;
  }

  method CheckObserved(expected: nat, s: Scenario) returns (failures: set<Failure>)
    requires s.Observed?
    ensures failures == ObservedFailures(expected, s)
  {
    failures := {};
    if !s.passed { failures := failures + {ScenarioFailed(s.id)}; }
    if s.writes != expected { failures := failures + {WriteCountInvalid(s.id)}; }
    if expected == 0 && s.writes != 0 { failures := failures + {DeniedWrites(s.id)}; }
    if !s.receipt { failures := failures + {ReceiptUnverified(s.id)}; }
    if !s.evidence { failures := failures + {EvidenceNotPersisted(s.id)}; }
  }

  /** The loop over one trial's scenarios, updating the shared records. */
  method TallyScenarios(defs: seq<Definition>, ghost trials: seq<Trial>, ss: seq<Scenario>,
                        scenarios: map<string, Metrics>, denied: int)
    returns (failures: set<Failure>, records: map<string, Metrics>, deniedWrites: int)
    requires DistinctIds(defs) && Tallied(defs, scenarios, trials, [])
    ensures failures == ScenarioFailures(defs, ss)
    ensures Tallied(defs, records, trials, ss)
    ensures deniedWrites == denied + Denied(defs, ss)
  {
    hide Tallied, One, MetricsOf, Plus, DistinctIds, EntryFailures, EntryRecords, EntryDenied, Denied, ScenarioFailures;
    failures, records, deniedWrites := {}, scenarios, denied;
    var seen: set<string> := {};
    assert ss[..0] == [];
    NothingTallied(defs);
    for i := 0 to |ss|
      invariant failures == ScenarioFailures(defs, ss[..i])
      invariant seen == Ids(ss[..i])
      invariant Tallied(defs, records, trials, ss[..i])
      invariant deniedWrites == denied + Denied(defs, ss[..i])
    {
      SnocScenario(defs, ss, i);
      SnocDenied(defs, ss, i);
      TallyStep(defs, records, trials, ss, i);
      TalliedKeys(defs, records, trials, ss[..i]);
      var found: set<Failure>;
      found, records, deniedWrites := TallyEntry(defs, seen, ss[i], records, deniedWrites);
      failures := failures + found;
      if !ss[i].Malformed? { seen := seen + {ss[i].id}; }
    }
    assert ss[..|ss|] == ss;
  }

  lemma NothingTallied(defs: seq<Definition>)
    ensures ScenarioFailures(defs, []) == {} && Denied(defs, []) == 0
    ensures TrialFailures(defs, []) == {} && TrialDenied(defs, []) == 0
  {
  }

  lemma TalliedKeys(defs: seq<Definition>, m: map<string, Metrics>, trials: seq<Trial>, ss: seq<Scenario>)
    requires Tallied(defs, m, trials, ss)
    ensures m.Keys == AllIds(defs)
  {
  }

  lemma TallyStart(defs: seq<Definition>, m: map<string, Metrics>)
    requires m.Keys == AllIds(defs) && forall id :: id in m ==> m[id] == ZERO
    ensures Tallied(defs, m, [], [])
  {
    hide Plus;
    PlusZero(ZERO);
    forall d | d in defs && d.id in m ensures m[d.id] == Plus(TrialMetrics(d, []), MetricsOf(d, [])) {
      assert TrialMetrics(d, []) == ZERO && MetricsOf(d, []) == ZERO;
    }
  }

  lemma TallyTrial(defs: seq<Definition>, m: map<string, Metrics>, trials: seq<Trial>, t: Trial)
    requires Tallied(defs, m, trials, t.Scenarios())
    ensures Tallied(defs, m, trials + [t], [])
  {
    hide Plus;
    assert (trials + [t])[..|trials|] == trials;
    forall d | d in defs && d.id in m ensures m[d.id] == Plus(TrialMetrics(d, trials + [t]), MetricsOf(d, [])) {
      TrialLatencyNonNegative(d, trials + [t]);
      PlusZero(TrialMetrics(d, trials + [t]));
    }
  }

  lemma TalliedIsMap(defs: seq<Definition>, m: map<string, Metrics>, trials: seq<Trial>)
    requires DistinctIds(defs) && Tallied(defs, m, trials, [])
    ensures m == MetricsMap(defs, trials)
  {
    hide TrialMetrics, Plus, DistinctIds;
    forall id | id in m ensures Declared(defs, id) && m[id] == TrialMetrics(DefinitionOf(defs, id), trials) {
      AllIdsDeclared(defs, id);
      var d := DefinitionOf(defs, id);
      TrialLatencyNonNegative(d, trials);
      PlusZero(TrialMetrics(d, trials));
      assert MetricsOf(d, []) == ZERO;
    }
  }

  lemma SnocTrial(defs: seq<Definition>, trials: seq<Trial>, k: nat)
    requires k < |trials|
    ensures trials[..k + 1] == trials[..k] + [trials[k]]
    ensures TrialFailures(defs, trials[..k + 1]) ==
              TrialFailures(defs, trials[..k]) + OneTrialFailures(defs, k + 1, trials[k])
    ensures TrialDenied(defs, trials[..k + 1]) == TrialDenied(defs, trials[..k]) + Denied(defs, trials[k].Scenarios())
  {
  }

  /** A list has as many members as positions exactly when no member repeats. */
  lemma {:induction false} SizeIsLength<T>(s: seq<T>)
    ensures |(set x | x in s)| <= |s|
    ensures |(set x | x in s)| == |s| <==> forall i, j :: 0 <= i < j < |s| ==> s[i] != s[j]
  {
    if s != [] {
      var n := |s| - 1;
      var p, x := s[..n], s[n];
      assert s == p + [x];
      SizeIsLength(p);
      assert (set y | y in s) == (set y | y in p) + {x};
      assert forall i :: 0 <= i < n ==> p[i] == s[i];
      if x in p {
        var i :| 0 <= i < n && p[i] == x;
        assert s[i] == s[n];
        assert (set y | y in s) == (set y | y in p);
      }
    }
  }

  /** The checks of one trial's header: driver, topology, roles and process identities. */
  method CheckHeader(k: nat, t: Trial) returns (failures: set<Failure>)
    ensures failures == HeaderFailures(k, t)
  {
    hide DriverOk, TopologyOk;
    failures := {};
    if !DriverOk(t) { failures := failures + {ExternalDriverRequired(k)}; }
    if !TopologyOk(t) { failures := failures + {RealTopologyRequired(k)}; }
    var missing := MissingRoles(k, t.roles);
    failures := failures + missing;
    SizeIsLength(t.processes);
    if None in t.processes || |(set p | p in t.processes)| != |t.processes| {
      failures := failures + {ProcessIdentitiesInvalid(k)};
    }
    assert ProcessesOk(t) <==> None !in t.processes && |(set p | p in t.processes)| == |t.processes|;
  }

  method MissingRoles(k: nat, roles: set<string>) returns (failures: set<Failure>)
    ensures failures == set r | r in REQUIRED_ROLES && r !in roles :: DatabaseRoleMissing(k, r)
  {
    failures := {};
    var rest := REQUIRED_ROLES;
    ghost var seen: set<string> := {};
    while rest != {}
      invariant rest + seen == REQUIRED_ROLES
      invariant failures == set r | r in seen && r !in roles :: DatabaseRoleMissing(k, r)
      decreases rest
    {
      var r :| r in rest;
      if r !in roles { failures := failures + {DatabaseRoleMissing(k, r)}; }
      rest, seen := rest - {r}, seen + {r};
    }
  }

  /** The body of the trial loop. */
  method AggregateTrial(defs: seq<Definition>, ghost trials: seq<Trial>, k: nat, t: Trial,
                        scenarios: map<string, Metrics>, denied: int)
    returns (failures: set<Failure>, records: map<string, Metrics>, deniedWrites: int)
    requires DistinctIds(defs) && Tallied(defs, scenarios, trials, [])
    ensures failures == OneTrialFailures(defs, k, t)
    ensures Tallied(defs, records, trials + [t], [])
    ensures deniedWrites == denied + Denied(defs, t.Scenarios())
  {
    hide Tallied, HeaderFailures, ScenarioFailures, DistinctIds, Denied, CampaignFailures;
    var codes := ValidateCampaignObservation(defs, t.observation);
    var header := CheckHeader(k, t);
    failures, records, deniedWrites := TallyScenarios(defs, trials, t.Scenarios(), scenarios, denied);
    failures := (set c | c in codes :: CampaignFailure(k, c)) + header + failures;
    TallyTrial(defs, records, trials, t);
  }

  /** `aggregateGovernedRollbackObservations`. */
  method AggregateObservations(defs: seq<Definition>, trials: seq<Trial>, repetitions: int) returns (r: Aggregate)
    requires DistinctIds(defs)
    ensures r == Aggregated(defs, trials, repetitions)
  {
    hide Tallied, OneTrialFailures, DistinctIds, Denied, TrialMetrics, Plus, TrialFailures, TrialDenied, FinalFailures,
         MetricsMap, Total;
    var scenarios := map id | id in AllIds(defs) :: ZERO;
    var failures: set<Failure> := {};
    if repetitions < 1 || repetitions > MAX_SAFE_INTEGER { failures := failures + {RepetitionsInvalid}; }
    if |trials| != repetitions { failures := failures + {RepetitionCountMismatch}; }
    ghost var counted := failures;
    var denied := 0;
    TallyStart(defs, scenarios);
    NothingTallied(defs);
    assert trials[..0] == [];
    for k := 0 to |trials|
      invariant failures == counted + TrialFailures(defs, trials[..k])
      invariant denied == TrialDenied(defs, trials[..k])
      invariant Tallied(defs, scenarios, trials[..k], [])
    {
      var found: set<Failure>;
      SnocTrial(defs, trials, k);
      found, scenarios, denied := AggregateTrial(defs, trials[..k], k + 1, trials[k], scenarios, denied);
      failures := failures + found;
    }
    assert trials[..|trials|] == trials;
    TalliedIsMap(defs, scenarios, trials);
    var finals, total := CloseDefinitions(defs, trials, scenarios, repetitions);
    assert counted == CountFailures(trials, repetitions);
    r := Aggregate(failures + finals, scenarios, denied, total.duplicates, total.receiptFailures,
                   total.evidenceFailures, |trials| * |defs|);
  }

  method CheckDefinition(d: Definition, m: Metrics, repetitions: int) returns (failures: set<Failure>)
    ensures failures == DefinitionFailures(d, m, repetitions)
  {
    failures := {};
    if m.trials != repetitions { failures := failures + {RepetitionCountInvalid(d.id)}; }
    if m.duplicates > 0 { failures := failures + {DuplicateWrites(d.id)}; }
    if m.receiptFailures > 0 { failures := failures + {ReceiptUnverified(d.id)}; }
    if m.evidenceFailures > 0 { failures := failures + {EvidenceNotPersisted(d.id)}; }
    if d.requiresQuery && m.queries < m.trials { failures := failures + {OutcomeQueryRequired(d.id)}; }
  }

  /** The closing loop over the definitions, and the sums over their records. */
  method CloseDefinitions(defs: seq<Definition>, ghost trials: seq<Trial>, scenarios: map<string, Metrics>,
                          repetitions: int) returns (failures: set<Failure>, total: Metrics)
    requires DistinctIds(defs) && scenarios == MetricsMap(defs, trials)
    ensures failures == FinalFailures(defs, trials, repetitions)
    ensures total == Total(defs, trials)
  {
    hide TrialMetrics, DefinitionFailures;
    failures, total := {}, ZERO;
    for i := 0 to |defs|
      invariant failures == FinalFailures(defs[..i], trials, repetitions)
      invariant total == Total(defs[..i], trials)
    {
      var d := defs[i];
      DefinitionUnique(defs, d);
      AllIdsDeclared(defs, d.id);
      assert defs[..i + 1][..i] == defs[..i];
      var found := CheckDefinition(d, scenarios[d.id], repetitions);
      failures := failures + found;
      total := Plus(total, scenarios[d.id]);
    }
    assert defs[..|defs|] == defs;
  }
}
