/**
 Which failures the evidence aggregation lists, and exactly when (scripts/benchmark-governed-rollback.ts):
 every failure has its own cause in the trials, told without counters where the entries suffice.
 */
module RollbackCauses {
  import opened Wrappers
  import opened Campaign
  import opened Rollback
  import opened RollbackCounts

  /** What a well-typed entry may show against its definition. */
  datatype Defect = NotPassing | WrongWrites | WritesDenied | WritesExceed | ReceiptMissing | EvidenceMissing

  predicate Defective(f: Defect, expected: nat, s: Scenario) {
    && s.Observed?
    && match f
       case NotPassing => !s.passed
       case WrongWrites => s.writes != expected
       case WritesDenied => expected == 0 && s.writes != 0
       case WritesExceed => s.writes > expected
       case ReceiptMissing => !s.receipt
       case EvidenceMissing => !s.evidence
  }

  predicate Bears(s: Scenario, id: string) { !s.Malformed? && s.id == id }

  /** The entry is one of this declared scenario and shows the defect. */
  predicate Fails(f: Defect, defs: seq<Definition>, id: string, s: Scenario) {
    Declared(defs, id) && Bears(s, id) && Defective(f, DefinitionOf(defs, id).expectedWrites, s)
  }

  predicate ObservedReports(defs: seq<Definition>, s: Scenario, f: Failure) {
    match f
    case ScenarioFailed(id) => Fails(NotPassing, defs, id, s)
    case WriteCountInvalid(id) => Fails(WrongWrites, defs, id, s)
    case DeniedWrites(id) => Fails(WritesDenied, defs, id, s)
    case ReceiptUnverified(id) => Fails(ReceiptMissing, defs, id, s)
    case EvidenceNotPersisted(id) => Fails(EvidenceMissing, defs, id, s)
    case _ => false
  }

  /** The failures that entry `i` of a trial causes. */
  ghost predicate EntryCause(defs: seq<Definition>, ss: seq<Scenario>, i: nat, f: Failure)
    requires i < |ss|
  {
    match f
    case ObservationMalformed => ss[i].Malformed?
    case ObservationIllTyped(id) => Declared(defs, id) && Bears(ss[i], id) && ss[i].IllTyped?
    case ScenarioDuplicate(id) => Bears(ss[i], id) && exists j :: 0 <= j < i && Bears(ss[j], id)
    case ScenarioUndeclared(id) => !Declared(defs, id) && Bears(ss[i], id)
    case DuplicateWrites(id) => Fails(WritesExceed, defs, id, ss[i])
    case _ => ObservedReports(defs, ss[i], f)
  }

  predicate NoExternalDriver(d: Driver) {
    match d
    case Driver(Some(boundary), Named(_)) => boundary != "external-process"
    case _ => true
  }

  predicate NoRealTopology(t: Trial) {
    || t.backend.None? || t.backend.value != "postgresql"
    || t.externalMode.None? || t.externalMode.value != "real" || !t.standardClientPath
  }

  /** A process without an identity, or two that share one. */
  ghost predicate BadProcesses(processes: seq<Option<string>>) {
    || None in processes
    || exists i, j :: 0 <= i < j < |processes| && processes[i] == processes[j]
  }

  /** The failures that the head of trial number `k`, counted from one, causes. */
  ghost predicate HeadCause(defs: seq<Definition>, k: nat, t: Trial, f: Failure) {
    match f
    case CampaignFailure(n, c) => n == k && c in CampaignFailures(defs, t.observation)
    case ExternalDriverRequired(n) => n == k && NoExternalDriver(t.observation.driver)
    case RealTopologyRequired(n) => n == k && NoRealTopology(t)
    case DatabaseRoleMissing(n, r) =>
      n == k && r !in t.roles && (r == "commander_app" || r == "commander_adapter_ops" || r == "commander_owner")
    case ProcessIdentitiesInvalid(n) => n == k && BadProcesses(t.processes)
    case _ => false
  }

  ghost predicate TrialCause(defs: seq<Definition>, k: nat, t: Trial, f: Failure) {
    HeadCause(defs, k, t, f) || exists i :: 0 <= i < |t.Scenarios()| && EntryCause(defs, t.Scenarios(), i, f)
  }

  /** The failures that only all trials together cause. */
  ghost predicate CountCause(defs: seq<Definition>, trials: seq<Trial>, repetitions: int, f: Failure) {
    match f
    case RepetitionsInvalid => !(1 <= repetitions <= 9007199254740991)
    case RepetitionCountMismatch => |trials| != repetitions
    case RepetitionCountInvalid(id) =>
      Declared(defs, id) && |Places(Seen, DefinitionOf(defs, id), trials)| != repetitions
    case OutcomeQueryRequired(id) =>
      && Declared(defs, id)
      && var d := DefinitionOf(defs, id);
         d.requiresQuery && Sum(Queries, d, Flat(trials)) < |Places(Seen, d, trials)|
    case _ => false
  }

  ghost predicate Cause(defs: seq<Definition>, trials: seq<Trial>, repetitions: int, f: Failure) {
    || CountCause(defs, trials, repetitions, f)
    || exists k :: 0 <= k < |trials| && TrialCause(defs, k + 1, trials[k], f)
  }

  // ---------------------------------------------------------------------------------------
  // Failures of one trial
  // ---------------------------------------------------------------------------------------

  lemma {:induction false} InScenarioFailures(defs: seq<Definition>, ss: seq<Scenario>, f: Failure)
    ensures f in ScenarioFailures(defs, ss) <==>
              exists i :: 0 <= i < |ss| && f in EntryFailures(defs, Ids(ss[..i]), ss[i])
    decreases |ss|
  {
    hide EntryFailures, Ids;
    if ss != [] {
      var n := |ss| - 1;
      InScenarioFailures(defs, ss[..n], f);
      assert forall i :: 0 <= i < n ==> ss[..n][..i] == ss[..i] && ss[..n][i] == ss[i];
    }
  }

  /** The failures of a well-typed entry of a declared scenario. */
  lemma ObservedCause(defs: seq<Definition>, s: Scenario, f: Failure)
    requires s.Observed? && Declared(defs, s.id)
    ensures f in ObservedFailures(DefinitionOf(defs, s.id).expectedWrites, s) <==> ObservedReports(defs, s, f)
  {
    hide Declared, DefinitionOf;
  }

  lemma EntryCauseExact(defs: seq<Definition>, ss: seq<Scenario>, i: nat, f: Failure)
    requires i < |ss| && !f.DuplicateWrites?
    ensures f in EntryFailures(defs, Ids(ss[..i]), ss[i]) <==> EntryCause(defs, ss, i, f)
  {
    hide Declared, DefinitionOf, Defective, ObservedFailures;
    var s, p := ss[i], ss[..i];
    assert forall j :: 0 <= j < i ==> p[j] == ss[j];
    if !s.Malformed? {
      assert s.id in Ids(p) <==> exists j :: 0 <= j < i && Bears(ss[j], s.id);
    }
    if s.Observed? && Declared(defs, s.id) { ObservedCause(defs, s, f); }
    else { NotDefective(s); }
  }

  lemma NotDefective(s: Scenario)
    ensures !s.Observed? ==> forall f, expected :: !Defective(f, expected, s)
  {
  }

  lemma HeadCauseExact(defs: seq<Definition>, k: nat, t: Trial, f: Failure)
    ensures f in CampaignPart(defs, k, t) + HeaderFailures(k, t) <==> HeadCause(defs, k, t, f)
  {
    hide CampaignFailures;
    assert DriverOk(t) <==> !NoExternalDriver(t.observation.driver);
    assert TopologyOk(t) <==> !NoRealTopology(t);
    assert ProcessesOk(t) <==> !BadProcesses(t.processes);
  }

  lemma TrialCauseExact(defs: seq<Definition>, k: nat, t: Trial, f: Failure)
    requires !f.DuplicateWrites?
    ensures f in OneTrialFailures(defs, k, t) <==> TrialCause(defs, k, t, f)
  {
    hide EntryCause, EntryFailures, Ids, HeadCause, HeaderFailures, CampaignPart, ScenarioFailures;
    var ss := t.Scenarios();
    HeadCauseExact(defs, k, t, f);
    InScenarioFailures(defs, ss, f);
    forall i | 0 <= i < |ss| ensures f in EntryFailures(defs, Ids(ss[..i]), ss[i]) <==> EntryCause(defs, ss, i, f) {
      EntryCauseExact(defs, ss, i, f);
    }
  }

  lemma TrialFailuresSnoc(defs: seq<Definition>, p: seq<Trial>, t: Trial)
    ensures TrialFailures(defs, p + [t]) == TrialFailures(defs, p) + OneTrialFailures(defs, |p| + 1, t)
  {
    assert (p + [t])[..|p|] == p;
  }

  /** Some trial reports the failure. */
  ghost predicate Reported(defs: seq<Definition>, trials: seq<Trial>, f: Failure) {
    exists k :: 0 <= k < |trials| && f in OneTrialFailures(defs, k + 1, trials[k])
  }

  lemma ReportedSnoc(defs: seq<Definition>, p: seq<Trial>, t: Trial, f: Failure)
    ensures Reported(defs, p + [t], f) <==> Reported(defs, p, f) || f in OneTrialFailures(defs, |p| + 1, t)
  {
    hide OneTrialFailures;
    var trials := p + [t];
    assert trials[|p|] == t;
    if k :| 0 <= k < |p| && f in OneTrialFailures(defs, k + 1, p[k]) { assert trials[k] == p[k]; }
    if k :| 0 <= k < |trials| && f in OneTrialFailures(defs, k + 1, trials[k]) { assert k < |p| ==> trials[k] == p[k]; }
  }

  lemma {:induction false} InTrialFailures(defs: seq<Definition>, trials: seq<Trial>, f: Failure)
    ensures f in TrialFailures(defs, trials) <==> Reported(defs, trials, f)
    decreases |trials|
  {
    hide OneTrialFailures;
    if trials != [] {
      hide TrialFailures, Reported;
      var p, t := trials[..|trials| - 1], trials[|trials| - 1];
      assert trials == p + [t];
      InTrialFailures(defs, p, f);
      TrialFailuresSnoc(defs, p, t);
      ReportedSnoc(defs, p, t, f);
    }
  }

  // ---------------------------------------------------------------------------------------
  // Failures of the closing loop
  // ---------------------------------------------------------------------------------------

  lemma {:induction false} InFinalFailures(defs: seq<Definition>, trials: seq<Trial>, repetitions: int, f: Failure)
    ensures f in FinalFailures(defs, trials, repetitions) <==>
              exists d :: d in defs && f in DefinitionFailures(d, TrialMetrics(d, trials), repetitions)
    decreases |defs|
  {
    hide DefinitionFailures, TrialMetrics;
    if defs != [] {
      var p, d := defs[..|defs| - 1], defs[|defs| - 1];
      assert defs == p + [d];
      InFinalFailures(p, trials, repetitions, f);
      if f in FinalFailures(p, trials, repetitions) {
        var e :| e in p && f in DefinitionFailures(e, TrialMetrics(e, trials), repetitions);
        assert e in defs;
      }
      if e :| e in defs && f in DefinitionFailures(e, TrialMetrics(e, trials), repetitions) {
        assert e in p || e == d;
      }
    }
  }

  /** Some place of some trial shows the defect of the scenario. */
  ghost predicate Occurs(f: Defect, defs: seq<Definition>, id: string, trials: seq<Trial>) {
    exists k :: 0 <= k < |trials| && exists i :: 0 <= i < |trials[k].Scenarios()| && Fails(f, defs, id, trials[k].Scenarios()[i])
  }

  lemma ReceiptPlaces(defs: seq<Definition>, d: Definition, trials: seq<Trial>)
    requires DistinctIds(defs) && d in defs
    ensures |Places(NoReceipt, d, trials)| > 0 <==> Occurs(ReceiptMissing, defs, d.id, trials)
    ensures |Places(NoEvidence, d, trials)| > 0 <==> Occurs(EvidenceMissing, defs, d.id, trials)
  {
    hide DistinctIds, Declared, DefinitionOf;
    DefinitionUnique(defs, d);
    PlaceExists(NoReceipt, d, trials);
    PlaceExists(NoEvidence, d, trials);
  }

  lemma PlaceExists(a: Aspect, d: Definition, trials: seq<Trial>)
    ensures |Places(a, d, trials)| > 0 <==>
              exists k :: 0 <= k < |trials| && exists i :: 0 <= i < |trials[k].Scenarios()| && Shows(a, d, trials[k].Scenarios()[i])
  {
    hide Shows;
    var places := Places(a, d, trials);
    if |places| > 0 {
      var p :| p in places;
      assert Shows(a, d, trials[p.0].Scenarios()[p.1]);
    }
    if k, i :| 0 <= k < |trials| && 0 <= i < |trials[k].Scenarios()| && Shows(a, d, trials[k].Scenarios()[i]) {
      assert (k, i) in places;
    }
  }

  lemma {:induction false} ExcessExists(d: Definition, ss: seq<Scenario>)
    ensures Sum(Excess, d, ss) >= 0
    ensures Sum(Excess, d, ss) > 0 <==> exists s :: s in ss && s.Observed? && s.id == d.id && s.writes > d.expectedWrites
  {
    if ss != [] {
      ExcessExists(d, ss[1..]);
      assert forall s :: s in ss <==> s == ss[0] || s in ss[1..];
    }
  }

  lemma {:induction false} InFlat(trials: seq<Trial>, s: Scenario)
    ensures s in Flat(trials) <==>
              exists k :: 0 <= k < |trials| && exists i :: 0 <= i < |trials[k].Scenarios()| && trials[k].Scenarios()[i] == s
  {
    if trials != [] {
      var rest := trials[1..];
      InFlat(rest, s);
      assert forall k :: 0 <= k < |rest| ==> rest[k] == trials[k + 1];
      assert forall k :: 0 < k < |trials| ==> trials[k] == rest[k - 1];
    }
  }

  lemma ExcessPlaces(defs: seq<Definition>, d: Definition, trials: seq<Trial>)
    requires DistinctIds(defs) && d in defs
    ensures Sum(Excess, d, Flat(trials)) > 0 <==> Occurs(WritesExceed, defs, d.id, trials)
  {
    hide DistinctIds, Declared, DefinitionOf, Flat, Sum;
    DefinitionUnique(defs, d);
    ExcessExists(d, Flat(trials));
    forall s ensures s in Flat(trials) <==>
      exists k :: 0 <= k < |trials| && exists i :: 0 <= i < |trials[k].Scenarios()| && trials[k].Scenarios()[i] == s
    {
      InFlat(trials, s);
    }
  }

  /** The failures of one definition's record. */
  ghost predicate RecordCause(defs: seq<Definition>, d: Definition, trials: seq<Trial>, repetitions: int, f: Failure) {
    match f
    case RepetitionCountInvalid(id) => id == d.id && |Places(Seen, d, trials)| != repetitions
    case OutcomeQueryRequired(id) =>
      id == d.id && d.requiresQuery && Sum(Queries, d, Flat(trials)) < |Places(Seen, d, trials)|
    case DuplicateWrites(id) => id == d.id && Occurs(WritesExceed, defs, id, trials)
    case ReceiptUnverified(id) => id == d.id && Occurs(ReceiptMissing, defs, id, trials)
    case EvidenceNotPersisted(id) => id == d.id && Occurs(EvidenceMissing, defs, id, trials)
    case _ => false
  }

  lemma RecordCauseExact(defs: seq<Definition>, d: Definition, trials: seq<Trial>, repetitions: int, f: Failure)
    requires DistinctIds(defs) && d in defs
    ensures f in DefinitionFailures(d, TrialMetrics(d, trials), repetitions) <==> RecordCause(defs, d, trials, repetitions, f)
  {
    hide DistinctIds, TrialMetrics, Places, Sum, Flat, Occurs, IsMaximum, DefinitionFailures;
    MetricsExact(d, trials);
    ReceiptPlaces(defs, d, trials);
    ExcessPlaces(defs, d, trials);
    DefinitionCause(d, TrialMetrics(d, trials), repetitions, f);
  }

  lemma DefinitionCause(d: Definition, m: Metrics, repetitions: int, f: Failure)
    ensures f in DefinitionFailures(d, m, repetitions) <==>
              || (f == RepetitionCountInvalid(d.id) && m.trials != repetitions)
              || (f == OutcomeQueryRequired(d.id) && d.requiresQuery && m.queries < m.trials)
              || (f == DuplicateWrites(d.id) && m.duplicates > 0)
              || (f == ReceiptUnverified(d.id) && m.receiptFailures > 0)
              || (f == EvidenceNotPersisted(d.id) && m.evidenceFailures > 0)
  {
  }

  ghost predicate FinalCause(defs: seq<Definition>, trials: seq<Trial>, repetitions: int, f: Failure) {
    match f
    case RepetitionCountInvalid(_) => CountCause(defs, trials, repetitions, f)
    case OutcomeQueryRequired(_) => CountCause(defs, trials, repetitions, f)
    case DuplicateWrites(id) => Occurs(WritesExceed, defs, id, trials)
    case ReceiptUnverified(id) => Occurs(ReceiptMissing, defs, id, trials)
    case EvidenceNotPersisted(id) => Occurs(EvidenceMissing, defs, id, trials)
    case _ => false
  }

  lemma OccursDeclared(f: Defect, defs: seq<Definition>, id: string, trials: seq<Trial>)
    requires Occurs(f, defs, id, trials)
    ensures Declared(defs, id)
  {
  }

  lemma FinalCauseExact(defs: seq<Definition>, trials: seq<Trial>, repetitions: int, f: Failure)
    requires DistinctIds(defs)
    ensures f in FinalFailures(defs, trials, repetitions) <==> FinalCause(defs, trials, repetitions, f)
  {
    hide DistinctIds, Declared, DefinitionOf, FinalFailures, DefinitionFailures, TrialMetrics, Places, Sum, Flat, Occurs;
    InFinalFailures(defs, trials, repetitions, f);
    if f in FinalFailures(defs, trials, repetitions) {
      var d :| d in defs && f in DefinitionFailures(d, TrialMetrics(d, trials), repetitions);
      RecordCauseExact(defs, d, trials, repetitions, f);
      DefinitionUnique(defs, d);
    }
    if FinalCause(defs, trials, repetitions, f) {
      FinalDeclared(defs, trials, repetitions, f);
      RecordCauseExact(defs, DefinitionOf(defs, f.id), trials, repetitions, f);
    }
  }

  lemma FinalDeclared(defs: seq<Definition>, trials: seq<Trial>, repetitions: int, f: Failure)
    requires FinalCause(defs, trials, repetitions, f)
    ensures f.RepetitionCountInvalid? || f.OutcomeQueryRequired? || f.DuplicateWrites? || f.ReceiptUnverified? || f.EvidenceNotPersisted?
    ensures Declared(defs, f.id)
  {
    hide Occurs, Declared, DefinitionOf;
    forall k, id | Occurs(k, defs, id, trials) ensures Declared(defs, id) { OccursDeclared(k, defs, id, trials); }
  }

  // ---------------------------------------------------------------------------------------
  // All failures
  // ---------------------------------------------------------------------------------------

  /** The failures that an entry and a record report alike. */
  ghost predicate EntryReports(f: Failure, defect: Defect) {
    match f
    case DuplicateWrites(_) => defect == WritesExceed
    case ReceiptUnverified(_) => defect == ReceiptMissing
    case EvidenceNotPersisted(_) => defect == EvidenceMissing
    case _ => false
  }

  lemma EntryReportsCause(defs: seq<Definition>, k: nat, t: Trial, f: Failure, defect: Defect)
    requires EntryReports(f, defect)
    ensures TrialCause(defs, k, t, f) <==>
              exists i :: 0 <= i < |t.Scenarios()| && Fails(defect, defs, f.id, t.Scenarios()[i])
  {
    hide Fails;
    var ss := t.Scenarios();
    assert !HeadCause(defs, k, t, f);
    forall i | 0 <= i < |ss| ensures EntryCause(defs, ss, i, f) <==> Fails(defect, defs, f.id, ss[i]) {}
  }

  lemma OccursIsCause(defs: seq<Definition>, trials: seq<Trial>, f: Failure, defect: Defect)
    requires EntryReports(f, defect)
    ensures Occurs(defect, defs, f.id, trials) <==>
              exists k :: 0 <= k < |trials| && TrialCause(defs, k + 1, trials[k], f)
  {
    hide Fails, TrialCause;
    forall k | 0 <= k < |trials|
      ensures TrialCause(defs, k + 1, trials[k], f) <==>
                exists i :: 0 <= i < |trials[k].Scenarios()| && Fails(defect, defs, f.id, trials[k].Scenarios()[i])
    {
      EntryReportsCause(defs, k + 1, trials[k], f, defect);
    }
  }

  lemma NoCountCause(defs: seq<Definition>, trials: seq<Trial>, repetitions: int, f: Failure)
    ensures f in CountFailures(trials, repetitions) <==>
              (f.RepetitionsInvalid? || f.RepetitionCountMismatch?) && CountCause(defs, trials, repetitions, f)
    ensures f.RepetitionCountInvalid? || f.OutcomeQueryRequired? ==>
              forall k, t :: !TrialCause(defs, k, t, f)
  {
  }

  lemma NoDuplicateWritesInTrial(defs: seq<Definition>, k: nat, t: Trial, id: string)
    ensures DuplicateWrites(id) !in OneTrialFailures(defs, k, t)
  {
    hide EntryFailures, Ids, CampaignFailures;
    var f := DuplicateWrites(id);
    InScenarioFailures(defs, t.Scenarios(), f);
    forall i | 0 <= i < |t.Scenarios()| ensures f !in EntryFailures(defs, Ids(t.Scenarios()[..i]), t.Scenarios()[i]) {
      NoDuplicateWritesInEntry(defs, Ids(t.Scenarios()[..i]), t.Scenarios()[i], id);
    }
  }

  lemma NoDuplicateWritesInEntry(defs: seq<Definition>, seen: set<string>, s: Scenario, id: string)
    ensures DuplicateWrites(id) !in EntryFailures(defs, seen, s)
  {
  }

  /** Every failure is listed exactly for its own cause, for trials of any kind. */
  lemma FailuresExact(defs: seq<Definition>, trials: seq<Trial>, repetitions: int, f: Failure)
    requires DistinctIds(defs)
    ensures f in Aggregated(defs, trials, repetitions).failures <==> Cause(defs, trials, repetitions, f)
  {
    hide DistinctIds, TrialFailures, FinalFailures, CountFailures, OneTrialFailures, TrialCause, CountCause, Occurs,
         MetricsMap, TrialDenied, Total;
    FinalCauseExact(defs, trials, repetitions, f);
    InTrialFailures(defs, trials, f);
    forall d | EntryReports(f, d) { OccursIsCause(defs, trials, f, d); }
    NoCountCause(defs, trials, repetitions, f);
    forall k | 0 <= k < |trials|
      ensures f in OneTrialFailures(defs, k + 1, trials[k]) <==> !f.DuplicateWrites? && TrialCause(defs, k + 1, trials[k], f)
    {
      if f.DuplicateWrites? { NoDuplicateWritesInTrial(defs, k + 1, trials[k], f.id); }
      else { TrialCauseExact(defs, k + 1, trials[k], f); }
    }
    OnlyCounts(defs, trials, repetitions, f);
  }

  lemma OnlyCounts(defs: seq<Definition>, trials: seq<Trial>, repetitions: int, f: Failure)
    ensures CountCause(defs, trials, repetitions, f) ==> f.RepetitionsInvalid? || f.RepetitionCountMismatch? || f.RepetitionCountInvalid? || f.OutcomeQueryRequired?
  {
  }
}
