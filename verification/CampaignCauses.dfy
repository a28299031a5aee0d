/**
 Which failures the campaign validator reports, and exactly when (scripts/design-partner-faults.ts):
 every code has its own cause in the fields of the observation, told without counts.
 */
module CampaignCauses {
  import opened Wrappers
  import opened Campaign

  predicate IsFaultPoint(p: string) {
    || p == "before_remote_request" || p == "after_remote_commit" || p == "before_local_complete"
    || p == "during_outcome_query" || p == "during_compensation" || p == "during_evidence_persist"
  }

  ghost predicate Repeats(s: seq<string>, x: string) { exists i, j :: 0 <= i < j < |s| && s[i] == x && s[j] == x }

  /** Two entries of the list carry the id. */
  ghost predicate MentionsTwice(ss: seq<Scenario>, id: string) {
    exists i, j :: 0 <= i < j < |ss| && Carries(ss[i], id) && Carries(ss[j], id)
  }

  predicate Carries(s: Scenario, id: string) { !s.Malformed? && s.id == id }

  /** An observed or an ill-typed entry fails what the code names, by its own fields. */
  predicate Misses(d: Definition, s: Scenario, c: Code) {
    match s
    case Malformed(_) => false
    case Observed(id, passed, expected, writes, queries, disposition, receipt, evidence, latency) =>
      (match c
       case NotPassed(_) => !passed
       case WritesInvalid(_) => expected != d.expectedWrites || writes != d.expectedWrites
       case QueryRequired(_) => d.requiresQuery && queries < 1
       case DispositionInvalid(_) => disposition.None? || disposition.value !in d.dispositions
       case Unverified(_) => !receipt
       case NotPersisted(_) => !evidence
       case LatencyInvalid(_) => latency < 0
       case _ => false)
    case IllTyped(id, r) =>
      (match c
       case NotPassed(_) => !r.passed
       case WritesInvalid(_) => r.expected != Some(d.expectedWrites as int) || r.writes != Some(d.expectedWrites as int)
       case QueryRequired(_) => d.requiresQuery && !r.queried
       case DispositionInvalid(_) => r.disposition.None? || r.disposition.value !in d.dispositions
       case Unverified(_) => !r.receipt
       case NotPersisted(_) => !r.evidence
       case LatencyInvalid(_) => !r.latencyOk
       case _ => false)
  }

  /** The codes one entry causes. */
  ghost predicate EntryCause(defs: seq<Definition>, s: Scenario, c: Code) {
    match c
    case Undeclared(text) => s == Malformed(Some(text)) || (Carries(s, text) && !Declared(defs, text))
    case _ => IsReadingCode(c) && Concerns(defs, s, c.id, c)
  }

  predicate IsReadingCode(c: Code) {
    c.NotPassed? || c.WritesInvalid? || c.QueryRequired? || c.DispositionInvalid? || c.Unverified? || c.NotPersisted? ||
    c.LatencyInvalid?
  }

  predicate Concerns(defs: seq<Definition>, s: Scenario, id: string, c: Code) {
    Carries(s, id) && Declared(defs, id) && Misses(DefinitionOf(defs, id), s, c)
  }

  /** An access on the way throws. */
  ghost predicate Breaks(o: Observation) {
    || o.driver.Missing? || o.driver == Driver(Some("external-process"), NotText)
    || o.faultPoints.None? || o.entries.None? || Malformed(None) in o.entries.value
  }

  /** What the fields outside the scenario list, and the list as a whole, cause. */
  ghost predicate HeadCause(defs: seq<Definition>, o: Observation, c: Code)
    requires o.faultPoints.Some? && o.entries.Some?
  {
    match c
    case SchemaInvalid => o.schema != Some("commander-design-partner-campaign/v1")
    case TimingInvalid => o.startedAt.None? || o.endedAt.None? || o.endedAt.value < o.startedAt.value
    case BoundaryInvalid => !(exists name :: o.driver == Driver(Some("external-process"), Named(name)))
    case PointMissing(p) => IsFaultPoint(p) && p !in o.faultPoints.value
    case PointDuplicate(p) => IsFaultPoint(p) && Repeats(o.faultPoints.value, p)
    case PointUndeclared(p) => !IsFaultPoint(p) && p in o.faultPoints.value
    case Absent(id) => Declared(defs, id) && !Mentions(o.entries.value, id)
    case Duplicate(id) => Declared(defs, id) && MentionsTwice(o.entries.value, id)
    case _ => false
  }

  ghost predicate Cause(defs: seq<Definition>, o: Observation, c: Code) {
    if Breaks(o) then c == ObservationInvalid
    else HeadCause(defs, o, c) || exists s :: s in o.entries.value && EntryCause(defs, s, c)
  }

  // ---------------------------------------------------------------------------------------
  // Counts
  // ---------------------------------------------------------------------------------------

  lemma {:induction false} CountedTwice(s: seq<string>, x: string)
    ensures multiset(s)[x] > 1 <==> Repeats(s, x)
    ensures multiset(s)[x] > 0 <==> x in s
  {
    if s != [] {
      var p, y := s[..|s| - 1], s[|s| - 1];
      assert s == p + [y];
      CountedTwice(p, x);
      RepeatsSnoc(p, y, x);
    }
  }

  lemma RepeatsSnoc(p: seq<string>, y: string, x: string)
    ensures Repeats(p + [y], x) <==> Repeats(p, x) || (x in p && y == x)
  {
    var s := p + [y];
    assert forall i :: 0 <= i < |p| ==> s[i] == p[i];
    assert s[|p|] == y;
    if i, j :| 0 <= i < j < |p| && p[i] == x && p[j] == x { assert s[i] == x && s[j] == x; }
    if x in p && y == x {
      var i :| 0 <= i < |p| && p[i] == x;
      assert s[i] == x && s[|p|] == x;
    }
  }

  lemma MentionsSnoc(p: seq<Scenario>, s: Scenario, id: string)
    ensures MentionsTwice(p + [s], id) <==> MentionsTwice(p, id) || (Mentions(p, id) && Carries(s, id))
  {
    var ss := p + [s];
    assert forall i :: 0 <= i < |p| ==> ss[i] == p[i];
    assert ss[|p|] == s;
    if i, j :| 0 <= i < j < |p| && Carries(p[i], id) && Carries(p[j], id) { assert Carries(ss[i], id) && Carries(ss[j], id); }
    if Mentions(p, id) && Carries(s, id) {
      var i :| 0 <= i < |p| && Carries(p[i], id);
      assert Carries(ss[i], id) && Carries(ss[|p|], id);
    }
  }

  lemma {:induction false} NamesTwice(ss: seq<Scenario>, id: string)
    ensures multiset(Names(ss))[id] > 1 <==> MentionsTwice(ss, id)
    decreases |ss|
  {
    if ss != [] {
      hide MentionsTwice, Mentions;
      var p, s := ss[..|ss| - 1], ss[|ss| - 1];
      assert ss == p + [s];
      NamesTwice(p, id);
      NamesCount(p, id);
      MentionsSnoc(p, s, id);
      assert multiset(Names(ss))[id] == multiset(Names(p))[id] + if Carries(s, id) then 1 else 0;
    }
  }

  // ---------------------------------------------------------------------------------------
  // Causes
  // ---------------------------------------------------------------------------------------

  lemma FaultPointsNamed(p: string)
    ensures p in FAULT_POINTS <==> IsFaultPoint(p)
  {
  }

  lemma PointCauseExact(defs: seq<Definition>, o: Observation, c: Code)
    requires o.faultPoints.Some? && o.entries.Some?
    ensures c in PointCodes(FAULT_POINTS, o.faultPoints.value) <==>
              (c.PointMissing? || c.PointDuplicate? || c.PointUndeclared?) && HeadCause(defs, o, c)
  {
    hide Repeats, IsFaultPoint;
    if c.PointMissing? || c.PointDuplicate? || c.PointUndeclared? {
      FaultPointsNamed(c.point);
      CountedTwice(o.faultPoints.value, c.point);
    }
  }

  lemma DeclaredMember(defs: seq<Definition>, id: string)
    ensures Declared(defs, id) <==> exists d :: d in defs && d.id == id
  {
  }

  lemma OccurrenceCauseExact(defs: seq<Definition>, o: Observation, c: Code)
    requires o.faultPoints.Some? && o.entries.Some?
    ensures c in OccurrenceCodes(defs, o.Scenarios()) <==> (c.Absent? || c.Duplicate?) && HeadCause(defs, o, c)
  {
    hide Declared, Mentions, MentionsTwice, Names;
    if c.Absent? || c.Duplicate? {
      DeclaredMember(defs, c.id);
      NamesCount(o.Scenarios(), c.id);
      NamesTwice(o.Scenarios(), c.id);
    }
  }

  lemma HeaderCauseExact(defs: seq<Definition>, o: Observation, c: Code)
    requires o.faultPoints.Some? && o.entries.Some?
    ensures c in HeaderCodes(o) <==> (c.SchemaInvalid? || c.TimingInvalid? || c.BoundaryInvalid?) && HeadCause(defs, o, c)
  {
    assert ExternalDriver(o.driver) ==> o.driver == Driver(Some("external-process"), Named(o.driver.identity.name));
  }

  lemma EffectCause(d: Definition, s: Scenario, c: Code)
    requires !s.Malformed? && (c.NotPassed? || c.WritesInvalid? || c.QueryRequired?)
    ensures c in ReadingCodes(d, ReadingOf(s)) <==> c.id == d.id && Misses(d, s, c)
  {
    assert c !in RecordCodes(d, ReadingOf(s));
    hide RecordCodes;
  }

  lemma RecordCause(d: Definition, s: Scenario, c: Code)
    requires !s.Malformed? && (c.DispositionInvalid? || c.Unverified? || c.NotPersisted? || c.LatencyInvalid?)
    ensures c in ReadingCodes(d, ReadingOf(s)) <==> c.id == d.id && Misses(d, s, c)
  {
    assert c !in EffectCodes(d, ReadingOf(s));
    hide EffectCodes;
  }

  lemma OtherCause(d: Definition, r: Reading, c: Code)
    requires !IsReadingCode(c)
    ensures c !in ReadingCodes(d, r)
  {
  }

  lemma EntryCauseExact(defs: seq<Definition>, s: Scenario, c: Code)
    ensures c in EntryCodes(defs, s) <==> EntryCause(defs, s, c)
  {
    hide Declared, DefinitionOf, ReadingCodes, ReadingOf, Misses;
    if !s.Malformed? && Declared(defs, s.id) {
      var d := DefinitionOf(defs, s.id);
      if !IsReadingCode(c) { OtherCause(d, ReadingOf(s), c); }
      else if c.NotPassed? || c.WritesInvalid? || c.QueryRequired? { EffectCause(d, s, c); }
      else { RecordCause(d, s, c); }
    }
  }

  lemma BreaksExact(o: Observation)
    ensures Throws(o) <==> Breaks(o)
  {
  }

  /** Every code is reported exactly for its own cause. */
  lemma CodesExact(defs: seq<Definition>, o: Observation, c: Code)
    ensures c in CampaignFailures(defs, o) <==> Cause(defs, o, c)
  {
    hide Throws, Breaks, EntryCodes, EntryCause, HeaderCodes, PointCodes, OccurrenceCodes;
    BreaksExact(o);
    if !Breaks(o) {
      assert o.faultPoints.Some? && o.entries.Some? by { NotBroken(o); }
      HeaderCauseExact(defs, o, c);
      PointCauseExact(defs, o, c);
      OccurrenceCauseExact(defs, o, c);
      forall s ensures c in EntryCodes(defs, s) <==> EntryCause(defs, s, c) { EntryCauseExact(defs, s, c); }
    }
  }

  lemma NotBroken(o: Observation)
    requires !Breaks(o)
    ensures o.faultPoints.Some? && o.entries.Some?
  {
  }
}
