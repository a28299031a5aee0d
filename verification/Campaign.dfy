/**
 The campaign validator of scripts/design-partner-faults.ts, which the benchmark runs on every
 observation it aggregates. The declared scenarios are an arbitrary list with distinct ids.
 */
module Campaign {
  import opened Wrappers

  datatype Definition = Definition(id: string, expectedWrites: nat, requiresQuery: bool, dispositions: set<string>)

  /**
   What the validator's comparisons make of one entry's fields, whatever their types: truth values,
   numbers that are integers, and whether the queries are not below one and the latency not negative.
   */
  datatype Reading = Reading(
    passed: bool, expected: Option<int>, writes: Option<int>, queried: bool, disposition: Option<string>,
    receipt: bool, evidence: bool, latencyOk: bool)

  /**
   One entry of an observation's scenario list, by how far it is well typed. A malformed one is
   `null` or `undefined` (no text), or anything else without a string id, whose id prints as `text`.
   */
  datatype Scenario =
    | Malformed(text: Option<string>)
    | IllTyped(id: string, reading: Reading)
    | Observed(id: string, passed: bool, expected: int, writes: int, queries: int, disposition: Option<string>,
               receipt: bool, evidence: bool, latency: int)

  datatype Identity = NotText | Blank | Named(name: string)

  /** `Missing` is `null` or `undefined`, `Unreadable` anything else that is no record. */
  datatype Driver = Missing | Unreadable | Driver(boundary: Option<string>, identity: Identity)

  /** Dates that do not parse, points that cannot be iterated and lists that are none read as `None`. */
  datatype Observation = Observation(
    schema: Option<string>, startedAt: Option<int>, endedAt: Option<int>, driver: Driver,
    faultPoints: Option<seq<string>>, entries: Option<seq<Scenario>>)
  {
    function Scenarios(): seq<Scenario> { if entries.None? then [] else entries.value }
  }

  datatype Code =
    | ObservationInvalid
    | SchemaInvalid
    | TimingInvalid
    | BoundaryInvalid
    | PointMissing(point: string)
    | PointDuplicate(point: string)
    | PointUndeclared(point: string)
    | Absent(id: string)
    | Duplicate(id: string)
    | Undeclared(text: string)
    | NotPassed(id: string)
    | WritesInvalid(id: string)
    | QueryRequired(id: string)
    | DispositionInvalid(id: string)
    | Unverified(id: string)
    | NotPersisted(id: string)
    | LatencyInvalid(id: string)

  const SCHEMA := "commander-design-partner-campaign/v1"

  const FAULT_POINTS: seq<string> := [
    "before_remote_request", "after_remote_commit", "before_local_complete",
    "during_outcome_query", "during_compensation", "during_evidence_persist"]

  ghost predicate DistinctIds(defs: seq<Definition>) {
    forall i, j :: 0 <= i < j < |defs| ==> defs[i].id != defs[j].id
  }

  predicate Declared(defs: seq<Definition>, id: string) { exists i :: 0 <= i < |defs| && defs[i].id == id }

  function DefinitionOf(defs: seq<Definition>, id: string): (d: Definition)
    requires Declared(defs, id)
    ensures d.id == id && d in defs
  {
    if defs[0].id == id then defs[0] else
      assert Declared(defs[1..], id) by {
        var i :| 0 <= i < |defs| && defs[i].id == id;
        assert defs[1..][i - 1] == defs[i];
      }
      DefinitionOf(defs[1..], id)
  }

  lemma {:induction false} DefinitionUnique(defs: seq<Definition>, d: Definition)
    requires DistinctIds(defs) && d in defs
    ensures Declared(defs, d.id) && DefinitionOf(defs, d.id) == d
  {
  }

  // ---------------------------------------------------------------------------------------
  // The failures
  // ---------------------------------------------------------------------------------------

  /** An access on the way throws; the caller turns that into a single failure. */
  predicate Throws(o: Observation) {
    || o.driver.Missing?
    || (o.driver.Driver? && o.driver.boundary == Some("external-process") && o.driver.identity.NotText?)
    || o.faultPoints.None? || o.entries.None?
    || exists i :: 0 <= i < |o.entries.value| && o.entries.value[i] == Malformed(None)
  }

  predicate Timed(o: Observation) { o.startedAt.Some? && o.endedAt.Some? && o.startedAt.value <= o.endedAt.value }

  predicate ExternalDriver(d: Driver) {
    d.Driver? && d.boundary == Some("external-process") && d.identity.Named?
  }

  /** The wanted points that occur too rarely or too often among those observed. */
  function Miscounted(wanted: seq<string>, points: seq<string>): set<Code> {
    (set p | p in wanted && multiset(points)[p] == 0 :: PointMissing(p)) +
    (set p | p in wanted && multiset(points)[p] > 1 :: PointDuplicate(p))
  }

  function PointCodes(wanted: seq<string>, points: seq<string>): set<Code> {
    Miscounted(wanted, points) + set p | p in points && p !in wanted :: PointUndeclared(p)
  }

  /** The ids of the entries that have one, in order. */
  function Names(ss: seq<Scenario>): seq<string> {
    if ss == [] then [] else
      var s := ss[|ss| - 1];
      Names(ss[..|ss| - 1]) + if s.Malformed? then [] else [s.id]
  }

  function OccurrenceCodes(defs: seq<Definition>, ss: seq<Scenario>): set<Code> {
    (set d | d in defs && multiset(Names(ss))[d.id] == 0 :: Absent(d.id)) +
    (set d | d in defs && multiset(Names(ss))[d.id] > 1 :: Duplicate(d.id))
  }

  function ReadingOf(s: Scenario): Reading
    requires !s.Malformed?
  {
    if s.IllTyped? then s.reading else
      Reading(s.passed, Some(s.expected), Some(s.writes), s.queries >= 1, s.disposition, s.receipt, s.evidence,
              s.latency >= 0)
  }

  /** Both write counts are the defined one. */
  predicate WritesMatch(d: Definition, r: Reading) {
    r.expected == Some(d.expectedWrites as int) && r.writes == Some(d.expectedWrites as int)
  }

  predicate DispositionAllowed(d: Definition, r: Reading) { r.disposition.Some? && r.disposition.value in d.dispositions }

  function EffectCodes(d: Definition, r: Reading): set<Code> {
    When(!r.passed, NotPassed(d.id)) + When(!WritesMatch(d, r), WritesInvalid(d.id)) +
    When(d.requiresQuery && !r.queried, QueryRequired(d.id))
  }

  function RecordCodes(d: Definition, r: Reading): set<Code> {
    When(!DispositionAllowed(d, r), DispositionInvalid(d.id)) +
    When(!r.receipt, Unverified(d.id)) + When(!r.evidence, NotPersisted(d.id)) + When(!r.latencyOk, LatencyInvalid(d.id))
  }

  function ReadingCodes(d: Definition, r: Reading): set<Code> { EffectCodes(d, r) + RecordCodes(d, r) }

  function EntryCodes(defs: seq<Definition>, s: Scenario): set<Code> {
    if s.Malformed? then (if s.text.None? then {} else {Undeclared(s.text.value)})
    else if !Declared(defs, s.id) then {Undeclared(s.id)}
    else ReadingCodes(DefinitionOf(defs, s.id), ReadingOf(s))
  }

  function EntriesCodes(defs: seq<Definition>, ss: seq<Scenario>): set<Code> {
    set s, c | s in ss && c in EntryCodes(defs, s) :: c
  }

  function HeaderCodes(o: Observation): set<Code> {
    When(o.schema != Some(SCHEMA), SchemaInvalid) + When(!Timed(o), TimingInvalid) +
    When(!ExternalDriver(o.driver), BoundaryInvalid)
  }

  /** `validateCampaignObservation`, as its caller reports it. */
  function CampaignFailures(defs: seq<Definition>, o: Observation): set<Code> {
    if Throws(o) then {ObservationInvalid}
    else
      HeaderCodes(o) + PointCodes(FAULT_POINTS, o.faultPoints.value) + OccurrenceCodes(defs, o.Scenarios()) +
      EntriesCodes(defs, o.Scenarios())
  }

  // ---------------------------------------------------------------------------------------
  // The loops
  // ---------------------------------------------------------------------------------------

  /** `countValues`. */
  method CountValues(values: seq<string>) returns (counts: map<string, nat>)
    ensures forall v :: v in counts <==> v in values
    ensures forall v :: v in counts ==> counts[v] == multiset(values)[v]
  {
    counts := map[];
    for i := 0 to |values|
      invariant forall v :: v in counts <==> v in multiset(values[..i])
      invariant forall v :: v in counts ==> counts[v] == multiset(values[..i])[v]
    {
      assert values[..i + 1] == values[..i] + [values[i]];
      var before := if values[i] in counts then counts[values[i]] else 0;
      counts := counts[values[i] := before + 1];
    }
    assert values[..|values|] == values;
  }

  method CheckMiscounted(wanted: seq<string>, points: seq<string>, counts: map<string, nat>) returns (codes: set<Code>)
    requires forall v :: v in counts <==> v in points
    requires forall v :: v in counts ==> counts[v] == multiset(points)[v]
    ensures codes == Miscounted(wanted, points)
  {
    codes := {};
    for i := 0 to |wanted|
      invariant codes == Miscounted(wanted[..i], points)
    {
      var p := wanted[i];
      assert wanted[..i + 1] == wanted[..i] + [p];
      var count := if p in counts then counts[p] else 0;
      if count == 0 { codes := codes + {PointMissing(p)}; }
      if count > 1 { codes := codes + {PointDuplicate(p)}; }
    }
    assert wanted[..|wanted|] == wanted;
  }

  /** The three loops over the declared and the observed fault points. */
  method CheckPoints(wanted: seq<string>, points: seq<string>) returns (codes: set<Code>)
    ensures codes == PointCodes(wanted, points)
  {
    hide Miscounted;
    var counts := CountValues(points);
    codes := CheckMiscounted(wanted, points, counts);
    var rest := counts.Keys;
    ghost var seen: set<string> := {};
    while rest != {}
      invariant rest + seen == counts.Keys
      invariant codes == Miscounted(wanted, points) + set p | p in seen && p !in wanted :: PointUndeclared(p)
      decreases rest
    {
      var p :| p in rest;
      if p !in wanted { codes := codes + {PointUndeclared(p)}; }
      rest := rest - {p};
      seen := seen + {p};
    }
  }

  method CheckCounts(defs: seq<Definition>, ss: seq<Scenario>) returns (codes: set<Code>)
    ensures codes == OccurrenceCodes(defs, ss)
  {
    hide Names;
    var counts := CountValues(Names(ss));
    codes := {};
    for i := 0 to |defs|
      invariant codes == OccurrenceCodes(defs[..i], ss)
    {
      var d := defs[i];
      assert defs[..i + 1] == defs[..i] + [d];
      var count := if d.id in counts then counts[d.id] else 0;
      if count == 0 { codes := codes + {Absent(d.id)}; }
      if count > 1 { codes := codes + {Duplicate(d.id)}; }
    }
    assert defs[..|defs|] == defs;
  }

  method CheckEffect(d: Definition, r: Reading) returns (codes: set<Code>)
    ensures codes == EffectCodes(d, r)
  {
    hide WritesMatch;
    codes := {};
    if !r.passed { codes := codes + {NotPassed(d.id)}; }
    if !WritesMatch(d, r) { codes := codes + {WritesInvalid(d.id)}; }
    if d.requiresQuery && !r.queried { codes := codes + {QueryRequired(d.id)}; }
  }

  method CheckRecord(d: Definition, r: Reading) returns (codes: set<Code>)
    ensures codes == RecordCodes(d, r)
  {
    hide DispositionAllowed;
    codes := {};
    if !DispositionAllowed(d, r) { codes := codes + {DispositionInvalid(d.id)}; }
    if !r.receipt { codes := codes + {Unverified(d.id)}; }
    if !r.evidence { codes := codes + {NotPersisted(d.id)}; }
    if !r.latencyOk { codes := codes + {LatencyInvalid(d.id)}; }
  }

  method CheckEntry(defs: seq<Definition>, s: Scenario) returns (codes: set<Code>)
    requires s != Malformed(None)
    ensures codes == EntryCodes(defs, s)
  {
    if s.Malformed? { return {Undeclared(s.text.value)}; }
    if !Declared(defs, s.id) { return {Undeclared(s.id)}; }
    codes := CheckEffect(DefinitionOf(defs, s.id), ReadingOf(s));
    var record := CheckRecord(DefinitionOf(defs, s.id), ReadingOf(s));
    codes := codes + record;
  }

  /** `validateCampaignObservation`; a throw is reported as its caller reports it. */
  method ValidateCampaignObservation(defs: seq<Definition>, o: Observation) returns (codes: set<Code>)
    ensures codes == CampaignFailures(defs, o)
  {
    hide PointCodes, OccurrenceCodes, EntryCodes;
    if Throws(o) { return {ObservationInvalid}; }
    var ss := o.entries.value;
    codes := {};
    if o.schema != Some(SCHEMA) { codes := codes + {SchemaInvalid}; }
    if !Timed(o) { codes := codes + {TimingInvalid}; }
    if !ExternalDriver(o.driver) { codes := codes + {BoundaryInvalid}; }
    var points := CheckPoints(FAULT_POINTS, o.faultPoints.value);
    var counts := CheckCounts(defs, ss);
    codes := codes + points + counts;
    ghost var before := codes;
    for i := 0 to |ss|
      invariant codes == before + EntriesCodes(defs, ss[..i])
    {
      assert ss[..i + 1] == ss[..i] + [ss[i]];
      var found := CheckEntry(defs, ss[i]);
      codes := codes + found;
    }
    assert ss[..|ss|] == ss;
  }

  // ---------------------------------------------------------------------------------------
  // What a clean observation is
  // ---------------------------------------------------------------------------------------

  /** An entry that agrees with its definition in everything the validator reads. */
  ghost predicate Agrees(defs: seq<Definition>, s: Scenario) {
    && !s.Malformed? && Declared(defs, s.id)
    && var d, r := DefinitionOf(defs, s.id), ReadingOf(s);
       && r.passed && r.receipt && r.evidence && r.latencyOk && WritesMatch(d, r) && DispositionAllowed(d, r)
       && (d.requiresQuery ==> r.queried)
  }

  predicate Mentions(ss: seq<Scenario>, id: string) { exists i :: 0 <= i < |ss| && !ss[i].Malformed? && ss[i].id == id }

  ghost predicate NoRepeat(ss: seq<Scenario>) {
    forall i, j :: 0 <= i < j < |ss| && !ss[i].Malformed? && !ss[j].Malformed? ==> ss[i].id != ss[j].id
  }

  /** The header fields are right, and each fault point was exercised exactly once and no other. */
  ghost predicate HeaderAgrees(o: Observation) {
    && o.schema == Some(SCHEMA) && Timed(o) && ExternalDriver(o.driver)
    && o.faultPoints.Some? && multiset(o.faultPoints.value) == multiset(FAULT_POINTS)
  }

  /** And the entries are exactly the declared scenarios, once each, every one as defined. */
  ghost predicate CampaignOk(defs: seq<Definition>, o: Observation) {
    && HeaderAgrees(o) && o.entries.Some? && NoRepeat(o.entries.value)
    && (forall s :: s in o.entries.value ==> Agrees(defs, s))
    && (forall d :: d in defs ==> Mentions(o.entries.value, d.id))
  }

  lemma PointsClean(wanted: seq<string>, points: seq<string>)
    requires forall p :: p in wanted ==> multiset(wanted)[p] == 1
    ensures PointCodes(wanted, points) == {} <==> multiset(points) == multiset(wanted)
  {
    var f, m, w := PointCodes(wanted, points), multiset(points), multiset(wanted);
    assert forall p :: p in wanted && m[p] == 0 ==> PointMissing(p) in f;
    assert forall p :: p in wanted && m[p] > 1 ==> PointDuplicate(p) in f;
    assert forall p :: p in points && p !in wanted ==> PointUndeclared(p) in f;
    if f == {} {
      forall p ensures m[p] == w[p] {
        if p !in wanted { assert p !in points; }
      }
    }
    if m == w {
      forall p ensures p in points <==> p in wanted { assert p in m <==> p in w; }
    }
  }

  lemma PointsDistinct()
    ensures forall p :: p in FAULT_POINTS ==> multiset(FAULT_POINTS)[p] == 1
  {
  }

  lemma {:induction false} NamesCount(ss: seq<Scenario>, id: string)
    ensures multiset(Names(ss))[id] > 0 <==> Mentions(ss, id)
    decreases |ss|
  {
    if ss != [] {
      var n := |ss| - 1;
      assert ss == ss[..n] + [ss[n]];
      NamesCount(ss[..n], id);
      if i :| 0 <= i < |ss| && !ss[i].Malformed? && ss[i].id == id { assert i < n ==> ss[..n][i] == ss[i]; }
      if i :| 0 <= i < n && !ss[..n][i].Malformed? && ss[..n][i].id == id { assert ss[i] == ss[..n][i]; }
    }
  }

  lemma NoRepeatSnoc(p: seq<Scenario>, s: Scenario)
    ensures NoRepeat(p + [s]) <==> NoRepeat(p) && (!s.Malformed? ==> !Mentions(p, s.id))
  {
    var ss := p + [s];
    assert forall i :: 0 <= i < |p| ==> ss[i] == p[i];
    assert ss[|p|] == s;
    if NoRepeat(ss) {
      forall i, j | 0 <= i < j < |p| && !p[i].Malformed? && !p[j].Malformed? ensures p[i].id != p[j].id {
        assert ss[i] == p[i] && ss[j] == p[j];
      }
    }
  }

  /** No id occurs twice exactly when every id is counted at most once. */
  lemma {:induction false} NamesOnce(ss: seq<Scenario>)
    ensures NoRepeat(ss) <==> forall id :: multiset(Names(ss))[id] <= 1
    decreases |ss|
  {
    hide NoRepeat, Mentions;
    if ss == [] {
      assert NoRepeat([]) by { EmptyRepeats(); }
    } else {
      var n := |ss| - 1;
      var p, s := ss[..n], ss[n];
      assert ss == p + [s];
      NamesOnce(p);
      NoRepeatSnoc(p, s);
      var before, after := multiset(Names(p)), multiset(Names(ss));
      if !s.Malformed? {
        NamesCount(p, s.id);
        assert after == before + multiset{s.id};
        assert after[s.id] == before[s.id] + 1;
        assert forall id :: after[id] == before[id] + if id == s.id then 1 else 0;
        if forall id :: after[id] <= 1 {
          forall id ensures before[id] <= 1 { assert after[id] <= 1; }
        }
      } else {
        assert Names(ss) == Names(p);
        assert NoRepeat(ss) <==> NoRepeat(p);
      }
    }
  }

  lemma EmptyRepeats()
    ensures NoRepeat([])
  {
  }

  lemma EntryAgrees(defs: seq<Definition>, s: Scenario)
    requires s != Malformed(None)
    ensures EntryCodes(defs, s) == {} <==> Agrees(defs, s)
  {
  }

  lemma EntriesClean(defs: seq<Definition>, ss: seq<Scenario>)
    requires Malformed(None) !in ss
    ensures EntriesCodes(defs, ss) == {} <==> forall s :: s in ss ==> Agrees(defs, s)
  {
    hide EntryCodes, Agrees;
    forall s | s in ss ensures EntryCodes(defs, s) == {} <==> Agrees(defs, s) { EntryAgrees(defs, s); }
    if EntriesCodes(defs, ss) == {} {
      forall s | s in ss ensures EntryCodes(defs, s) == {} {
        assert forall c :: c in EntryCodes(defs, s) ==> c in EntriesCodes(defs, ss);
      }
    }
  }

  /** For declared entries, no count failure means each declared scenario once. */
  lemma OccurrencesClean(defs: seq<Definition>, ss: seq<Scenario>)
    requires forall s :: s in ss ==> !s.Malformed? && Declared(defs, s.id)
    ensures OccurrenceCodes(defs, ss) == {} <==> NoRepeat(ss) && forall d :: d in defs ==> Mentions(ss, d.id)
  {
    hide Names, NoRepeat, Mentions;
    var f, counts := OccurrenceCodes(defs, ss), multiset(Names(ss));
    assert forall d :: d in defs && counts[d.id] == 0 ==> Absent(d.id) in f;
    assert forall d :: d in defs && counts[d.id] > 1 ==> Duplicate(d.id) in f;
    NamesOnce(ss);
    forall d | d in defs ensures counts[d.id] > 0 <==> Mentions(ss, d.id) { NamesCount(ss, d.id); }
    if f == {} {
      forall id ensures counts[id] <= 1 { UndeclaredUncounted(defs, ss, id); }
    }
  }

  lemma UndeclaredUncounted(defs: seq<Definition>, ss: seq<Scenario>, id: string)
    requires forall s :: s in ss ==> !s.Malformed? && Declared(defs, s.id)
    ensures Declared(defs, id) || multiset(Names(ss))[id] == 0
    ensures Declared(defs, id) ==> exists d :: d in defs && d.id == id
  {
    hide Names;
    NamesCount(ss, id);
  }

  /** The validator reports nothing exactly for a clean observation. */
  lemma CampaignClean(defs: seq<Definition>, o: Observation)
    ensures CampaignFailures(defs, o) == {} <==> CampaignOk(defs, o)
  {
    hide PointCodes, OccurrenceCodes, EntriesCodes, Agrees, NoRepeat, Mentions, Declared;
    if !Throws(o) {
      var ss := o.entries.value;
      NoNullEntry(o);
      PointsDistinct();
      PointsClean(FAULT_POINTS, o.faultPoints.value);
      EntriesClean(defs, ss);
      if forall s :: s in ss ==> Agrees(defs, s) {
        forall s | s in ss ensures !s.Malformed? && Declared(defs, s.id) { AgreesDeclared(defs, s); }
        OccurrencesClean(defs, ss);
      }
    } else if CampaignOk(defs, o) {
      CleanDoesNotThrow(defs, o);
    }
  }

  lemma AgreesDeclared(defs: seq<Definition>, s: Scenario)
    requires Agrees(defs, s)
    ensures !s.Malformed? && Declared(defs, s.id)
  {
  }

  lemma NoNullEntry(o: Observation)
    requires !Throws(o)
    ensures Malformed(None) !in o.entries.value
  {
  }

  lemma CleanDoesNotThrow(defs: seq<Definition>, o: Observation)
    requires CampaignOk(defs, o)
    ensures !Throws(o)
  {
    hide NoRepeat, Mentions;
    var ss := o.entries.value;
    forall i | 0 <= i < |ss| ensures ss[i] != Malformed(None) {
      assert ss[i] in ss;
      AgreesDeclared(defs, ss[i]);
    }
  }
}
