/**
 What the counters of the evidence aggregation count (scripts/benchmark-governed-rollback.ts), for
 trials of any kind: cardinalities of sets of places, sums over all entries, and a maximum.
 */
module RollbackCounts {
  import opened Campaign
  import opened Rollback
  import opened Sequences

  datatype Aspect = Seen | Passing | NoReceipt | NoEvidence

  /** A well-typed entry of the scenario that shows the aspect. */
  predicate Shows(a: Aspect, d: Definition, s: Scenario) {
    && s.Observed? && s.id == d.id
    && match a
       case Seen => true
       case Passing => s.passed
       case NoReceipt => !s.receipt
       case NoEvidence => !s.evidence
  }

  /** The trials and positions whose entry shows the aspect. */
  function Places(a: Aspect, d: Definition, trials: seq<Trial>): set<(nat, nat)> {
    set k: nat, i: nat |
      k < |trials| && i < |trials[k].Scenarios()| && Shows(a, d, trials[k].Scenarios()[i]) :: (k, i)
  }

  datatype Quantity = Writes | Queries | Excess

  /** What an entry adds for its scenario: excess writes are those above the expected number. */
  function Amount(q: Quantity, d: Definition, s: Scenario): int {
    if s.Observed? && s.id == d.id then
      match q
      case Writes => s.writes
      case Queries => s.queries
      case Excess => if s.writes > d.expectedWrites then s.writes - d.expectedWrites else 0
    else 0
  }

  /** All entries of all trials, in order. */
  function Flat(trials: seq<Trial>): seq<Scenario> {
    if trials == [] then [] else trials[0].Scenarios() + Flat(trials[1..])
  }

  /** The sum of a quantity over entries. */
  function Sum(q: Quantity, d: Definition, ss: seq<Scenario>): int {
    if ss == [] then 0 else Amount(q, d, ss[0]) + Sum(q, d, ss[1..])
  }

  function Counter(a: Aspect, m: Metrics): nat {
    match a
    case Seen => m.trials
    case Passing => m.passed
    case NoReceipt => m.receiptFailures
    case NoEvidence => m.evidenceFailures
  }

  function Measure(q: Quantity, m: Metrics): int {
    match q
    case Writes => m.writes
    case Queries => m.queries
    case Excess => m.duplicates
  }

  // ---------------------------------------------------------------------------------------
  // Counters are cardinalities
  // ---------------------------------------------------------------------------------------

  /** The places of one trial's list, when it is trial number `k`. */
  function Row(a: Aspect, d: Definition, k: nat, ss: seq<Scenario>): set<(nat, nat)> {
    set i: nat | i < |ss| && Shows(a, d, ss[i]) :: (k, i)
  }

  lemma {:induction false} RowCount(a: Aspect, d: Definition, k: nat, ss: seq<Scenario>)
    ensures |Row(a, d, k, ss)| == Counter(a, MetricsOf(d, ss))
    decreases |ss|
  {
    if ss != [] {
      var n := |ss| - 1;
      RowCount(a, d, k, ss[..n]);
      RowSnoc(a, d, k, ss);
      CounterPlus(a, MetricsOf(d, ss[..n]), One(d, ss[n]));
      CounterOne(a, d, ss[n]);
    }
  }

  lemma RowSnoc(a: Aspect, d: Definition, k: nat, ss: seq<Scenario>)
    requires ss != []
    ensures var n := |ss| - 1;
            && Row(a, d, k, ss) == Row(a, d, k, ss[..n]) + (if Shows(a, d, ss[n]) then {(k, n)} else {})
            && (k, n) !in Row(a, d, k, ss[..n])
  {
    hide Shows;
    var n := |ss| - 1;
    assert forall i :: 0 <= i < n ==> ss[..n][i] == ss[i];
    forall p ensures p in Row(a, d, k, ss) <==>
                       p in Row(a, d, k, ss[..n]) || (p == (k, n) && Shows(a, d, ss[n])) {
      if p in Row(a, d, k, ss) { assert p.1 < n ==> ss[..n][p.1] == ss[p.1]; }
      if p in Row(a, d, k, ss[..n]) { assert ss[p.1] == ss[..n][p.1]; }
    }
  }

  lemma CounterPlus(a: Aspect, m: Metrics, n: Metrics)
    ensures Counter(a, Plus(m, n)) == Counter(a, m) + Counter(a, n)
  {
  }

  lemma CounterOne(a: Aspect, d: Definition, s: Scenario)
    ensures Counter(a, One(d, s)) == Bit(Shows(a, d, s))
  {
  }

  lemma PlacesSnoc(a: Aspect, d: Definition, trials: seq<Trial>)
    requires trials != []
    ensures var n := |trials| - 1;
            && Places(a, d, trials) == Places(a, d, trials[..n]) + Row(a, d, n, trials[n].Scenarios())
            && Places(a, d, trials[..n]) !! Row(a, d, n, trials[n].Scenarios())
  {
    hide Shows;
    var n := |trials| - 1;
    var p := trials[..n];
    assert forall k :: 0 <= k < n ==> p[k] == trials[k];
    forall x ensures x in Places(a, d, trials) <==> x in Places(a, d, p) || x in Row(a, d, n, trials[n].Scenarios()) {
      if x in Places(a, d, trials) { assert x.0 < n ==> p[x.0] == trials[x.0]; }
      if x in Places(a, d, p) { assert trials[x.0] == p[x.0]; }
    }
  }

  /** Every counter is the number of places that show its aspect. */
  lemma {:induction false} CounterExact(a: Aspect, d: Definition, trials: seq<Trial>)
    ensures Counter(a, TrialMetrics(d, trials)) == |Places(a, d, trials)|
    decreases |trials|
  {
    if trials == [] {
      assert Places(a, d, trials) == {};
    } else {
      var n := |trials| - 1;
      CounterExact(a, d, trials[..n]);
      PlacesSnoc(a, d, trials);
      RowCount(a, d, n, trials[n].Scenarios());
      CounterPlus(a, TrialMetrics(d, trials[..n]), MetricsOf(d, trials[n].Scenarios()));
    }
  }

  // ---------------------------------------------------------------------------------------
  // Measures are sums
  // ---------------------------------------------------------------------------------------

  lemma {:induction false} SumConcat(q: Quantity, d: Definition, a: seq<Scenario>, b: seq<Scenario>)
    ensures Sum(q, d, a + b) == Sum(q, d, a) + Sum(q, d, b)
  {
    if a == [] {
      assert a + b == b;
    } else {
      assert (a + b)[0] == a[0] && (a + b)[1..] == a[1..] + b;
      SumConcat(q, d, a[1..], b);
    }
  }

  lemma {:induction false} FlatSnoc(trials: seq<Trial>, t: Trial)
    ensures Flat(trials + [t]) == Flat(trials) + t.Scenarios()
  {
    if trials == [] {
      assert trials + [t] == [t] && [t][1..] == [];
      assert Flat([t]) == t.Scenarios() + Flat([t][1..]);
    } else {
      assert (trials + [t])[0] == trials[0] && (trials + [t])[1..] == trials[1..] + [t];
      FlatSnoc(trials[1..], t);
      Assoc(trials[0].Scenarios(), Flat(trials[1..]), t.Scenarios());
    }
  }

  lemma MeasurePlus(q: Quantity, m: Metrics, n: Metrics)
    ensures Measure(q, Plus(m, n)) == Measure(q, m) + Measure(q, n)
  {
  }

  lemma SumOne(q: Quantity, d: Definition, s: Scenario)
    ensures Sum(q, d, [s]) == Measure(q, One(d, s))
  {
    assert [s][1..] == [];
  }

  lemma {:induction false} ListMeasure(q: Quantity, d: Definition, ss: seq<Scenario>)
    ensures Measure(q, MetricsOf(d, ss)) == Sum(q, d, ss)
    decreases |ss|
  {
    if ss != [] {
      var n := |ss| - 1;
      assert ss == ss[..n] + [ss[n]];
      ListMeasure(q, d, ss[..n]);
      SumConcat(q, d, ss[..n], [ss[n]]);
      SumOne(q, d, ss[n]);
      MeasurePlus(q, MetricsOf(d, ss[..n]), One(d, ss[n]));
    }
  }

  /** Every measure is a sum over all entries of all trials. */
  lemma {:induction false} MeasureExact(q: Quantity, d: Definition, trials: seq<Trial>)
    ensures Measure(q, TrialMetrics(d, trials)) == Sum(q, d, Flat(trials))
    decreases |trials|
  {
    if trials != [] {
      var n := |trials| - 1;
      assert trials == trials[..n] + [trials[n]];
      MeasureExact(q, d, trials[..n]);
      ListMeasure(q, d, trials[n].Scenarios());
      FlatSnoc(trials[..n], trials[n]);
      SumConcat(q, d, Flat(trials[..n]), trials[n].Scenarios());
      MeasurePlus(q, TrialMetrics(d, trials[..n]), MetricsOf(d, trials[n].Scenarios()));
    }
  }

  // ---------------------------------------------------------------------------------------
  // The latency is a maximum
  // ---------------------------------------------------------------------------------------

  /** An upper bound of the latencies of the scenario's entries and of 0, and one of them. */
  ghost predicate IsMaximum(d: Definition, ss: seq<Scenario>, latency: int) {
    && latency >= 0
    && (forall s :: s in ss && Shows(Seen, d, s) ==> s.latency <= latency)
    && (latency == 0 || exists s :: s in ss && Shows(Seen, d, s) && s.latency == latency)
  }

  lemma MaximumConcat(d: Definition, a: seq<Scenario>, b: seq<Scenario>, m: int, n: int)
    requires IsMaximum(d, a, m) && IsMaximum(d, b, n)
    ensures IsMaximum(d, a + b, Max(m, n))
  {
    assert forall s :: s in a + b <==> s in a || s in b;
    if m > 0 { var s :| s in a && Shows(Seen, d, s) && s.latency == m; assert s in a + b; }
    if n > 0 { var s :| s in b && Shows(Seen, d, s) && s.latency == n; assert s in a + b; }
  }

  lemma MaximumOne(d: Definition, s: Scenario)
    ensures IsMaximum(d, [s], One(d, s).maxLatency)
  {
    assert s in [s];
  }

  lemma {:induction false} ListMaximum(d: Definition, ss: seq<Scenario>)
    ensures IsMaximum(d, ss, MetricsOf(d, ss).maxLatency)
    decreases |ss|
  {
    hide IsMaximum, One;
    if ss == [] {
      NoMaximum(d);
    } else {
      var n := |ss| - 1;
      assert ss == ss[..n] + [ss[n]];
      ListMaximum(d, ss[..n]);
      MaximumOne(d, ss[n]);
      MaximumConcat(d, ss[..n], [ss[n]], MetricsOf(d, ss[..n]).maxLatency, One(d, ss[n]).maxLatency);
    }
  }

  lemma NoMaximum(d: Definition)
    ensures IsMaximum(d, [], 0)
  {
  }

  lemma {:induction false} LatencyExact(d: Definition, trials: seq<Trial>)
    ensures IsMaximum(d, Flat(trials), TrialMetrics(d, trials).maxLatency)
    decreases |trials|
  {
    hide IsMaximum, MetricsOf;
    if trials == [] {
      NoMaximum(d);
    } else {
      var n := |trials| - 1;
      assert trials == trials[..n] + [trials[n]];
      LatencyExact(d, trials[..n]);
      ListMaximum(d, trials[n].Scenarios());
      FlatSnoc(trials[..n], trials[n]);
      MaximumConcat(d, Flat(trials[..n]), trials[n].Scenarios(), TrialMetrics(d, trials[..n]).maxLatency,
                    MetricsOf(d, trials[n].Scenarios()).maxLatency);
    }
  }

  /** The metrics of one scenario, for trials of any kind. */
  lemma MetricsExact(d: Definition, trials: seq<Trial>)
    ensures var m := TrialMetrics(d, trials);
            && m.trials == |Places(Seen, d, trials)| && m.passed == |Places(Passing, d, trials)|
            && m.receiptFailures == |Places(NoReceipt, d, trials)|
            && m.evidenceFailures == |Places(NoEvidence, d, trials)|
            && m.writes == Sum(Writes, d, Flat(trials)) && m.queries == Sum(Queries, d, Flat(trials))
            && m.duplicates == Sum(Excess, d, Flat(trials))
            && IsMaximum(d, Flat(trials), m.maxLatency)
  {
    hide TrialMetrics, Places, Sum, IsMaximum;
    CounterExact(Seen, d, trials);
    CounterExact(Passing, d, trials);
    CounterExact(NoReceipt, d, trials);
    CounterExact(NoEvidence, d, trials);
    MeasureExact(Writes, d, trials);
    MeasureExact(Queries, d, trials);
    MeasureExact(Excess, d, trials);
    LatencyExact(d, trials);
  }

  // ---------------------------------------------------------------------------------------
  // The totals
  // ---------------------------------------------------------------------------------------

  /** The places of any declared scenario that show the aspect. */
  function AllPlaces(a: Aspect, defs: seq<Definition>, trials: seq<Trial>): set<(nat, nat)> {
    set k: nat, i: nat |
      k < |trials| && i < |trials[k].Scenarios()| &&
      exists d :: d in defs && Shows(a, d, trials[k].Scenarios()[i]) :: (k, i)
  }

  lemma AllPlacesSnoc(a: Aspect, defs: seq<Definition>, d: Definition, trials: seq<Trial>)
    requires DistinctIds(defs + [d])
    ensures AllPlaces(a, defs + [d], trials) == AllPlaces(a, defs, trials) + Places(a, d, trials)
    ensures AllPlaces(a, defs, trials) !! Places(a, d, trials)
  {
    assert forall e :: e in defs + [d] <==> e in defs || e == d;
    forall e | e in defs ensures e.id != d.id { DistinctSnoc(defs, d, e); }
  }

  lemma DistinctSnoc(defs: seq<Definition>, d: Definition, e: Definition)
    requires DistinctIds(defs + [d]) && e in defs
    ensures e.id != d.id
  {
    var i :| 0 <= i < |defs| && defs[i] == e;
    assert (defs + [d])[i] == e && (defs + [d])[|defs|] == d;
  }

  lemma DistinctPrefix(defs: seq<Definition>, d: Definition)
    requires DistinctIds(defs + [d])
    ensures DistinctIds(defs)
  {
    assert forall i :: 0 <= i < |defs| ==> (defs + [d])[i] == defs[i];
  }

  /** The totals over all definitions are the places of all of them. */
  lemma {:induction false} TotalCounter(a: Aspect, defs: seq<Definition>, trials: seq<Trial>)
    requires DistinctIds(defs)
    ensures Counter(a, Total(defs, trials)) == |AllPlaces(a, defs, trials)|
    decreases |defs|
  {
    hide DistinctIds, AllPlaces, Places, TrialMetrics, Plus;
    if defs == [] {
      NoPlaces(a, trials);
    } else {
      var p, d := defs[..|defs| - 1], defs[|defs| - 1];
      assert defs == p + [d];
      DistinctPrefix(p, d);
      TotalCounter(a, p, trials);
      AllPlacesSnoc(a, p, d, trials);
      CounterExact(a, d, trials);
      CounterPlus(a, Total(p, trials), TrialMetrics(d, trials));
    }
  }

  lemma NoPlaces(a: Aspect, trials: seq<Trial>)
    ensures AllPlaces(a, [], trials) == {}
  {
  }

  /** The excess writes of a declared entry over its own definition, and 0 for any other entry. */
  function OwnExcess(defs: seq<Definition>, s: Scenario): int {
    if s.Observed? && Declared(defs, s.id) && s.writes > DefinitionOf(defs, s.id).expectedWrites
    then s.writes - DefinitionOf(defs, s.id).expectedWrites else 0
  }

  function SumOwnExcess(defs: seq<Definition>, ss: seq<Scenario>): int {
    if ss == [] then 0 else OwnExcess(defs, ss[0]) + SumOwnExcess(defs, ss[1..])
  }

  lemma OwnExcessSnoc(defs: seq<Definition>, d: Definition, s: Scenario)
    requires DistinctIds(defs + [d])
    ensures OwnExcess(defs + [d], s) == OwnExcess(defs, s) + Amount(Excess, d, s)
  {
    hide DistinctIds, DefinitionOf;
    var all := defs + [d];
    DistinctPrefix(defs, d);
    if s.Observed? {
      AllIdsDeclared(defs, s.id);
      AllIdsDeclared(all, s.id);
      assert AllIds(all) == AllIds(defs) + {d.id};
      if Declared(defs, s.id) {
        var e := DefinitionOf(defs, s.id);
        DistinctSnoc(defs, d, e);
        assert e in all;
        DefinitionUnique(all, e);
      } else if s.id == d.id {
        assert d in all;
        DefinitionUnique(all, d);
      }
    }
  }

  lemma {:induction false} SumOwnExcessSnoc(defs: seq<Definition>, d: Definition, ss: seq<Scenario>)
    requires DistinctIds(defs + [d])
    ensures SumOwnExcess(defs + [d], ss) == SumOwnExcess(defs, ss) + Sum(Excess, d, ss)
  {
    hide DistinctIds, OwnExcess, Amount;
    if ss != [] {
      OwnExcessSnoc(defs, d, ss[0]);
      SumOwnExcessSnoc(defs, d, ss[1..]);
    }
  }

  lemma {:induction false} NoExcess(ss: seq<Scenario>)
    ensures SumOwnExcess([], ss) == 0
  {
    if ss != [] { NoExcess(ss[1..]); }
  }

  lemma {:induction false} TotalExcess(defs: seq<Definition>, trials: seq<Trial>)
    requires DistinctIds(defs)
    ensures Total(defs, trials).duplicates == SumOwnExcess(defs, Flat(trials))
    decreases |defs|
  {
    hide DistinctIds, TrialMetrics, SumOwnExcess, Flat, Sum;
    if defs == [] {
      NoExcess(Flat(trials));
    } else {
      var p, d := defs[..|defs| - 1], defs[|defs| - 1];
      assert defs == p + [d];
      DistinctPrefix(p, d);
      TotalExcess(p, trials);
      SumOwnExcessSnoc(p, d, Flat(trials));
      MeasureExact(Excess, d, trials);
    }
  }

  /** The external writes of an entry whose scenario expects none. */
  function Forbidden(defs: seq<Definition>, s: Scenario): int {
    if s.Observed? && Declared(defs, s.id) && DefinitionOf(defs, s.id).expectedWrites == 0 then s.writes else 0
  }

  function SumForbidden(defs: seq<Definition>, ss: seq<Scenario>): int {
    if ss == [] then 0 else Forbidden(defs, ss[0]) + SumForbidden(defs, ss[1..])
  }

  lemma {:induction false} SumForbiddenConcat(defs: seq<Definition>, a: seq<Scenario>, b: seq<Scenario>)
    ensures SumForbidden(defs, a + b) == SumForbidden(defs, a) + SumForbidden(defs, b)
  {
    if a == [] {
      assert a + b == b;
    } else {
      assert (a + b)[0] == a[0] && (a + b)[1..] == a[1..] + b;
      SumForbiddenConcat(defs, a[1..], b);
    }
  }

  lemma {:induction false} DeniedIsSum(defs: seq<Definition>, ss: seq<Scenario>)
    ensures Denied(defs, ss) == SumForbidden(defs, ss)
    decreases |ss|
  {
    if ss != [] {
      var n := |ss| - 1;
      assert ss == ss[..n] + [ss[n]];
      DeniedIsSum(defs, ss[..n]);
      SumForbiddenConcat(defs, ss[..n], [ss[n]]);
      assert [ss[n]][1..] == [];
    }
  }

  lemma {:induction false} TrialDeniedIsSum(defs: seq<Definition>, trials: seq<Trial>)
    ensures TrialDenied(defs, trials) == SumForbidden(defs, Flat(trials))
    decreases |trials|
  {
    if trials != [] {
      var n := |trials| - 1;
      assert trials == trials[..n] + [trials[n]];
      TrialDeniedIsSum(defs, trials[..n]);
      DeniedIsSum(defs, trials[n].Scenarios());
      FlatSnoc(trials[..n], trials[n]);
      SumForbiddenConcat(defs, Flat(trials[..n]), trials[n].Scenarios());
    }
  }

  /** All totals of the aggregate, for trials of any kind. */
  lemma TotalsExact(defs: seq<Definition>, trials: seq<Trial>, repetitions: int)
    requires DistinctIds(defs)
    ensures var r := Aggregated(defs, trials, repetitions);
            && r.unverifiedReceipts == |AllPlaces(NoReceipt, defs, trials)|
            && r.missingEvidence == |AllPlaces(NoEvidence, defs, trials)|
            && r.duplicateWrites == SumOwnExcess(defs, Flat(trials))
            && r.deniedWrites == SumForbidden(defs, Flat(trials))
            && r.totalTrials == |trials| * |defs|
            && r.scenarios.Keys == AllIds(defs)
            && forall d :: d in defs && d.id in r.scenarios ==> r.scenarios[d.id] == TrialMetrics(d, trials)
  {
    hide DistinctIds, AllPlaces, TrialMetrics, SumOwnExcess, SumForbidden, Flat, Total, TrialDenied, TrialFailures,
         FinalFailures, CountFailures;
    TotalCounter(NoReceipt, defs, trials);
    TotalCounter(NoEvidence, defs, trials);
    TotalExcess(defs, trials);
    TrialDeniedIsSum(defs, trials);
    forall d | d in defs ensures Declared(defs, d.id) && DefinitionOf(defs, d.id) == d { DefinitionUnique(defs, d); }
  }
}
