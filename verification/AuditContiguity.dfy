/**
 Event-sequence contiguity in scripts/audit-report.ts: the SQL form over groups
 (`MAX - MIN + 1 <> COUNT`) and the in-memory form that groups, sorts and compares neighbours.
 */
module AuditContiguity {
  import opened Ordering

  datatype Event = Event(aggregateType: string, aggregateId: string, sequence: int)

  // ---------------------------------------------------------------------------------------
  // The SQL form
  // ---------------------------------------------------------------------------------------

  function Group(events: seq<Event>, aggregateType: string, aggregateId: string): seq<int> {
    if events == [] then [] else
      var e := events[|events| - 1];
      Group(events[..|events| - 1], aggregateType, aggregateId) +
      if e.aggregateType == aggregateType && e.aggregateId == aggregateId then [e.sequence] else []
  }

  function MaxOf(s: seq<int>): int
    requires s != []
  {
    if |s| == 1 then s[0] else if MaxOf(s[1..]) > s[0] then MaxOf(s[1..]) else s[0]
  }

  function MinOf(s: seq<int>): int
    requires s != []
  {
    if |s| == 1 then s[0] else if MinOf(s[1..]) < s[0] then MinOf(s[1..]) else s[0]
  }

  /** The groups the query counts. */
  function GapGroups(events: seq<Event>): set<(string, string)> {
    set e | e in events &&
            var g := Group(events, e.aggregateType, e.aggregateId);
            g != [] && MaxOf(g) - MinOf(g) + 1 != |g|
          :: (e.aggregateType, e.aggregateId)
  }

  predicate SqlContiguous(events: seq<Event>) { |GapGroups(events)| == 0 }

  // ---------------------------------------------------------------------------------------
  // The in-memory form
  // ---------------------------------------------------------------------------------------

  function KeyOf(e: Event): string { e.aggregateType + ":" + e.aggregateId }

  function KeyGroup(events: seq<Event>, key: string): seq<int> {
    if events == [] then [] else
      var e := events[|events| - 1];
      KeyGroup(events[..|events| - 1], key) + if KeyOf(e) == key then [e.sequence] else []
  }

  function NumberKey(n: int): seq<int> { [n] }

  predicate UnitSteps(s: seq<int>) { forall i :: 1 <= i < |s| ==> s[i] == s[i - 1] + 1 }

  predicate KeysContiguous(events: seq<Event>) {
    forall e :: e in events ==> UnitSteps(Sort(KeyGroup(events, KeyOf(e)), NumberKey))
  }

  /** The scan over one sorted group, stopping at the first gap. */
  method ScanGroup(sequences: seq<int>) returns (contiguous: bool)
    ensures contiguous <==> UnitSteps(Sort(sequences, NumberKey))
  {
    var sorted := Sort(sequences, NumberKey);
    contiguous := true;
    var i := 1;
    while i < |sorted|
      invariant 1 <= i && contiguous && forall k :: 1 <= k < i && k < |sorted| ==> sorted[k] == sorted[k - 1] + 1
    {
      if sorted[i] != sorted[i - 1] + 1 {
        contiguous := false;
        break;
      }
      i := i + 1;
    }
  }

  /** The groups of the events, by key. */
  ghost predicate Grouped(groups: map<string, seq<int>>, events: seq<Event>) {
    && (forall key :: key in groups <==> key in Keys(events))
    && (forall key :: key in groups ==> groups[key] == KeyGroup(events, key))
  }

  function Keys(events: seq<Event>): set<string> { set e | e in events :: KeyOf(e) }

  lemma {:induction false} NoGroup(events: seq<Event>, key: string)
    requires key !in Keys(events)
    ensures KeyGroup(events, key) == []
    decreases |events|
  {
    hide KeyOf;
    if events != [] {
      assert forall e :: e in events[..|events| - 1] ==> e in events;
      assert events[|events| - 1] in events;
      NoGroup(events[..|events| - 1], key);
    }
  }

  lemma GroupedSnoc(groups: map<string, seq<int>>, events: seq<Event>, e: Event)
    requires Grouped(groups, events)
    ensures var key := KeyOf(e);
            Grouped(groups[key := (if key in groups then groups[key] else []) + [e.sequence]], events + [e])
  {
    hide KeyOf;
    var key, t := KeyOf(e), events + [e];
    assert t[..|events|] == events;
    assert forall f :: f in t <==> f in events || f == e;
    assert Keys(t) == Keys(events) + {key};
    if key !in groups { NoGroup(events, key); }
  }

  /** The in-memory collector: build the groups, then scan them until one has a gap. */
  method InMemoryContiguity(events: seq<Event>) returns (contiguous: bool)
    ensures contiguous <==> KeysContiguous(events)
  {
    hide Grouped, UnitSteps, Sort, KeysContiguous;
    var groups: map<string, seq<int>> := map[];
    GroupedNone();
    assert events[..0] == [];
    for i := 0 to |events|
      invariant Grouped(groups, events[..i])
    {
      GroupedSnoc(groups, events[..i], events[i]);
      assert events[..i + 1] == events[..i] + [events[i]];
      var key := KeyOf(events[i]);
      groups := groups[key := (if key in groups then groups[key] else []) + [events[i].sequence]];
    }
    assert events[..|events|] == events;
    contiguous := true;
    var rest := groups.Keys;
    while rest != {}
      invariant contiguous && rest <= groups.Keys
      invariant forall key :: key in groups && key !in rest ==> UnitSteps(Sort(groups[key], NumberKey))
      decreases |rest|
    {
      var key :| key in rest;
      contiguous := ScanGroup(groups[key]);
      if !contiguous { break; }
      rest := rest - {key};
    }
    GroupsDecide(events, groups, contiguous);
  }

  lemma GroupedNone()
    ensures Grouped(map[], [])
  {
  }

  lemma GroupsDecide(events: seq<Event>, groups: map<string, seq<int>>, contiguous: bool)
    requires Grouped(groups, events)
    requires contiguous ==> forall key :: key in groups ==> UnitSteps(Sort(groups[key], NumberKey))
    requires !contiguous ==> exists key :: key in groups && !UnitSteps(Sort(groups[key], NumberKey))
    ensures contiguous <==> KeysContiguous(events)
  {
    hide KeyOf, KeyGroup, UnitSteps, Sort;
    if contiguous {
      forall e | e in events ensures UnitSteps(Sort(KeyGroup(events, KeyOf(e)), NumberKey)) {
        assert KeyOf(e) in groups;
      }
    } else {
      var key :| key in groups && !UnitSteps(Sort(groups[key], NumberKey));
      var e :| e in events && KeyOf(e) == key;
    }
  }

  // ---------------------------------------------------------------------------------------
  // One group
  // ---------------------------------------------------------------------------------------

  lemma {:induction false} Extremes(s: seq<int>)
    requires s != []
    ensures MaxOf(s) in s && MinOf(s) in s
    ensures forall x :: x in s ==> MinOf(s) <= x <= MaxOf(s)
  {
    if |s| > 1 {
      Extremes(s[1..]);
      assert forall x :: x in s ==> x == s[0] || x in s[1..];
    }
  }

  lemma ExtremesUnique(s: seq<int>, low: int, high: int)
    requires low in s && high in s && forall x :: x in s ==> low <= x <= high
    ensures MinOf(s) == low && MaxOf(s) == high
  {
    hide MaxOf, MinOf;
    Extremes(s);
  }

  lemma {:induction false} UnitStepsClimb(s: seq<int>, i: nat)
    requires UnitSteps(s) && i < |s|
    ensures s[i] == s[0] + i
    decreases i
  {
    if i > 0 { UnitStepsClimb(s, i - 1); }
  }

  lemma {:induction false} AscendingClimbs(s: seq<int>, i: nat, j: nat)
    requires Ascending(s, NumberKey) && i <= j < |s|
    ensures s[j] - s[i] >= j - i
    decreases j - i
  {
    if i < j {
      AscendingClimbs(s, i, j - 1);
      assert Less(NumberKey(s[j - 1]), NumberKey(s[j]));
      NumberOrder(s[j - 1], s[j]);
    }
  }

  ghost predicate NoDuplicates(s: seq<int>) { forall i, j :: 0 <= i < j < |s| ==> s[i] != s[j] }

  lemma UnitStepsAscend(s: seq<int>)
    requires UnitSteps(s)
    ensures Ascending(s, NumberKey)
  {
    forall i, j | 0 <= i < j < |s| ensures Less(NumberKey(s[i]), NumberKey(s[j])) {
      UnitStepsClimb(s, i);
      UnitStepsClimb(s, j);
      NumberOrder(s[i], s[j]);
    }
  }

  lemma NumberOrder(a: int, b: int)
    ensures Less(NumberKey(a), NumberKey(b)) <==> a < b
  {
  }

  /** A permutation of a list without duplicates has none. */
  lemma PermutationDistinct(s: seq<int>, t: seq<int>)
    requires multiset(s) == multiset(t) && Ascending(t, NumberKey)
    ensures NoDuplicates(s)
  {
    forall x ensures multiset(t)[x] <= 1 { AscendingOnce(t, x); }
    forall i, j | 0 <= i < j < |s| ensures s[i] != s[j] {
      assert s == s[..i] + [s[i]] + s[i + 1..j] + [s[j]] + s[j + 1..];
      assert multiset(s)[s[i]] <= 1;
    }
  }

  lemma {:induction false} AscendingOnce(t: seq<int>, x: int)
    requires Ascending(t, NumberKey)
    ensures multiset(t)[x] <= 1
    decreases |t|
  {
    if t != [] {
      assert t == [t[0]] + t[1..];
      AscendingOnce(t[1..], x);
      if t[0] == x && x in t[1..] {
        var i :| 0 <= i < |t[1..]| && t[1..][i] == x;
        AscendingClimbs(t, 0, i + 1);
      }
    }
  }

  /**
   For one group the two tests agree up to duplicates: neighbours step by one exactly when
   max - min + 1 is the count and no sequence number occurs twice.
   */
  lemma GroupAgrees(g: seq<int>)
    requires g != []
    ensures UnitSteps(Sort(g, NumberKey)) <==> MaxOf(g) - MinOf(g) + 1 == |g| && NoDuplicates(g)
  {
    hide Sort, MaxOf, MinOf, Less, UnitSteps, NoDuplicates;
    if UnitSteps(Sort(g, NumberKey)) { StepsSpan(g); }
    if MaxOf(g) - MinOf(g) + 1 == |g| && NoDuplicates(g) { SpanSteps(g); }
  }

  lemma StepsSpan(g: seq<int>)
    requires g != [] && UnitSteps(Sort(g, NumberKey))
    ensures MaxOf(g) - MinOf(g) + 1 == |g| && NoDuplicates(g)
  {
    hide Sort, MaxOf, MinOf, Less, UnitSteps, NoDuplicates, Ascending;
    var s := Sort(g, NumberKey);
    UnitStepsAscend(s);
    PermutationDistinct(g, s);
    EndsAreExtremes(g, s);
    UnitStepsClimb(s, |s| - 1);
  }

  lemma SpanSteps(g: seq<int>)
    requires g != [] && MaxOf(g) - MinOf(g) + 1 == |g| && NoDuplicates(g)
    ensures UnitSteps(Sort(g, NumberKey))
  {
    hide Sort, MaxOf, MinOf, Less, Ascending;
    var s := Sort(g, NumberKey);
    SortAscends(g, NumberKey);
    EndsAreExtremes(g, s);
    forall i | 1 <= i < |s| ensures s[i] == s[i - 1] + 1 {
      AscendingClimbs(s, 0, i - 1);
      AscendingClimbs(s, i - 1, i);
      AscendingClimbs(s, i, |s| - 1);
    }
  }

  lemma EndsAreExtremes(g: seq<int>, s: seq<int>)
    requires g != [] && SameElements(s, g) && |s| == |g| && Ascending(s, NumberKey)
    ensures s[0] == MinOf(g) && s[|s| - 1] == MaxOf(g)
  {
    hide MaxOf, MinOf, Less;
    Extremes(g);
    assert s[0] in g && s[|s| - 1] in g;
    assert MinOf(g) in s && MaxOf(g) in s;
    var i :| 0 <= i < |s| && s[i] == MinOf(g);
    var j :| 0 <= j < |s| && s[j] == MaxOf(g);
    AscendingClimbs(s, 0, i);
    AscendingClimbs(s, j, |s| - 1);
  }

  // ---------------------------------------------------------------------------------------
  // The two collectors
  // ---------------------------------------------------------------------------------------

  /** No two different aggregates of the log share a grouping key. */
  ghost predicate KeysFaithful(events: seq<Event>) {
    forall e, f :: e in events && f in events && KeyOf(e) == KeyOf(f) ==>
      e.aggregateType == f.aggregateType && e.aggregateId == f.aggregateId
  }

  /** The unique key of the events table. */
  ghost predicate UniqueSequences(events: seq<Event>) {
    forall i, j :: 0 <= i < j < |events| ==> events[i] != events[j]
  }

  /** Types without a colon never make keys collide. */
  lemma ColonFreeFaithful(events: seq<Event>)
    requires forall e :: e in events ==> ':' !in e.aggregateType
    ensures KeysFaithful(events)
  {
    forall e, f | e in events && f in events && KeyOf(e) == KeyOf(f)
      ensures e.aggregateType == f.aggregateType && e.aggregateId == f.aggregateId
    {
      ColonSplits(e.aggregateType, e.aggregateId, f.aggregateType, f.aggregateId);
    }
  }

  lemma {:induction false} ColonSplits(a: string, b: string, c: string, d: string)
    requires ':' !in a && ':' !in c && a + ":" + b == c + ":" + d
    ensures a == c && b == d
  {
    var s := a + ":" + b;
    assert s[|a|] == ':' && s[|c|] == ':';
    assert forall k :: 0 <= k < |a| ==> s[k] == a[k];
    assert forall k :: 0 <= k < |c| ==> s[k] == c[k];
    assert |a| == |c|;
    assert s[..|a|] == a && s[..|c|] == c && s[|a| + 1..] == b && s[|c| + 1..] == d;
  }

  lemma {:induction false} SameGroup(all: seq<Event>, events: seq<Event>, e: Event)
    requires KeysFaithful(all) && e in all && forall f :: f in events ==> f in all
    ensures KeyGroup(events, KeyOf(e)) == Group(events, e.aggregateType, e.aggregateId)
    decreases |events|
  {
    hide KeyOf;
    if events != [] {
      var f := events[|events| - 1];
      assert f in all;
      SameGroup(all, events[..|events| - 1], e);
      if e.aggregateType == f.aggregateType && e.aggregateId == f.aggregateId { SameKeyWhenEqual(e, f); }
    }
  }

  lemma SameKeyWhenEqual(e: Event, f: Event)
    requires e.aggregateType == f.aggregateType && e.aggregateId == f.aggregateId
    ensures KeyOf(e) == KeyOf(f)
  {
  }

  lemma {:induction false} GroupMembers(events: seq<Event>, e: Event)
    ensures e.sequence in Group(events, e.aggregateType, e.aggregateId) <==> e in events
    decreases |events|
  {
    if events != [] {
      var p, f := events[..|events| - 1], events[|events| - 1];
      assert events == p + [f];
      GroupMembers(p, e);
    }
  }

  /** No group repeats a number exactly when no event repeats. */
  lemma {:induction false} GroupsDistinct(events: seq<Event>)
    ensures UniqueSequences(events) <==>
              forall e :: e in events ==> NoDuplicates(Group(events, e.aggregateType, e.aggregateId))
    decreases |events|
  {
    if UniqueSequences(events) {
      forall e | e in events ensures NoDuplicates(Group(events, e.aggregateType, e.aggregateId)) {
        UniqueGroup(events, e.aggregateType, e.aggregateId);
      }
    }
    if forall e :: e in events ==> NoDuplicates(Group(events, e.aggregateType, e.aggregateId)) {
      forall i, j | 0 <= i < j < |events| ensures events[i] != events[j] {
        RepeatSeen(events, i, j);
        assert events[j] in events;
      }
    }
  }

  lemma {:induction false} UniqueGroup(events: seq<Event>, aggregateType: string, aggregateId: string)
    requires UniqueSequences(events)
    ensures NoDuplicates(Group(events, aggregateType, aggregateId))
    decreases |events|
  {
    if events != [] {
      var p, f := events[..|events| - 1], events[|events| - 1];
      assert forall i, j :: 0 <= i < j < |p| ==> p[i] == events[i] && p[j] == events[j];
      UniqueGroup(p, aggregateType, aggregateId);
      GroupMembers(p, Event(aggregateType, aggregateId, f.sequence));
    }
  }

  lemma {:induction false} RepeatSeen(events: seq<Event>, i: nat, j: nat)
    requires i < j < |events|
    ensures events[i] == events[j] ==> !NoDuplicates(Group(events, events[j].aggregateType, events[j].aggregateId))
    decreases |events|
  {
    var p, f := events[..|events| - 1], events[|events| - 1];
    if events[i] == events[j] {
      var g := Group(p, f.aggregateType, f.aggregateId);
      if j < |p| {
        RepeatSeen(p, i, j);
        var h := Group(p, events[j].aggregateType, events[j].aggregateId);
        var a, b :| 0 <= a < b < |h| && h[a] == h[b];
        assert Group(events, events[j].aggregateType, events[j].aggregateId)[a] == h[a];
        assert Group(events, events[j].aggregateType, events[j].aggregateId)[b] == h[b];
      } else {
        assert p[i] == f;
        GroupMembers(p, f);
        var a :| 0 <= a < |g| && g[a] == f.sequence;
        var all := Group(events, f.aggregateType, f.aggregateId);
        assert all == g + [f.sequence];
        assert all[a] == all[|g|];
      }
    }
  }

  /** The query reports no gap exactly when max - min + 1 is the count in every group. */
  lemma SqlVerdict(events: seq<Event>)
    ensures SqlContiguous(events) <==>
              forall e :: e in events ==>
                var g := Group(events, e.aggregateType, e.aggregateId); g != [] ==> MaxOf(g) - MinOf(g) + 1 == |g|
  {
    hide MaxOf, MinOf, Group;
    if |GapGroups(events)| == 0 {
      assert GapGroups(events) == {};
      forall e | e in events
        ensures var g := Group(events, e.aggregateType, e.aggregateId); g != [] ==> MaxOf(g) - MinOf(g) + 1 == |g|
      {
        assert (e.aggregateType, e.aggregateId) !in GapGroups(events);
      }
    } else {
      var k :| k in GapGroups(events);
    }
  }

  /**
   With faithful keys, the in-memory verdict is the SQL verdict together with uniqueness of the
   sequence numbers; so on a log that keeps the table's unique key the two always agree.
   */
  lemma CollectorsAgree(events: seq<Event>)
    requires KeysFaithful(events)
    ensures KeysContiguous(events) <==> SqlContiguous(events) && UniqueSequences(events)
  {
    hide Sort, MaxOf, MinOf, UnitSteps, NoDuplicates, KeyOf, KeyGroup, Group, SqlContiguous, UniqueSequences;
    SqlVerdict(events);
    GroupsDistinct(events);
    forall e | e in events
      ensures Group(events, e.aggregateType, e.aggregateId) != []
      ensures var g := Group(events, e.aggregateType, e.aggregateId);
              UnitSteps(Sort(KeyGroup(events, KeyOf(e)), NumberKey)) <==>
                MaxOf(g) - MinOf(g) + 1 == |g| && NoDuplicates(g)
    {
      SameGroup(events, events, e);
      GroupMembers(events, e);
      GroupAgrees(Group(events, e.aggregateType, e.aggregateId));
    }
  }

  type Aggregate = (string, string)

  function AggregateOf(e: Event): Aggregate { (e.aggregateType, e.aggregateId) }

  function KeyText(a: Aggregate): string { a.0 + ":" + a.1 }

  ghost predicate LogOf(events: seq<Event>, aggregates: set<Aggregate>) {
    UniqueSequences(events) && forall e :: e in events ==> AggregateOf(e) in aggregates
  }

  /**
   For any set of aggregates: the collectors agree on every log of them that keeps the table's
   unique key exactly when no two of them share an in-memory key.
   */
  lemma AgreeExactly(aggregates: set<Aggregate>)
    ensures (forall events :: LogOf(events, aggregates) ==> (KeysContiguous(events) <==> SqlContiguous(events))) <==>
            (forall a, b :: a in aggregates && b in aggregates && KeyText(a) == KeyText(b) ==> a == b)
  {
    hide KeysContiguous, SqlContiguous, UniqueSequences;
    if forall a, b :: a in aggregates && b in aggregates && KeyText(a) == KeyText(b) ==> a == b {
      forall events | LogOf(events, aggregates) ensures KeysContiguous(events) <==> SqlContiguous(events) {
        LogFaithful(events, aggregates);
        CollectorsAgree(events);
      }
    } else {
      var a, b :| a in aggregates && b in aggregates && KeyText(a) == KeyText(b) && a != b;
      var e, f := Event(a.0, a.1, 1), Event(b.0, b.1, 1);
      CollisionPasses(e, f);
      assert LogOf([e, f], aggregates);
    }
  }

  lemma LogFaithful(events: seq<Event>, aggregates: set<Aggregate>)
    requires LogOf(events, aggregates)
    requires forall a, b :: a in aggregates && b in aggregates && KeyText(a) == KeyText(b) ==> a == b
    ensures KeysFaithful(events)
  {
    forall e, f | e in events && f in events && KeyOf(e) == KeyOf(f)
      ensures e.aggregateType == f.aggregateType && e.aggregateId == f.aggregateId
    {
      assert KeyText(AggregateOf(e)) == KeyText(AggregateOf(f));
    }
  }

  /** Without the unique key they differ at once: sequences 1, 1, 3 pass the query and fail in memory. */
  lemma DuplicatePasses()
    ensures var a := [Event("run", "x", 1), Event("run", "x", 1), Event("run", "x", 3)];
            KeysFaithful(a) && SqlContiguous(a) && !KeysContiguous(a)
  {
    hide KeysContiguous, Group, MaxOf, MinOf, SqlContiguous, KeyOf;
    var e, f := Event("run", "x", 1), Event("run", "x", 3);
    var a := [e, e, f];
    ThreeOfOneGroup(e, f);
    ExtremesUnique([1, 1, 3], 1, 3);
    SqlVerdict(a);
    assert a[0] == a[1];
    CollectorsAgree(a);
  }

  lemma ThreeOfOneGroup(e: Event, f: Event)
    requires AggregateOf(e) == AggregateOf(f)
    ensures Group([e, e, f], e.aggregateType, e.aggregateId) == [e.sequence, e.sequence, f.sequence]
  {
    hide Group, KeyGroup;
    GroupSnoc([], e, e.aggregateType, e.aggregateId);
    GroupSnoc([] + [e], e, e.aggregateType, e.aggregateId);
    GroupSnoc([] + [e] + [e], f, e.aggregateType, e.aggregateId);
    assert [e, e, f] == [] + [e] + [e] + [f];
    EmptyGroups(e.aggregateType, e.aggregateId);
  }

  lemma GroupSnoc(events: seq<Event>, e: Event, t: string, id: string)
    ensures Group(events + [e], t, id) ==
              Group(events, t, id) + if e.aggregateType == t && e.aggregateId == id then [e.sequence] else []
    ensures KeyGroup(events + [e], t) == KeyGroup(events, t) + if KeyOf(e) == t then [e.sequence] else []
  {
  }

  lemma EmptyGroups(t: string, id: string)
    ensures Group([], t, id) == [] && KeyGroup([], t) == []
  {
  }

  /** Two aggregates with one key: one event of each, both numbered 1, passes the query and fails in memory. */
  lemma CollisionPasses(e: Event, f: Event)
    requires e.sequence == f.sequence == 1 && e != f && KeyOf(e) == KeyOf(f)
    ensures UniqueSequences([e, f]) && SqlContiguous([e, f]) && !KeysContiguous([e, f])
  {
    hide Group, KeyGroup, SqlContiguous, Sort, UnitSteps, KeyOf;
    CollisionInSql(e, f);
    CollisionInMemory(e, f);
    TwoOnes();
    assert e in [e, f];
  }

  /** Two such aggregates. */
  lemma ColonCollision()
    ensures var b := [Event("a:b", "c", 1), Event("a", "b:c", 1)];
            UniqueSequences(b) && SqlContiguous(b) && !KeysContiguous(b)
  {
    hide SqlContiguous, KeysContiguous;
    var e, f := Event("a:b", "c", 1), Event("a", "b:c", 1);
    assert e != f by { assert |e.aggregateType| != |f.aggregateType|; }
    assert KeyOf(e) == "a:b:c" && KeyOf(f) == "a:b:c";
    CollisionPasses(e, f);
  }

  lemma CollisionInSql(e: Event, f: Event)
    requires e.aggregateType != f.aggregateType || e.aggregateId != f.aggregateId
    ensures SqlContiguous([e, f])
  {
    hide MaxOf, MinOf, SqlContiguous, Group;
    var b := [e, f];
    forall x | x in b ensures |Group(b, x.aggregateType, x.aggregateId)| == 1 {
      assert b == [] + [e] + [f];
      EmptyGroups(x.aggregateType, x.aggregateId);
      GroupSnoc([], e, x.aggregateType, x.aggregateId);
      GroupSnoc([] + [e], f, x.aggregateType, x.aggregateId);
    }
    forall g: seq<int> | |g| == 1 ensures MaxOf(g) - MinOf(g) + 1 == 1 { ExtremesUnique(g, g[0], g[0]); }
    SqlVerdict(b);
  }

  lemma CollisionInMemory(e: Event, f: Event)
    requires KeyOf(e) == KeyOf(f)
    ensures KeyGroup([e, f], KeyOf(e)) == [e.sequence, f.sequence]
  {
    hide KeyGroup, Group, KeyOf;
    var key := KeyOf(e);
    assert [e, f] == [] + [e] + [f];
    EmptyGroups(key, "");
    GroupSnoc([], e, key, "");
    GroupSnoc([] + [e], f, key, "");
  }

  lemma TwoOnes()
    ensures !UnitSteps(Sort([1, 1], NumberKey))
  {
    var s := Sort([1, 1], NumberKey);
    assert s[0] in [1, 1] && s[1] in [1, 1];
  }
}
