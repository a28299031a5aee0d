/**
 What the auto-progress script stamps and logs (scripts/auto-progress-war-room.js): which agent is
 seen, and when a mission counts as started and as completed, over any number of invocations.
 */
module WarRoomTimes {
  import opened Wrappers
  import opened WarRoom

  predicate IsFirst(agents: seq<Agent>, k: nat, id: string) {
    k < |agents| && agents[k].id == id && forall j :: 0 <= j < k ==> agents[j].id != id
  }

  lemma FirstBehind(agents: seq<Agent>, k: nat, id: string)
    requires agents != [] && agents[0].id != id
    ensures IsFirst(agents, k, id) <==> k > 0 && IsFirst(agents[1..], k - 1, id)
  {
    var rest := agents[1..];
    assert forall j :: 0 < j < |agents| ==> agents[j] == rest[j - 1];
    if k > 0 && IsFirst(agents, k, id) {
      forall j | 0 <= j < k - 1 ensures rest[j].id != id { assert agents[j + 1].id != id; }
    }
  }

  /** Only the first agent with the id is seen, and only its heartbeat changes. */
  lemma {:induction false} HeartbeatExact(agents: seq<Agent>, id: string, now: int)
    ensures |Heartbeat(agents, id, now)| == |agents|
    ensures forall k :: 0 <= k < |agents| ==>
              Heartbeat(agents, id, now)[k] == if IsFirst(agents, k, id) then Agent(id, now) else agents[k]
  {
    if agents != [] && agents[0].id != id {
      var rest := agents[1..];
      HeartbeatExact(rest, id, now);
      forall k | 0 <= k < |agents|
        ensures Heartbeat(agents, id, now)[k] == if IsFirst(agents, k, id) then Agent(id, now) else agents[k]
      {
        FirstBehind(agents, k, id);
        hide IsFirst;
        if k > 0 { assert agents[k] == rest[k - 1]; }
      }
    }
  }

  /** A running mission that has been logged twice is completed. */
  predicate Completes(r: Room, m: Mission) { m.status.Running? && |OwnLogs(r.logs, m.id)| >= 2 }

  /** The positions of the mission's log entries. */
  function OwnLogs(logs: seq<Log>, id: string): set<nat> { set k: nat | k < |logs| && logs[k].missionId == id }

  lemma OwnLogsSnoc(p: seq<Log>, x: Log, id: string)
    ensures |OwnLogs(p + [x], id)| == |OwnLogs(p, id)| + if x.missionId == id then 1 else 0
  {
    var logs := p + [x];
    assert logs[|p|] == x;
    assert forall k :: 0 <= k < |p| ==> logs[k] == p[k];
    assert OwnLogs(logs, id) == OwnLogs(p, id) + if x.missionId == id then {|p|} else {};
  }

  lemma {:induction false} LogCountExact(logs: seq<Log>, id: string)
    ensures LogCount(logs, id) == |OwnLogs(logs, id)|
    decreases |logs|
  {
    hide OwnLogs;
    if logs == [] {
      assert OwnLogs([], id) == {} by { NoLogs(id); }
    } else {
      var n := |logs| - 1;
      assert logs == logs[..n] + [logs[n]];
      LogCountExact(logs[..n], id);
      OwnLogsSnoc(logs[..n], logs[n], id);
    }
  }

  lemma NoLogs(id: string)
    ensures OwnLogs([], id) == {}
  {
  }

  /** One invocation, field by field. */
  lemma InvokeExact(r: Room, now: int)
    ensures var t := Invoke(r, now);
            if r.project.None? || Choose(r.missions).None? then t == r
            else
              var k := Choose(r.missions).value;
              var m := r.missions[k];
              var starts, completes := m.status.Planned?, Completes(r, m);
              && t.project == Some(now) && t.agents == Heartbeat(r.agents, m.agent, now)
              && |t.missions| == |r.missions| && (forall i :: 0 <= i < |r.missions| && i != k ==> t.missions[i] == r.missions[i])
              && t.missions[k] == Mission(
                   m.id, m.projectId, m.agent,
                   if starts then Running else if completes then Done else m.status,
                   if starts && m.startedAt.None? then Some(now) else m.startedAt,
                   if completes && m.completedAt.None? then Some(now) else m.completedAt, now)
              && t.logs == r.logs + [Log(m.projectId, m.id, m.agent,
                   if completes then Success else if m.status.Blocked? then Warn else Info, now)]
  {
    if r.project.Some? && Choose(r.missions).Some? {
      LogCountExact(r.logs, r.missions[Choose(r.missions).value].id);
      ChoosesBest(r.missions);
    }
  }

  lemma {:induction false} InvokeAllSnoc(r: Room, times: seq<int>, now: int)
    ensures InvokeAll(r, times + [now]) == Invoke(InvokeAll(r, times), now)
    decreases |times|
  {
    hide Invoke;
    if times == [] {
      assert [now][1..] == [];
    } else {
      assert (times + [now])[1..] == times[1..] + [now];
      InvokeAllSnoc(Invoke(r, times[0]), times[1..], now);
    }
  }

  /** The mission after the first `k` invocations. */
  function MissionAt(r: Room, times: seq<int>, k: nat, i: nat): Mission
    requires k <= |times| && i < |r.missions|
  {
    SameMissions(r, times[..k]);
    InvokeAll(r, times[..k]).missions[i]
  }

  lemma {:induction false} SameMissions(r: Room, times: seq<int>)
    ensures |InvokeAll(r, times).missions| == |r.missions|
    decreases |times|
  {
    hide Invoke;
    if times != [] {
      InvokeKeepsGoal(r, times[0]);
      SameMissions(Invoke(r, times[0]), times[1..]);
    }
  }

  /** From one invocation to the next. */
  lemma MissionStep(r: Room, times: seq<int>, k: nat, i: nat)
    requires k < |times| && i < |r.missions|
    ensures var m, t := MissionAt(r, times, k, i), MissionAt(r, times, k + 1, i);
            && (t.status != m.status ==>
                  (m.status.Planned? && t.status.Running?) || (m.status.Running? && t.status.Done?))
            && t.startedAt == (if m.status.Planned? && t.status.Running? && m.startedAt.None? then Some(times[k]) else m.startedAt)
            && t.completedAt == (if m.status.Running? && t.status.Done? && m.completedAt.None? then Some(times[k]) else m.completedAt)
  {
    hide OwnLogs, Heartbeat, Choose, Invoke;
    var before := InvokeAll(r, times[..k]);
    SameMissions(r, times[..k]);
    assert times[..k + 1] == times[..k] + [times[k]];
    InvokeAllSnoc(r, times[..k], times[k]);
    InvokeExact(before, times[k]);
  }

  /** The invocation at which the mission takes this step. */
  ghost predicate StepsAt(r: Room, times: seq<int>, k: nat, i: nat, from: Status, to: Status)
    requires k < |times| && i < |r.missions|
  {
    MissionAt(r, times, k, i).status == from && MissionAt(r, times, k + 1, i).status == to
  }

  /** A step is never taken back. */
  lemma {:induction false} StepStays(r: Room, times: seq<int>, k: nat, n: nat, i: nat)
    requires k < n <= |times| && i < |r.missions|
    ensures StepsAt(r, times, k, i, Planned, Running) ==> Rank(MissionAt(r, times, n, i).status) >= 1
    ensures StepsAt(r, times, k, i, Running, Done) ==> Rank(MissionAt(r, times, n, i).status) >= 2
    decreases n
  {
    hide MissionAt;
    if k + 1 < n {
      StepStays(r, times, k, n - 1, i);
      MissionStep(r, times, n - 1, i);
    }
  }

  /** The mission takes the step at this time, within the first `n` invocations. */
  ghost predicate StepsBy(r: Room, times: seq<int>, n: nat, i: nat, from: Status, to: Status, now: int)
    requires n <= |times| && i < |r.missions|
  {
    exists k :: 0 <= k < n && StepsAt(r, times, k, i, from, to) && times[k] == now
  }

  lemma StepsBySnoc(r: Room, times: seq<int>, n: nat, i: nat, from: Status, to: Status, now: int)
    requires 0 < n <= |times| && i < |r.missions|
    ensures StepsBy(r, times, n, i, from, to, now) <==>
              StepsBy(r, times, n - 1, i, from, to, now) || (StepsAt(r, times, n - 1, i, from, to) && times[n - 1] == now)
  {
    hide StepsAt;
  }

  /** Whether a time is what it was before the run, or, if unset then, the time of the step. */
  ghost predicate TimeOf(r: Room, times: seq<int>, n: nat, i: nat, from: Status, to: Status, before: Option<int>, after: Option<int>)
    requires n <= |times| && i < |r.missions|
  {
    if before.Some? then after == before
    else forall now :: after == Some(now) <==> StepsBy(r, times, n, i, from, to, now)
  }

  lemma TimeStep(r: Room, times: seq<int>, n: nat, i: nat, from: Status, to: Status, before: Option<int>,
                 last: Option<int>, after: Option<int>)
    requires 0 < n <= |times| && i < |r.missions| && TimeOf(r, times, n - 1, i, from, to, before, last)
    requires after == if StepsAt(r, times, n - 1, i, from, to) && last.None? then Some(times[n - 1]) else last
    requires StepsAt(r, times, n - 1, i, from, to) ==> forall k :: 0 <= k < n - 1 ==> !StepsAt(r, times, k, i, from, to)
    ensures TimeOf(r, times, n, i, from, to, before, after)
  {
    hide StepsAt;
    forall now ensures StepsBy(r, times, n, i, from, to, now) <==>
              StepsBy(r, times, n - 1, i, from, to, now) || (StepsAt(r, times, n - 1, i, from, to) && times[n - 1] == now)
    {
      StepsBySnoc(r, times, n, i, from, to, now);
    }
    if StepsAt(r, times, n - 1, i, from, to) {
      NotSteppedBefore(r, times, n, i, from, to, if last.Some? then last.value else 0);
    }
  }

  lemma NotSteppedBefore(r: Room, times: seq<int>, n: nat, i: nat, from: Status, to: Status, now: int)
    requires 0 < n <= |times| && i < |r.missions|
    requires forall k :: 0 <= k < n - 1 ==> !StepsAt(r, times, k, i, from, to)
    ensures !StepsBy(r, times, n - 1, i, from, to, now)
  {
    hide StepsAt;
  }

  /**
   Over any run a start or completion time, once set, stays; if unset it is set at the very
   invocation that starts or completes the mission, and at no other.
   */
  lemma {:induction false} TimesExact(r: Room, times: seq<int>, n: nat, i: nat)
    requires n <= |times| && i < |r.missions|
    ensures TimeOf(r, times, n, i, Planned, Running, r.missions[i].startedAt, MissionAt(r, times, n, i).startedAt)
    ensures TimeOf(r, times, n, i, Running, Done, r.missions[i].completedAt, MissionAt(r, times, n, i).completedAt)
    decreases n
  {
    if n == 0 {
      assert times[..0] == [];
    } else {
      hide TimeOf, MissionAt;
      TimesExact(r, times, n - 1, i);
      MissionStep(r, times, n - 1, i);
      forall k | 0 <= k < n - 1
        ensures StepsAt(r, times, n - 1, i, Planned, Running) ==> !StepsAt(r, times, k, i, Planned, Running)
        ensures StepsAt(r, times, n - 1, i, Running, Done) ==> !StepsAt(r, times, k, i, Running, Done)
      {
        StepStays(r, times, k, n - 1, i);
      }
      var last, next := MissionAt(r, times, n - 1, i), MissionAt(r, times, n, i);
      TimeStep(r, times, n, i, Planned, Running, r.missions[i].startedAt, last.startedAt, next.startedAt);
      TimeStep(r, times, n, i, Running, Done, r.missions[i].completedAt, last.completedAt, next.completedAt);
    }
  }
}
