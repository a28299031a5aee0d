/**
 The mission auto-progress script (scripts/auto-progress-war-room.js): one invocation picks one
 mission, moves it at most one stage and logs what it did. Log ids and message texts are not part
 of this model; `now` is the invocation's timestamp.
 */
module WarRoom {
  import opened Wrappers

  datatype Status = Planned | Running | Blocked | Done | Other(text: string)

  datatype Level = Info | Warn | Success

  datatype Mission = Mission(
    id: string, projectId: string, agent: string, status: Status,
    startedAt: Option<int>, completedAt: Option<int>, updatedAt: int)

  datatype Log = Log(projectId: string, missionId: string, agent: string, level: Level, createdAt: int)

  datatype Agent = Agent(id: string, lastHeartbeatAt: int)

  datatype Room = Room(missions: seq<Mission>, logs: seq<Log>, agents: seq<Agent>, project: Option<int>)

  ghost predicate DistinctIds(missions: seq<Mission>) {
    forall i, j :: 0 <= i < j < |missions| ==> missions[i].id != missions[j].id
  }

  /** `missions.find`: the first mission with the status. */
  function FindStatus(missions: seq<Mission>, status: Status): (r: Option<nat>)
    ensures r.Some? ==> r.value < |missions| && missions[r.value].status == status
    ensures r.Some? ==> forall i :: 0 <= i < r.value ==> missions[i].status != status
    ensures r.None? ==> forall i :: 0 <= i < |missions| ==> missions[i].status != status
  {
    if missions == [] then None
    else if missions[0].status == status then Some(0)
    else
      var r := FindStatus(missions[1..], status);
      if r.None? then None else Some(r.value + 1)
  }

  function Priority(status: Status): nat {
    match status
    case Running => 0
    case Blocked => 1
    case Planned => 2
    case _ => 3
  }

  /** `chooseMission`: the first of the missions with the best priority, if any is open. */
  function Choose(missions: seq<Mission>): (r: Option<nat>)
    ensures r.Some? ==> r.value < |missions| && Priority(missions[r.value].status) < 3
    ensures r.Some? ==> forall i :: 0 <= i < |missions| ==>
              && Priority(missions[i].status) >= Priority(missions[r.value].status)
              && (i < r.value ==> Priority(missions[i].status) > Priority(missions[r.value].status))
    ensures r.None? <==> forall i :: 0 <= i < |missions| ==> Priority(missions[i].status) == 3
  {
    var running := FindStatus(missions, Running);
    if running.Some? then running else
      var blocked := FindStatus(missions, Blocked);
      if blocked.Some? then blocked else FindStatus(missions, Planned)
  }

  function LogCount(logs: seq<Log>, id: string): nat {
    if logs == [] then 0 else LogCount(logs[..|logs| - 1], id) + if logs[|logs| - 1].missionId == id then 1 else 0
  }

  function Or(t: Option<int>, now: int): Option<int> { if t.Some? then t else Some(now) }

  /** The chosen mission after the invocation, and the level it logs. */
  function Advanced(m: Mission, logged: nat, now: int): (Mission, Level) {
    match m.status
    case Planned => (m.(status := Running, startedAt := Or(m.startedAt, now), updatedAt := now), Info)
    case Running =>
      if logged >= 2 then (m.(status := Done, completedAt := Or(m.completedAt, now), updatedAt := now), Success)
      else (m.(updatedAt := now), Info)
    case _ => (m.(updatedAt := now), Warn)
  }

  function Heartbeat(agents: seq<Agent>, id: string, now: int): seq<Agent> {
    if agents == [] then []
    else if agents[0].id == id then [agents[0].(lastHeartbeatAt := now)] + agents[1..]
    else [agents[0]] + Heartbeat(agents[1..], id, now)
  }

  /** One invocation. */
  function Invoke(r: Room, now: int): Room {
    var chosen := Choose(r.missions);
    if r.project.None? || chosen.None? then r else
      var m := r.missions[chosen.value];
      var (next, level) := Advanced(m, LogCount(r.logs, m.id), now);
      Room(r.missions[chosen.value := next], r.logs + [Log(m.projectId, m.id, m.agent, level, now)],
           Heartbeat(r.agents, m.agent, now), Some(now))
  }

  function InvokeAll(r: Room, times: seq<int>): Room
    decreases |times|
  {
    if times == [] then r else InvokeAll(Invoke(r, times[0]), times[1..])
  }

  /** The data file, changed in place by each invocation. */
  class DataFile {
    var missions: seq<Mission>
    var logs: seq<Log>
    var agents: seq<Agent>
    var project: Option<int>

    ghost function View(): Room
      reads this
    {
      Room(missions, logs, agents, project)
    }

    /** `main`, once. */
    method Advance(now: int)
      modifies this
      ensures View() == Invoke(old(View()), now)
    {
      hide Choose, LogCount;
      if project.None? { return; }
      var chosen := Choose(missions);
      if chosen.None? { return; }
      var k := chosen.value;
      var mission := missions[k];
      var logsForMission := LogCount(logs, mission.id);
      var level := Info;
      var status, startedAt, completedAt := mission.status, mission.startedAt, mission.completedAt;
      if status == Planned {
        status := Running;
        startedAt := Or(startedAt, now);
      } else if status == Running {
        if logsForMission >= 2 {
          status := Done;
          completedAt := Or(completedAt, now);
          level := Success;
        }
      } else {
        level := Warn;
      }
      missions := missions[k := mission.(status := status, startedAt := startedAt, completedAt := completedAt, updatedAt := now)];
      project := Some(now);
      agents := Heartbeat(agents, mission.agent, now);
      logs := logs + [Log(mission.projectId, mission.id, mission.agent, level, now)];
    }
  }

  // ---------------------------------------------------------------------------------------
  // The work left
  // ---------------------------------------------------------------------------------------

  predicate HasBlocked(missions: seq<Mission>) { exists i :: 0 <= i < |missions| && missions[i].status.Blocked? }

  /** Invocations a running mission with `logged` log entries still needs. */
  function RunningWork(logged: nat): nat { if logged >= 2 then 1 else 3 - logged }

  /** Planned missions never start while another one is blocked. */
  function WorkOf(m: Mission, logged: nat, blocked: bool): nat {
    match m.status
    case Running => RunningWork(logged)
    case Planned => if blocked then 0 else 1 + RunningWork(logged + 1)
    case _ => 0
  }

  function Work(missions: seq<Mission>, logs: seq<Log>, blocked: bool): nat {
    if missions == [] then 0
    else WorkOf(missions[0], LogCount(logs, missions[0].id), blocked) + Work(missions[1..], logs, blocked)
  }

  function RoomWork(r: Room): nat { Work(r.missions, r.logs, HasBlocked(r.missions)) }

  /** Where a mission ends up. */
  function Goal(status: Status, blocked: bool): Status {
    match status
    case Running => Done
    case Planned => if blocked then Planned else Done
    case _ => status
  }

  lemma LogCountSnoc(logs: seq<Log>, x: Log, id: string)
    ensures LogCount(logs + [x], id) == LogCount(logs, id) + if x.missionId == id then 1 else 0
  {
  }

  lemma {:induction false} WorkElsewhere(missions: seq<Mission>, logs: seq<Log>, x: Log, blocked: bool)
    requires forall i :: 0 <= i < |missions| ==> missions[i].id != x.missionId
    ensures Work(missions, logs + [x], blocked) == Work(missions, logs, blocked)
    decreases |missions|
  {
    hide LogCount, WorkOf;
    if missions != [] {
      LogCountSnoc(logs, x, missions[0].id);
      WorkElsewhere(missions[1..], logs, x, blocked);
    }
  }

  lemma {:induction false} WorkChanges(missions: seq<Mission>, logs: seq<Log>, blocked: bool, k: nat, m: Mission, x: Log)
    requires DistinctIds(missions) && k < |missions| && m.id == missions[k].id == x.missionId
    ensures Work(missions[k := m], logs + [x], blocked) == Work(missions, logs, blocked)
              - WorkOf(missions[k], LogCount(logs, m.id), blocked) + WorkOf(m, LogCount(logs, m.id) + 1, blocked)
    decreases |missions|
  {
    hide LogCount, WorkOf;
    var t := missions[k := m];
    LogCountSnoc(logs, x, missions[0].id);
    if k == 0 {
      assert t[1..] == missions[1..];
      WorkElsewhere(missions[1..], logs, x, blocked);
    } else {
      assert t[1..] == missions[1..][k - 1 := m];
      WorkChanges(missions[1..], logs, blocked, k - 1, m, x);
    }
  }

  lemma {:induction false} WorkZero(missions: seq<Mission>, logs: seq<Log>, blocked: bool)
    ensures Work(missions, logs, blocked) == 0 <==>
              forall i :: 0 <= i < |missions| ==> Goal(missions[i].status, blocked) == missions[i].status
    decreases |missions|
  {
    hide LogCount;
    if missions != [] {
      WorkZero(missions[1..], logs, blocked);
      assert forall i :: 1 <= i < |missions| ==> missions[i] == missions[1..][i - 1];
    }
  }

  /** What one invocation does to the statuses. */
  lemma InvokeShape(r: Room, now: int)
    requires r.project.Some? && Choose(r.missions).Some?
    ensures var t, k := Invoke(r, now), Choose(r.missions).value;
            var m := r.missions[k];
            && t.project.Some? && |t.missions| == |r.missions| && |t.logs| == |r.logs| + 1
            && t.logs == r.logs + [t.logs[|r.logs|]] && t.logs[|r.logs|].missionId == m.id
            && t.missions == r.missions[k := t.missions[k]] && t.missions[k].id == m.id
            && t.missions[k].status == (match m.status
                                        case Planned => Running
                                        case Running => if LogCount(r.logs, m.id) >= 2 then Done else Running
                                        case _ => m.status)
  {
  }

  lemma ChoosesBest(missions: seq<Mission>)
    ensures Choose(missions).Some? ==>
              var status := missions[Choose(missions).value].status;
              && (status.Running? || status.Blocked? || status.Planned?)
              && (status.Planned? ==> !HasBlocked(missions)) && (status.Blocked? ==> HasBlocked(missions))
              && (!status.Running? ==> forall i :: 0 <= i < |missions| ==> !missions[i].status.Running?)
  {
  }

  lemma InvokeKeepsBlocked(r: Room, now: int)
    ensures HasBlocked(Invoke(r, now).missions) <==> HasBlocked(r.missions)
    ensures Invoke(r, now).project.Some? <==> r.project.Some?
    ensures DistinctIds(r.missions) ==> DistinctIds(Invoke(r, now).missions)
  {
    hide LogCount, Heartbeat, Choose;
    if r.project.Some? && Choose(r.missions).Some? {
      InvokeShape(r, now);
      var t, k := Invoke(r, now), Choose(r.missions).value;
      assert forall i :: 0 <= i < |r.missions| ==> t.missions[i].status.Blocked? == r.missions[i].status.Blocked?;
      if HasBlocked(r.missions) {
        var i :| 0 <= i < |r.missions| && r.missions[i].status.Blocked?;
        assert t.missions[i].status.Blocked?;
      }
    }
  }

  /** Each invocation with work left does exactly one unit of it, and otherwise changes no status. */
  lemma InvokeWorks(r: Room, now: int)
    requires DistinctIds(r.missions) && r.project.Some?
    ensures RoomWork(r) > 0 ==> RoomWork(Invoke(r, now)) == RoomWork(r) - 1
    ensures RoomWork(r) == 0 ==> RoomWork(Invoke(r, now)) == 0
  {
    hide LogCount, Heartbeat, Choose, Work, HasBlocked, Invoke;
    var blocked := HasBlocked(r.missions);
    InvokeKeepsBlocked(r, now);
    ChoosesBest(r.missions);
    WorkZero(r.missions, r.logs, blocked);
    if Choose(r.missions).Some? {
      InvokeShape(r, now);
      var t, k := Invoke(r, now), Choose(r.missions).value;
      WorkChanges(r.missions, r.logs, blocked, k, t.missions[k], t.logs[|r.logs|]);
      WorkAtLeast(r.missions, r.logs, blocked, k);
    } else {
      NothingChosen(r, now);
    }
  }

  lemma NothingChosen(r: Room, now: int)
    requires Choose(r.missions).None?
    ensures Invoke(r, now) == r
    ensures RoomWork(r) == 0
  {
    hide LogCount, HasBlocked;
    WorkZero(r.missions, r.logs, HasBlocked(r.missions));
  }

  lemma {:induction false} WorkAtLeast(missions: seq<Mission>, logs: seq<Log>, blocked: bool, k: nat)
    requires k < |missions|
    ensures Work(missions, logs, blocked) >= WorkOf(missions[k], LogCount(logs, missions[k].id), blocked)
    decreases |missions|
  {
    hide LogCount, WorkOf;
    if k > 0 { WorkAtLeast(missions[1..], logs, blocked, k - 1); }
  }

  lemma InvokeKeepsGoal(r: Room, now: int)
    ensures |Invoke(r, now).missions| == |r.missions|
    ensures forall i :: 0 <= i < |r.missions| ==>
              Goal(Invoke(r, now).missions[i].status, HasBlocked(r.missions)) == Goal(r.missions[i].status, HasBlocked(r.missions))
  {
  }

  /**
   The whole run: the work left is a countdown, and once it is spent every mission rests at its
   goal. No earlier, since the work is zero only when every mission is at its goal.
   */
  lemma {:induction false} RunCountsDown(r: Room, times: seq<int>)
    requires DistinctIds(r.missions) && r.project.Some?
    ensures var t := InvokeAll(r, times);
            && |t.missions| == |r.missions| && HasBlocked(t.missions) == HasBlocked(r.missions)
            && RoomWork(t) == (if |times| < RoomWork(r) then RoomWork(r) - |times| else 0)
            && (forall i :: 0 <= i < |r.missions| ==>
                  Goal(t.missions[i].status, HasBlocked(r.missions)) == Goal(r.missions[i].status, HasBlocked(r.missions)))
    decreases |times|
  {
    hide RoomWork, Invoke, HasBlocked, Goal, DistinctIds;
    if times != [] {
      InvokeKeepsBlocked(r, times[0]);
      InvokeWorks(r, times[0]);
      InvokeKeepsGoal(r, times[0]);
      RunCountsDown(Invoke(r, times[0]), times[1..]);
    }
  }

  /** All missions rest at their goals after exactly `RoomWork` invocations, and not before. */
  lemma RunSettlesExactly(r: Room, times: seq<int>)
    requires DistinctIds(r.missions) && r.project.Some?
    ensures var t, blocked := InvokeAll(r, times), HasBlocked(r.missions);
            && |t.missions| == |r.missions|
            && (|times| >= RoomWork(r) <==>
                  forall i :: 0 <= i < |r.missions| ==> t.missions[i].status == Goal(r.missions[i].status, blocked))
  {
    hide LogCount, Work, HasBlocked, DistinctIds;
    RunCountsDown(r, times);
    var t := InvokeAll(r, times);
    WorkZero(t.missions, t.logs, HasBlocked(t.missions));
  }

  /** Fresh missions, none blocked: three invocations each, after which all are done. */
  lemma FreshMissionsFinish(r: Room, times: seq<int>)
    requires DistinctIds(r.missions) && r.project.Some? && r.logs == []
    requires forall i :: 0 <= i < |r.missions| ==> r.missions[i].status.Planned?
    ensures RoomWork(r) == 3 * |r.missions|
    ensures var t := InvokeAll(r, times);
            |t.missions| == |r.missions| &&
            (|times| >= 3 * |r.missions| <==> forall i :: 0 <= i < |r.missions| ==> t.missions[i].status.Done?)
  {
    hide DistinctIds, Work;
    FreshWork(r.missions);
    RunSettlesExactly(r, times);
  }

  lemma {:induction false} FreshWork(missions: seq<Mission>)
    requires forall i :: 0 <= i < |missions| ==> missions[i].status.Planned?
    ensures Work(missions, [], false) == 3 * |missions|
    decreases |missions|
  {
    if missions != [] { FreshWork(missions[1..]); }
  }

  function Rank(status: Status): nat {
    match status
    case Planned => 0
    case Running => 1
    case Done => 2
    case _ => 3
  }

  /** No mission ever goes back a stage. */
  lemma {:induction false} NeverRegress(r: Room, times: seq<int>, i: nat)
    requires i < |r.missions|
    ensures |InvokeAll(r, times).missions| == |r.missions|
    ensures Rank(InvokeAll(r, times).missions[i].status) >= Rank(r.missions[i].status)
    decreases |times|
  {
    hide LogCount, Heartbeat, Choose, HasBlocked;
    if times != [] {
      InvokeKeepsGoal(r, times[0]);
      if r.project.Some? && Choose(r.missions).Some? {
        ChoosesBest(r.missions);
        InvokeShape(r, times[0]);
      }
      NeverRegress(Invoke(r, times[0]), times[1..], i);
    }
  }

  /**
   Stuck: with a blocked mission and none running, no invocation ever changes a status again; each
   one only logs another warning.
   */
  lemma {:induction false} BlockedIsStuck(r: Room, times: seq<int>)
    requires r.project.Some? && HasBlocked(r.missions)
    requires forall i :: 0 <= i < |r.missions| ==> !r.missions[i].status.Running?
    ensures var t := InvokeAll(r, times);
            && |t.missions| == |r.missions| && |t.logs| == |r.logs| + |times|
            && (forall i :: 0 <= i < |r.missions| ==> t.missions[i].status == r.missions[i].status)
            && (forall n :: |r.logs| <= n < |t.logs| ==> t.logs[n].level == Warn)
            && r.logs <= t.logs
    decreases |times|
  {
    hide LogCount, Heartbeat, Choose, HasBlocked;
    if times != [] {
      BlockedStep(r, times[0]);
      InvokeKeepsBlocked(r, times[0]);
      BlockedIsStuck(Invoke(r, times[0]), times[1..]);
    }
  }

  lemma BlockedStep(r: Room, now: int)
    requires r.project.Some? && HasBlocked(r.missions)
    requires forall i :: 0 <= i < |r.missions| ==> !r.missions[i].status.Running?
    ensures var t := Invoke(r, now);
            && |t.missions| == |r.missions| && |t.logs| == |r.logs| + 1 && r.logs <= t.logs
            && t.logs[|r.logs|].level == Warn
            && (forall i :: 0 <= i < |r.missions| ==> t.missions[i].status == r.missions[i].status)
  {
  }
}
