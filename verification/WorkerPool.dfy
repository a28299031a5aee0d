/**
 The load-test worker pool (scripts/capacity-baseline.ts): concurrent workers pop request indices
 from one shared queue and update shared counters. The code between two awaits is one step; a run
 is any interleaving of the workers' steps. Requests, latency values and percentiles are not part
 of this model: a request succeeds, answers otherwise, or throws.
 */
module WorkerPool {
  import opened Wrappers

  datatype Reply = Succeeded | AnsweredOtherwise | Threw

  datatype Worker = Idle | Busy(index: nat) | Stopped

  /** `taken` is history: the indices popped so far, in order. `latencies` counts recorded latencies. */
  datatype Pool = Pool(
    queue: seq<nat>, workers: seq<Worker>, completed: nat, failed: nat, latencies: nat, taken: seq<nat>)

  datatype Step = Pop(worker: nat) | Return(worker: nat, reply: Reply)

  function Initial(total: nat, concurrency: nat): Pool {
    Pool(seq(total, i => i), seq(concurrency, _ => Idle), 0, 0, 0, [])
  }

  function Apply(p: Pool, step: Step): Option<Pool> {
    match step
    case Pop(w) =>
      if w >= |p.workers| || !p.workers[w].Idle? then None
      else if p.queue == [] then Some(p.(workers := p.workers[w := Stopped]))
      else
        var n := |p.queue| - 1;
        Some(p.(queue := p.queue[..n], workers := p.workers[w := Busy(p.queue[n])], taken := p.taken + [p.queue[n]]))
    case Return(w, reply) =>
      if w >= |p.workers| || !p.workers[w].Busy? then None
      else
        Some(p.(workers := p.workers[w := Idle],
                latencies := p.latencies + (if reply.Threw? then 0 else 1),
                completed := p.completed + (if reply.Succeeded? then 1 else 0),
                failed := p.failed + (if reply.Succeeded? then 0 else 1)))
  }

  function Execute(p: Pool, steps: seq<Step>): Option<Pool>
    decreases |steps|
  {
    if steps == [] then Some(p) else
      var q := Apply(p, steps[0]);
      if q.None? then None else Execute(q.value, steps[1..])
  }

  function CountBusy(ws: seq<Worker>): nat {
    if ws == [] then 0 else (if ws[0].Busy? then 1 else 0) + CountBusy(ws[1..])
  }

  function CountStopped(ws: seq<Worker>): nat {
    if ws == [] then 0 else (if ws[0].Stopped? then 1 else 0) + CountStopped(ws[1..])
  }

  lemma {:induction false} CountUpdate(ws: seq<Worker>, k: nat, x: Worker)
    requires k < |ws|
    ensures CountBusy(ws[k := x]) == CountBusy(ws) - (if ws[k].Busy? then 1 else 0) + (if x.Busy? then 1 else 0)
    ensures CountStopped(ws[k := x]) == CountStopped(ws) - (if ws[k].Stopped? then 1 else 0) + (if x.Stopped? then 1 else 0)
    decreases |ws|
  {
    var t := ws[k := x];
    if k == 0 {
      assert t[1..] == ws[1..];
    } else {
      assert t[1..] == ws[1..][k - 1 := x];
      CountUpdate(ws[1..], k - 1, x);
    }
  }

  /**
   The queue is what is left of 0, 1, ..., total - 1; what was taken is the rest from the top down;
   every index taken is either being worked on or counted once; `steps` steps were made so far.
   */
  ghost predicate Invariant(p: Pool, total: nat, steps: nat) {
    && |p.queue| + |p.taken| == total
    && (forall i :: 0 <= i < |p.queue| ==> p.queue[i] == i)
    && (forall i :: 0 <= i < |p.taken| ==> p.taken[i] == total - 1 - i)
    && p.completed + p.failed + CountBusy(p.workers) == |p.taken|
    && p.completed <= p.latencies <= p.completed + p.failed
    && (forall w :: 0 <= w < |p.workers| && p.workers[w].Stopped? ==> p.queue == [])
    && (forall w :: 0 <= w < |p.workers| && p.workers[w].Busy? ==> p.workers[w].index in p.taken)
    && steps == 2 * |p.taken| - CountBusy(p.workers) + CountStopped(p.workers)
  }

  lemma PopKeeps(p: Pool, w: nat, total: nat, steps: nat)
    requires Invariant(p, total, steps) && Apply(p, Pop(w)).Some?
    ensures Invariant(Apply(p, Pop(w)).value, total, steps + 1)
  {
    hide CountBusy, CountStopped;
    var q := Apply(p, Pop(w)).value;
    CountUpdate(p.workers, w, q.workers[w]);
    assert forall x :: x in p.taken ==> x in q.taken;
    if p.queue != [] { assert q.taken[|p.taken|] == total - 1 - |p.taken|; }
  }

  lemma ReturnKeeps(p: Pool, w: nat, reply: Reply, total: nat, steps: nat)
    requires Invariant(p, total, steps) && Apply(p, Return(w, reply)).Some?
    ensures Invariant(Apply(p, Return(w, reply)).value, total, steps + 1)
  {
    hide CountBusy, CountStopped;
    CountUpdate(p.workers, w, Idle);
  }

  lemma {:induction false} InitialHolds(total: nat, concurrency: nat)
    ensures Invariant(Initial(total, concurrency), total, 0)
  {
    AllIdle(seq(concurrency, _ => Idle));
  }

  lemma {:induction false} AllIdle(ws: seq<Worker>)
    requires forall w :: 0 <= w < |ws| ==> ws[w].Idle?
    ensures CountBusy(ws) == 0 && CountStopped(ws) == 0
  {
    if ws != [] { AllIdle(ws[1..]); }
  }

  lemma {:induction false} RunsKeep(p: Pool, steps: seq<Step>, total: nat, done: nat)
    requires Invariant(p, total, done) && Execute(p, steps).Some?
    ensures Invariant(Execute(p, steps).value, total, done + |steps|)
    ensures |Execute(p, steps).value.workers| == |p.workers|
    decreases |steps|
  {
    hide Invariant;
    if steps != [] {
      match steps[0] {
        case Pop(w) => PopKeeps(p, w, total, done);
        case Return(w, reply) => ReturnKeeps(p, w, reply, total, done);
      }
      RunsKeep(Apply(p, steps[0]).value, steps[1..], total, done + 1);
    }
  }

  lemma {:induction false} AllStopped(ws: seq<Worker>)
    requires forall w :: 0 <= w < |ws| ==> ws[w].Stopped?
    ensures CountBusy(ws) == 0 && CountStopped(ws) == |ws|
  {
    if ws != [] { AllStopped(ws[1..]); }
  }

  /** In every run no request index is ever taken twice. */
  lemma TakenOnce(total: nat, concurrency: nat, steps: seq<Step>)
    requires Execute(Initial(total, concurrency), steps).Some?
    ensures var p := Execute(Initial(total, concurrency), steps).value;
            && (forall i, j :: 0 <= i < j < |p.taken| ==> p.taken[i] != p.taken[j])
            && (forall i :: 0 <= i < |p.taken| ==> p.taken[i] == total - 1 - i)
            && p.completed + p.failed <= |p.taken| <= total && p.completed <= p.latencies <= p.completed + p.failed
  {
    hide Execute;
    InitialHolds(total, concurrency);
    RunsKeep(Initial(total, concurrency), steps, total, 0);
  }

  /** The steps at which a reply of this kind came back. */
  function Replies(steps: seq<Step>, reply: Reply): set<nat> {
    set k: nat | k < |steps| && steps[k].Return? && steps[k].reply == reply
  }

  lemma RepliesSnoc(steps: seq<Step>, last: Step, reply: Reply)
    ensures |Replies(steps + [last], reply)| == |Replies(steps, reply)| + if last.Return? && last.reply == reply then 1 else 0
  {
    var t := steps + [last];
    assert t[|steps|] == last;
    assert forall k :: 0 <= k < |steps| ==> t[k] == steps[k];
    assert Replies(t, reply) == Replies(steps, reply) + if last.Return? && last.reply == reply then {|steps|} else {};
  }

  lemma {:induction false} ExecuteSnoc(p: Pool, steps: seq<Step>, last: Step)
    ensures Execute(p, steps + [last]) ==
              if Execute(p, steps).None? then None else Apply(Execute(p, steps).value, last)
    decreases |steps|
  {
    hide Apply;
    if steps == [] {
      assert [last][1..] == [];
    } else {
      assert (steps + [last])[1..] == steps[1..] + [last];
      if Apply(p, steps[0]).Some? { ExecuteSnoc(Apply(p, steps[0]).value, steps[1..], last); }
    }
  }

  /**
   In every run `completed` is the number of replies that succeeded, `failed` the number of the
   others, and a latency was recorded for every reply that did not throw.
   */
  lemma {:induction false} RepliesCounted(total: nat, concurrency: nat, steps: seq<Step>)
    requires Execute(Initial(total, concurrency), steps).Some?
    ensures var p := Execute(Initial(total, concurrency), steps).value;
            && p.completed == |Replies(steps, Succeeded)|
            && p.failed == |Replies(steps, AnsweredOtherwise)| + |Replies(steps, Threw)|
            && p.latencies == |Replies(steps, Succeeded)| + |Replies(steps, AnsweredOtherwise)|
    decreases |steps|
  {
    hide Replies, Execute;
    var start := Initial(total, concurrency);
    if steps == [] {
      NothingReplied(start);
    } else {
      var n := |steps| - 1;
      assert steps == steps[..n] + [steps[n]];
      ExecuteSnoc(start, steps[..n], steps[n]);
      RepliesCounted(total, concurrency, steps[..n]);
      RepliesSnoc(steps[..n], steps[n], Succeeded);
      RepliesSnoc(steps[..n], steps[n], AnsweredOtherwise);
      RepliesSnoc(steps[..n], steps[n], Threw);
    }
  }

  lemma NothingReplied(p: Pool)
    ensures Execute(p, []) == Some(p) && forall reply :: Replies([], reply) == {}
  {
  }

  /**
   When all workers of a non-empty pool have stopped, every index was taken exactly once, completed
   plus failed is the total, the latencies lie between completed and total, and the run took
   exactly two steps a request and one a worker.
   */
  lemma FinishedPool(total: nat, concurrency: nat, steps: seq<Step>)
    requires concurrency > 0 && Execute(Initial(total, concurrency), steps).Some?
    requires var p := Execute(Initial(total, concurrency), steps).value;
             forall w :: 0 <= w < |p.workers| ==> p.workers[w].Stopped?
    ensures var p := Execute(Initial(total, concurrency), steps).value;
            && |p.taken| == total && (forall i :: 0 <= i < total ==> i in p.taken)
            && p.completed + p.failed == total && p.completed <= p.latencies <= total
            && |steps| == 2 * total + concurrency
  {
    hide Execute, Apply;
    var p := Execute(Initial(total, concurrency), steps).value;
    InitialHolds(total, concurrency);
    RunsKeep(Initial(total, concurrency), steps, total, 0);
    AllStopped(p.workers);
    assert p.workers[0].Stopped?;
    forall i | 0 <= i < total ensures i in p.taken { assert p.taken[total - 1 - i] == i; }
  }

  /** No run gets stuck: until all workers have stopped, some step is enabled. */
  lemma SomeStepEnabled(p: Pool) returns (step: Step)
    requires exists w :: 0 <= w < |p.workers| && !p.workers[w].Stopped?
    ensures Apply(p, step).Some?
  {
    var w :| 0 <= w < |p.workers| && !p.workers[w].Stopped?;
    step := if p.workers[w].Idle? then Pop(w) else Return(w, Threw);
  }

  /** And no run is longer than two steps a request and one a worker. */
  lemma RunsAreFinite(total: nat, concurrency: nat, steps: seq<Step>)
    requires Execute(Initial(total, concurrency), steps).Some?
    ensures |steps| <= 2 * total + concurrency
  {
    hide Execute, Apply;
    InitialHolds(total, concurrency);
    RunsKeep(Initial(total, concurrency), steps, total, 0);
    StoppedBounded(Execute(Initial(total, concurrency), steps).value.workers);
  }

  lemma {:induction false} StoppedBounded(ws: seq<Worker>)
    ensures CountStopped(ws) <= |ws|
  {
    if ws != [] { StoppedBounded(ws[1..]); }
  }

  /** The shared variables, with the two synchronous stretches of `worker` as methods. */
  class LoadTest {
    var queue: seq<nat>
    var workers: seq<Worker>
    var completed: nat
    var failed: nat
    var latencies: nat
    ghost var taken: seq<nat>

    ghost function View(): Pool
      reads this
    {
      Pool(queue, workers, completed, failed, latencies, taken)
    }

    constructor (total: nat, concurrency: nat)
      ensures View() == Initial(total, concurrency)
    {
      queue, workers := seq(total, i => i), seq(concurrency, _ => Idle);
      completed, failed, latencies, taken := 0, 0, 0, [];
    }

    method PopNext(w: nat) returns (index: Option<nat>)
      requires w < |workers| && workers[w].Idle?
      modifies this
      ensures Some(View()) == Apply(old(View()), Pop(w))
      ensures index.None? <==> old(queue) == []
      ensures index.Some? ==> workers[w] == Busy(index.value)
    {
      if queue == [] {
        workers := workers[w := Stopped];
        return None;
      }
      var n := |queue| - 1;
      index := Some(queue[n]);
      taken := taken + [queue[n]];
      workers := workers[w := Busy(queue[n])];
      queue := queue[..n];
    }

    method Record(w: nat, reply: Reply)
      requires w < |workers| && workers[w].Busy?
      modifies this
      ensures Some(View()) == Apply(old(View()), Return(w, reply))
    {
      if !reply.Threw? { latencies := latencies + 1; }
      if reply.Succeeded? { completed := completed + 1; } else { failed := failed + 1; }
      workers := workers[w := Idle];
    }
  }
}
