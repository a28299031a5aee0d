/**
 The rate limiter of scripts/benchmark-topology.ts: `throttle`, a chain of promises that works as a
 ticket lock around a shared timestamp, and the retry loop of `callAPI`, which resets that
 timestamp after each backoff.

 Every stretch of code between two awaits is one step; a run is any sequence of steps of any
 number of callers. The clock never goes back and timers never fire early.
 */
module Throttle {
  import opened Wrappers

  const MAX_429_RETRIES := 3

  /**
   One execution of `throttle`. `Ready` has read the clock and the timestamp and waits, if it
   must, until `wakeAt`. `seen` and `resets` record how many timestamp resets had happened when
   it read and when it wrote the timestamp.
   */
  datatype Call =
    | Waiting
    | Ready(wakeAt: int, seen: nat)
    | Granted(at: int, seen: nat, resets: nat)

  /** One execution of `callAPI`; `attempt` is the loop counter. */
  datatype Client =
    | Throttling(attempt: nat, ticket: nat)
    | Fetching(attempt: nat)
    | BackingOff(attempt: nat, until: int)
    | Finished(attempt: nat)

  datatype State = State(now: int, lastTs: int, resets: nat, calls: seq<Call>, clients: seq<Client>)

  datatype Step =
    | Tick(elapsed: nat)
    | Arrive
    | Read(ticket: nat)
    | Write(ticket: nat)
    | Proceed(client: nat)
    | Finish(client: nat)
    | Retry(client: nat)
    | Resume(client: nat)

  function Backoff(attempt: nat): int { if 2000 * attempt < 10000 then 2000 * attempt else 10000 }

  /** The wake-up time computed from one reading of the clock and the timestamp. */
  function WakeAt(now: int, lastTs: int, delay: nat): int {
    if now - lastTs < delay then now + (delay - (now - lastTs)) else now
  }

  /** One step; `None` when it is not enabled. */
  function Apply(s: State, step: Step, delay: nat): Option<State> {
    match step
    case Tick(elapsed) => Some(s.(now := s.now + elapsed))
    case Arrive => Some(s.(calls := s.calls + [Waiting], clients := s.clients + [Throttling(0, |s.calls|)]))
    case Read(k) =>
      if k < |s.calls| && s.calls[k].Waiting? && (k == 0 || s.calls[k - 1].Granted?)
      then Some(s.(calls := s.calls[k := Ready(WakeAt(s.now, s.lastTs, delay), s.resets)]))
      else None
    case Write(k) =>
      if k < |s.calls| && s.calls[k].Ready? && s.now >= s.calls[k].wakeAt
      then Some(s.(lastTs := s.now, calls := s.calls[k := Granted(s.now, s.calls[k].seen, s.resets)]))
      else None
    case Proceed(c) =>
      if c < |s.clients| && s.clients[c].Throttling? && s.clients[c].ticket < |s.calls| &&
         s.calls[s.clients[c].ticket].Granted?
      then Some(s.(clients := s.clients[c := Fetching(s.clients[c].attempt)]))
      else None
    case Finish(c) =>
      if c < |s.clients| && s.clients[c].Fetching?
      then Some(s.(clients := s.clients[c := Finished(s.clients[c].attempt)]))
      else None
    case Retry(c) =>
      if c < |s.clients| && s.clients[c].Fetching? && s.clients[c].attempt < MAX_429_RETRIES
      then
        var attempt := s.clients[c].attempt + 1;
        Some(s.(clients := s.clients[c := BackingOff(attempt, s.now + Backoff(attempt))]))
      else None
    case Resume(c) =>
      if c < |s.clients| && s.clients[c].BackingOff? && s.now >= s.clients[c].until
      then Some(s.(lastTs := 0, resets := s.resets + 1, calls := s.calls + [Waiting],
                   clients := s.clients[c := Throttling(s.clients[c].attempt, |s.calls|)]))
      else None
  }

  function Initial(now: int): State { State(now, 0, 0, [], []) }

  function Execute(s: State, steps: seq<Step>, delay: nat): Option<State>
    decreases |steps|
  {
    if steps == [] then Some(s) else
      var t := Apply(s, steps[0], delay);
      if t.None? then None else Execute(t.value, steps[1..], delay)
  }

  // ---------------------------------------------------------------------------------------
  // The invariant
  // ---------------------------------------------------------------------------------------

  /** A call has left the queue only after everyone before it was granted. */
  ghost predicate InOrder(s: State) {
    forall i, j :: 0 <= i < j < |s.calls| && !s.calls[j].Waiting? ==> s.calls[i].Granted?
  }

  ghost predicate Timely(s: State) {
    && (forall j :: 0 <= j < |s.calls| && s.calls[j].Granted? ==>
          s.calls[j].at <= s.now && s.calls[j].seen <= s.calls[j].resets <= s.resets)
    && (forall j :: 0 <= j < |s.calls| && s.calls[j].Ready? ==> s.calls[j].seen <= s.resets)
    && (forall j :: 0 < j < |s.calls| && !s.calls[j].Waiting? && s.calls[j - 1].Granted? ==>
          s.calls[j - 1].resets <= s.calls[j].seen)
    && (forall j :: 0 < j < |s.calls| && s.calls[j].Granted? && s.calls[j - 1].Granted? ==>
          s.calls[j - 1].at <= s.calls[j].at)
  }

  predicate LastGranted(s: State, j: int) {
    0 <= j < |s.calls| && s.calls[j].Granted? && (j + 1 == |s.calls| || !s.calls[j + 1].Granted?)
  }

  /** Without a reset since the last grant the timestamp is that grant's time. */
  ghost predicate TimestampCurrent(s: State) {
    forall j :: LastGranted(s, j) && s.calls[j].resets == s.resets ==> s.lastTs == s.calls[j].at
  }

  /** Call `j` read the timestamp with no reset since its predecessor's write. */
  predicate SawPredecessor(s: State, j: int) {
    && 0 < j < |s.calls| && s.calls[j - 1].Granted? && !s.calls[j].Waiting?
    && s.calls[j].seen == s.calls[j - 1].resets
  }

  /** Such a reader does not act before the delay has passed. */
  ghost predicate Spaced(s: State, delay: nat) {
    forall j :: SawPredecessor(s, j) ==>
      s.calls[j - 1].at + delay <= (if s.calls[j].Ready? then s.calls[j].wakeAt else s.calls[j].at)
  }

  /** And after a reset, until the next grant, it is zero. */
  ghost predicate ZeroAfterReset(s: State) {
    forall j :: LastGranted(s, j) && s.calls[j].resets != s.resets ==> s.lastTs == 0
  }

  ghost predicate Invariant(s: State, delay: nat) {
    InOrder(s) && Timely(s) && TimestampCurrent(s) && ZeroAfterReset(s) && Spaced(s, delay)
  }

  lemma ReadKeepsOrder(s: State, k: nat, delay: nat)
    requires InOrder(s) && Timely(s) && Apply(s, Read(k), delay).Some?
    ensures var t := Apply(s, Read(k), delay).value; InOrder(t) && Timely(t)
  {
    hide WakeAt;
  }

  lemma ReadKeepsLast(s: State, k: nat, delay: nat)
    requires Apply(s, Read(k), delay).Some?
    ensures forall j :: LastGranted(Apply(s, Read(k), delay).value, j) ==> LastGranted(s, j)
  {
    hide WakeAt;
  }

  lemma ReadKeepsStamp(s: State, k: nat, delay: nat)
    requires TimestampCurrent(s) && ZeroAfterReset(s) && Apply(s, Read(k), delay).Some?
    ensures var t := Apply(s, Read(k), delay).value; TimestampCurrent(t) && ZeroAfterReset(t)
  {
    hide WakeAt, LastGranted;
    ReadKeepsLast(s, k, delay);
    LastIsGranted(s);
    LastIsGranted(Apply(s, Read(k), delay).value);
  }

  lemma LastIsGranted(s: State)
    ensures forall j :: LastGranted(s, j) ==> 0 <= j < |s.calls| && s.calls[j].Granted?
  {
  }

  lemma ReadKeepsSpacing(s: State, k: nat, delay: nat)
    requires Spaced(s, delay) && TimestampCurrent(s) && Apply(s, Read(k), delay).Some?
    ensures Spaced(Apply(s, Read(k), delay).value, delay)
  {
    var t := Apply(s, Read(k), delay).value;
    forall j | SawPredecessor(t, j)
      ensures t.calls[j - 1].at + delay <= (if t.calls[j].Ready? then t.calls[j].wakeAt else t.calls[j].at)
    {
      if j == k { assert LastGranted(s, k - 1); } else { assert SawPredecessor(s, j); }
    }
  }

  lemma ReadKeepsInvariant(s: State, k: nat, delay: nat)
    requires Invariant(s, delay) && Apply(s, Read(k), delay).Some?
    ensures Invariant(Apply(s, Read(k), delay).value, delay)
  {
    hide Apply, InOrder, Timely, TimestampCurrent, ZeroAfterReset, Spaced;
    ReadKeepsOrder(s, k, delay);
    ReadKeepsStamp(s, k, delay);
    ReadKeepsSpacing(s, k, delay);
  }

  lemma WriteKeepsOrder(s: State, k: nat, delay: nat)
    requires InOrder(s) && Timely(s) && Apply(s, Write(k), delay).Some?
    ensures var t := Apply(s, Write(k), delay).value; InOrder(t) && Timely(t)
  {
  }

  lemma WriteKeepsStamp(s: State, k: nat, delay: nat)
    requires InOrder(s) && Apply(s, Write(k), delay).Some?
    ensures var t := Apply(s, Write(k), delay).value; TimestampCurrent(t) && ZeroAfterReset(t)
  {
  }

  lemma WriteKeepsSpacing(s: State, k: nat, delay: nat)
    requires InOrder(s) && Spaced(s, delay) && Apply(s, Write(k), delay).Some?
    ensures Spaced(Apply(s, Write(k), delay).value, delay)
  {
    var t := Apply(s, Write(k), delay).value;
    forall j | SawPredecessor(t, j)
      ensures t.calls[j - 1].at + delay <= (if t.calls[j].Ready? then t.calls[j].wakeAt else t.calls[j].at)
    {
      assert SawPredecessor(s, j);
    }
  }

  lemma WriteKeepsInvariant(s: State, k: nat, delay: nat)
    requires Invariant(s, delay) && Apply(s, Write(k), delay).Some?
    ensures Invariant(Apply(s, Write(k), delay).value, delay)
  {
    hide Apply, InOrder, Timely, TimestampCurrent, ZeroAfterReset, Spaced;
    WriteKeepsOrder(s, k, delay);
    WriteKeepsStamp(s, k, delay);
    WriteKeepsSpacing(s, k, delay);
  }

  lemma SameCallsKeepInvariant(s: State, t: State, delay: nat)
    requires Invariant(s, delay) && t.calls == s.calls && t.lastTs == s.lastTs && t.resets == s.resets && t.now >= s.now
    ensures Invariant(t, delay)
  {
  }

  /** A new call, in the state of an arrival or of a retry that has just reset the timestamp. */
  ghost predicate NewCall(s: State, t: State) {
    && t.calls == s.calls + [Waiting] && t.now == s.now
    && ((t.resets > s.resets && t.lastTs == 0) || (t.resets == s.resets && t.lastTs == s.lastTs))
  }

  lemma NewCallKeepsOrder(s: State, t: State)
    requires InOrder(s) && Timely(s) && NewCall(s, t)
    ensures InOrder(t) && Timely(t)
  {
    assert forall j :: 0 <= j < |s.calls| ==> t.calls[j] == s.calls[j];
  }

  lemma NewCallKeepsStamp(s: State, t: State)
    requires Timely(s) && TimestampCurrent(s) && ZeroAfterReset(s) && NewCall(s, t)
    ensures TimestampCurrent(t) && ZeroAfterReset(t)
  {
    forall j | LastGranted(t, j) ensures LastGranted(s, j) && t.calls[j] == s.calls[j] {}
  }

  lemma NewCallKeepsSpacing(s: State, t: State, delay: nat)
    requires Spaced(s, delay) && NewCall(s, t)
    ensures Spaced(t, delay)
  {
    forall j | SawPredecessor(t, j) ensures SawPredecessor(s, j) && t.calls[j - 1] == s.calls[j - 1] {}
  }

  lemma NewCallKeepsInvariant(s: State, t: State, delay: nat)
    requires Invariant(s, delay) && NewCall(s, t)
    ensures Invariant(t, delay)
  {
    hide InOrder, Timely, TimestampCurrent, ZeroAfterReset, Spaced, NewCall;
    NewCallKeepsOrder(s, t);
    NewCallKeepsStamp(s, t);
    NewCallKeepsSpacing(s, t, delay);
  }

  lemma OtherStepsKeepInvariant(s: State, step: Step, delay: nat)
    requires Invariant(s, delay) && !step.Read? && !step.Write? && Apply(s, step, delay).Some?
    ensures Invariant(Apply(s, step, delay).value, delay)
  {
    hide Invariant;
    var t := Apply(s, step, delay).value;
    if step.Arrive? || step.Resume? { NewCallKeepsInvariant(s, t, delay); } else { SameCallsKeepInvariant(s, t, delay); }
  }

  lemma {:induction false} RunsKeepInvariant(s: State, steps: seq<Step>, delay: nat)
    requires Invariant(s, delay) && Execute(s, steps, delay).Some?
    ensures Invariant(Execute(s, steps, delay).value, delay)
    decreases |steps|
  {
    hide Invariant, Apply;
    if steps != [] {
      match steps[0] {
        case Read(k) => ReadKeepsInvariant(s, k, delay);
        case Write(k) => WriteKeepsInvariant(s, k, delay);
        case _ => OtherStepsKeepInvariant(s, steps[0], delay);
      }
      RunsKeepInvariant(Apply(s, steps[0], delay).value, steps[1..], delay);
    }
  }

  /** Every state of every run from the start satisfies the invariant. */
  lemma ReachableInvariant(now: int, steps: seq<Step>, delay: nat)
    requires Execute(Initial(now), steps, delay).Some?
    ensures Invariant(Execute(Initial(now), steps, delay).value, delay)
  {
    hide Apply;
    RunsKeepInvariant(Initial(now), steps, delay);
  }

  // ---------------------------------------------------------------------------------------
  // Safety
  // ---------------------------------------------------------------------------------------

  /** In every run, at most one caller is between reading and writing the timestamp. */
  lemma MutualExclusion(now: int, steps: seq<Step>, delay: nat)
    requires Execute(Initial(now), steps, delay).Some?
    ensures var calls := Execute(Initial(now), steps, delay).value.calls;
            forall i, j :: 0 <= i < |calls| && 0 <= j < |calls| && calls[i].Ready? && calls[j].Ready? ==> i == j
  {
    hide Execute;
    ReachableInvariant(now, steps, delay);
  }

  /** Grants come in arrival order, in place and in time. */
  lemma {:induction false} GrantsInOrder(s: State, delay: nat, i: nat, j: nat)
    requires Invariant(s, delay) && i <= j < |s.calls| && s.calls[j].Granted?
    ensures s.calls[i].Granted? && s.calls[i].at <= s.calls[j].at && s.calls[i].resets <= s.calls[j].resets
    decreases j
  {
    if i < j { GrantsInOrder(s, delay, i, j - 1); }
  }

  lemma MulMonotone(d: nat, m: int, n: int)
    requires m <= n
    ensures d * m <= d * n
  {
  }

  /**
   Spacing over any stretch of grants: `j - i` delays, less one for each reset between the first
   grant's write and the last one's read.
   */
  lemma {:induction false} GrantsSpaced(s: State, delay: nat, i: nat, j: nat)
    requires Invariant(s, delay) && i < j < |s.calls| && s.calls[j].Granted?
    ensures s.calls[i].Granted? && s.calls[i].resets <= s.calls[j].seen
    ensures s.calls[j].at - s.calls[i].at >= delay * (j - i - (s.calls[j].seen - s.calls[i].resets))
    decreases j
  {
    hide Invariant;
    NextGrant(s, delay, j);
    if i < j - 1 {
      GrantsSpaced(s, delay, i, j - 1);
      var before, after := s.calls[j - 1].seen - s.calls[i].resets, s.calls[j].seen - s.calls[i].resets;
      OneMore(delay, j - 1 - i - before, j - i - after, s.calls[j - 1].at - s.calls[i].at, s.calls[j].at - s.calls[i].at);
    } else {
      OneMore(delay, 0, 1 - (s.calls[j].seen - s.calls[i].resets), 0, s.calls[j].at - s.calls[i].at);
    }
  }

  /** One grant and the next. */
  lemma NextGrant(s: State, delay: nat, j: nat)
    requires Invariant(s, delay) && 0 < j < |s.calls| && s.calls[j].Granted?
    ensures s.calls[j - 1].Granted? && s.calls[j - 1].at <= s.calls[j].at
    ensures s.calls[j - 1].seen <= s.calls[j - 1].resets <= s.calls[j].seen
    ensures s.calls[j].seen == s.calls[j - 1].resets ==> s.calls[j].at - s.calls[j - 1].at >= delay
  {
    assert SawPredecessor(s, j) <==> s.calls[j - 1].Granted? && s.calls[j].seen == s.calls[j - 1].resets;
  }

  /** Bounds add up: one delay more for one grant more, or the same bound for a smaller multiple. */
  lemma OneMore(delay: nat, m: int, n: int, x: int, y: int)
    requires x >= delay * m && y >= x && (n <= m || (n <= m + 1 && y >= x + delay))
    ensures y >= delay * n
  {
    if n <= m {
      MulMonotone(delay, n, m);
    } else {
      assert delay * (m + 1) == delay * m + delay;
      MulMonotone(delay, n, m + 1);
    }
  }

  /** In every run, consecutive grants are a delay apart when no reset falls between write and read. */
  lemma ConsecutiveSpacing(now: int, steps: seq<Step>, delay: nat)
    requires Execute(Initial(now), steps, delay).Some?
    ensures var calls := Execute(Initial(now), steps, delay).value.calls;
            forall j :: 0 < j < |calls| && calls[j].Granted? ==>
              && calls[j - 1].Granted?
              && (calls[j].seen == calls[j - 1].resets ==> calls[j].at - calls[j - 1].at >= delay)
  {
    hide Execute;
    ReachableInvariant(now, steps, delay);
  }

  /**
   What call `k` reads makes it wait for its predecessor's delay exactly when no reset has happened
   since that grant, or the delay has passed by itself, or the grant came before the clock was positive.
   */
  lemma ReadSpacing(s: State, delay: nat, k: nat)
    requires Invariant(s, delay) && k > 0 && Apply(s, Read(k), delay).Some?
    ensures s.calls[k - 1].Granted?
    ensures WakeAt(s.now, s.lastTs, delay) >= s.calls[k - 1].at + delay <==> KeepsSpacing(s, delay, k)
  {
    assert LastGranted(s, k - 1);
  }

  ghost predicate KeepsSpacing(s: State, delay: nat, k: nat)
    requires 0 < k < |s.calls| && s.calls[k - 1].Granted?
  {
    var last := s.calls[k - 1];
    s.resets == last.resets || s.now >= last.at + delay || last.at <= 0
  }

  /** Whatever happens next, a granted call stays as it is, and a ready one waits for its time. */
  lemma {:induction false} CallsFollow(s: State, steps: seq<Step>, delay: nat, k: nat)
    requires k < |s.calls| && Execute(s, steps, delay).Some?
    ensures var t := Execute(s, steps, delay).value;
            && k < |t.calls|
            && (s.calls[k].Granted? ==> t.calls[k] == s.calls[k])
            && (s.calls[k].Ready? ==>
                  t.calls[k] == s.calls[k] || (t.calls[k].Granted? && t.calls[k].at >= s.calls[k].wakeAt))
    decreases |steps|
  {
    hide WakeAt;
    if steps != [] { CallsFollow(Apply(s, steps[0], delay).value, steps[1..], delay, k); }
  }

  /** Call `k` is granted at least a delay after its predecessor, if it is granted. */
  predicate SpacedAt(calls: seq<Call>, delay: nat, k: nat) {
    0 < k < |calls| && calls[k].Granted? && calls[k - 1].Granted? ==> calls[k].at - calls[k - 1].at >= delay
  }

  /**
   In every run: from the read of call `k` on, every continuation grants it a delay after its
   predecessor exactly when there was no reset in between, or the delay had passed already.
   */
  lemma SpacingExact(now: int, steps: seq<Step>, delay: nat, k: nat)
    requires Execute(Initial(now), steps, delay).Some? && k > 0
    requires Apply(Execute(Initial(now), steps, delay).value, Read(k), delay).Some?
    ensures var s := Execute(Initial(now), steps, delay).value;
            var t := Apply(s, Read(k), delay).value;
            (forall rest :: Execute(t, rest, delay).Some? ==> SpacedAt(Execute(t, rest, delay).value.calls, delay, k)) <==>
              KeepsSpacing(s, delay, k)
  {
    hide Execute, WakeAt, Invariant, KeepsSpacing;
    var s := Execute(Initial(now), steps, delay).value;
    var t := Apply(s, Read(k), delay).value;
    ReachableInvariant(now, steps, delay);
    ReadSpacing(s, delay, k);
    ReadIsReady(s, delay, k);
    if KeepsSpacing(s, delay, k) {
      forall rest | Execute(t, rest, delay).Some? ensures SpacedAt(Execute(t, rest, delay).value.calls, delay, k) {
        CallsFollow(t, rest, delay, k);
        CallsFollow(t, rest, delay, k - 1);
      }
    } else {
      var rest := GrantReady(t, delay, k);
      CallsFollow(t, rest, delay, k - 1);
      assert !SpacedAt(Execute(t, rest, delay).value.calls, delay, k);
    }
  }

  lemma ReadIsReady(s: State, delay: nat, k: nat)
    requires k > 0 && Apply(s, Read(k), delay).Some?
    ensures var t := Apply(s, Read(k), delay).value;
            && |t.calls| == |s.calls| && t.now == s.now && t.calls[k - 1] == s.calls[k - 1] && t.calls[k].Ready?
            && t.calls[k].wakeAt == WakeAt(s.now, s.lastTs, delay) >= t.now
  {
  }

  /** So a window of time holds a bounded number of grants, plus one for each reset in it. */
  lemma GrantsInWindow(now: int, steps: seq<Step>, delay: nat, i: nat, j: nat, window: nat)
    requires delay > 0 && Execute(Initial(now), steps, delay).Some?
    requires var calls := Execute(Initial(now), steps, delay).value.calls;
             i < j < |calls| && calls[j].Granted? && (calls[i].Granted? ==> calls[j].at - calls[i].at <= window)
    ensures var calls := Execute(Initial(now), steps, delay).value.calls;
            && calls[i].Granted?
            && j - i + 1 <= window / delay + 1 + (calls[j].seen - calls[i].resets)
  {
    hide Execute, Invariant;
    var s := Execute(Initial(now), steps, delay).value;
    ReachableInvariant(now, steps, delay);
    GrantsSpaced(s, delay, i, j);
    FitsInWindow(delay, j - i - (s.calls[j].seen - s.calls[i].resets), window);
  }

  lemma FitsInWindow(delay: nat, n: int, window: nat)
    requires delay > 0 && delay * n <= window
    ensures n <= window / delay
  {
    if n > window / delay { MulMonotone(delay, window / delay + 1, n); }
  }

  // ---------------------------------------------------------------------------------------
  // Retries
  // ---------------------------------------------------------------------------------------

  function RetriesOf(c: Client): nat {
    if c.BackingOff? then (if c.attempt > 0 then c.attempt - 1 else 0) else c.attempt
  }

  function Retries(clients: seq<Client>): nat {
    if clients == [] then 0 else RetriesOf(clients[0]) + Retries(clients[1..])
  }

  lemma {:induction false} RetriesUpdate(clients: seq<Client>, c: nat, x: Client)
    requires c < |clients|
    ensures Retries(clients[c := x]) == Retries(clients) - RetriesOf(clients[c]) + RetriesOf(x)
    decreases |clients|
  {
    var t := clients[c := x];
    if c == 0 {
      assert t[1..] == clients[1..];
    } else {
      assert t[1..] == clients[1..][c - 1 := x];
      RetriesUpdate(clients[1..], c - 1, x);
    }
  }

  lemma {:induction false} RetriesAppend(clients: seq<Client>, x: Client)
    ensures Retries(clients + [x]) == Retries(clients) + RetriesOf(x)
    decreases |clients|
  {
    if clients == [] {
      assert clients + [x] == [x] && [x][1..] == [];
    } else {
      assert (clients + [x])[1..] == clients[1..] + [x];
      RetriesAppend(clients[1..], x);
    }
  }

  /**
   Bookkeeping of every run: one throttle per client and one more per reset, a reset per retry,
   and at most three retries a client.
   */
  ghost predicate Accounted(s: State) {
    && |s.calls| == |s.clients| + s.resets
    && s.resets == Retries(s.clients)
    && forall c :: 0 <= c < |s.clients| ==>
         s.clients[c].attempt <= MAX_429_RETRIES && (s.clients[c].BackingOff? ==> s.clients[c].attempt > 0)
  }

  lemma StepKeepsAccount(s: State, step: Step, delay: nat)
    requires Accounted(s) && Apply(s, step, delay).Some?
    ensures Accounted(Apply(s, step, delay).value)
  {
    hide Retries;
    var t := Apply(s, step, delay).value;
    match step
    case Arrive => RetriesAppend(s.clients, Throttling(0, |s.calls|));
    case Proceed(c) => RetriesUpdate(s.clients, c, t.clients[c]);
    case Finish(c) => RetriesUpdate(s.clients, c, t.clients[c]);
    case Retry(c) => RetriesUpdate(s.clients, c, t.clients[c]);
    case Resume(c) => RetriesUpdate(s.clients, c, t.clients[c]);
    case _ =>
  }

  lemma {:induction false} RunsKeepAccount(s: State, steps: seq<Step>, delay: nat)
    requires Accounted(s) && Execute(s, steps, delay).Some?
    ensures Accounted(Execute(s, steps, delay).value)
    decreases |steps|
  {
    hide Accounted, Apply;
    if steps != [] {
      StepKeepsAccount(s, steps[0], delay);
      RunsKeepAccount(Apply(s, steps[0], delay).value, steps[1..], delay);
    }
  }

  lemma {:induction false} RetriesBounded(clients: seq<Client>)
    requires forall c :: 0 <= c < |clients| ==> clients[c].attempt <= MAX_429_RETRIES
    ensures Retries(clients) <= MAX_429_RETRIES * |clients|
    decreases |clients|
  {
    if clients != [] { RetriesBounded(clients[1..]); }
  }

  /** In every run, requests are clients plus resets, and resets are at most three a client. */
  lemma RequestsBounded(now: int, steps: seq<Step>, delay: nat)
    requires Execute(Initial(now), steps, delay).Some?
    ensures var s := Execute(Initial(now), steps, delay).value;
            |s.calls| == |s.clients| + s.resets && s.resets <= MAX_429_RETRIES * |s.clients|
  {
    hide Apply, Execute;
    RunsKeepAccount(Initial(now), steps, delay);
    RetriesBounded(Execute(Initial(now), steps, delay).value.clients);
  }

  // ---------------------------------------------------------------------------------------
  // Progress
  // ---------------------------------------------------------------------------------------

  /** No caller is stuck: the first one not yet granted can be granted by at most three steps. */
  lemma FirstCallerProgresses(s: State, delay: nat, k: nat) returns (steps: seq<Step>)
    requires k < |s.calls| && !s.calls[k].Granted? && (k > 0 ==> s.calls[k - 1].Granted?)
    ensures |steps| <= 3 && Execute(s, steps, delay).Some?
    ensures |Execute(s, steps, delay).value.calls| == |s.calls|
    ensures Execute(s, steps, delay).value.calls[k].Granted?
  {
    hide WakeAt;
    if s.calls[k].Waiting? {
      var t := Apply(s, Read(k), delay).value;
      var rest := GrantReady(t, delay, k);
      steps := [Read(k)] + rest;
      assert steps[1..] == rest;
    } else {
      steps := GrantReady(s, delay, k);
    }
  }

  lemma GrantReady(s: State, delay: nat, k: nat) returns (steps: seq<Step>)
    requires k < |s.calls| && s.calls[k].Ready?
    ensures |steps| <= 2 && Execute(s, steps, delay).Some?
    ensures |Execute(s, steps, delay).value.calls| == |s.calls| && Execute(s, steps, delay).value.calls[k].Granted?
    ensures Execute(s, steps, delay).value.calls[k].at == if s.now >= s.calls[k].wakeAt then s.now else s.calls[k].wakeAt
  {
    var wait := if s.now >= s.calls[k].wakeAt then 0 else s.calls[k].wakeAt - s.now;
    steps := [Tick(wait), Write(k)];
    var t := Apply(s, Tick(wait), delay).value;
    assert steps[1..] == [Write(k)] && steps[1..][1..] == [];
    assert Execute(t, [Write(k)], delay) == Apply(t, Write(k), delay);
  }

  // ---------------------------------------------------------------------------------------
  // A reset does break the spacing
  // ---------------------------------------------------------------------------------------

  /** Nothing that could happen now, and no timer, is left waiting while `elapsed` goes by. */
  ghost predicate NothingDue(s: State, elapsed: nat) {
    && (forall k :: 0 <= k < |s.calls| && s.calls[k].Ready? ==> s.now + elapsed <= s.calls[k].wakeAt)
    && (forall k :: 0 <= k < |s.calls| && s.calls[k].Waiting? ==> k > 0 && !s.calls[k - 1].Granted?)
    && (forall c :: 0 <= c < |s.clients| && s.clients[c].BackingOff? ==> s.now + elapsed <= s.clients[c].until)
    && (forall c :: 0 <= c < |s.clients| && s.clients[c].Throttling? && s.clients[c].ticket < |s.calls| ==>
          !s.calls[s.clients[c].ticket].Granted?)
  }

  /** A run without any delay of its own: time passes only while requests are under way or timers run. */
  ghost predicate Prompt(s: State, steps: seq<Step>, delay: nat)
    decreases |steps|
  {
    steps != [] ==>
      && (steps[0].Tick? ==> NothingDue(s, steps[0].elapsed))
      && (Apply(s, steps[0], delay).Some? ==> Prompt(Apply(s, steps[0], delay).value, steps[1..], delay))
  }

  /** Extends a prompt run by one step. */
  lemma {:induction false} ThenStep(s: State, steps: seq<Step>, step: Step, delay: nat) returns (longer: seq<Step>, t: State)
    requires Execute(s, steps, delay).Some? && Apply(Execute(s, steps, delay).value, step, delay).Some?
    requires Prompt(s, steps, delay) && (step.Tick? ==> NothingDue(Execute(s, steps, delay).value, step.elapsed))
    ensures Execute(s, longer, delay) == Some(t) == Apply(Execute(s, steps, delay).value, step, delay)
    ensures Prompt(s, longer, delay)
    decreases |steps|
  {
    hide Apply, NothingDue;
    longer := steps + [step];
    t := Apply(Execute(s, steps, delay).value, step, delay).value;
    if steps == [] {
      assert longer[1..] == [];
    } else {
      var rest, u := ThenStep(Apply(s, steps[0], delay).value, steps[1..], step, delay);
      longer := [steps[0]] + rest;
      assert longer[1..] == rest;
    }
  }

  lemma EmptyRun(s: State, delay: nat)
    ensures Execute(s, [], delay) == Some(s) && Prompt(s, [], delay)
  {
  }

  /**
   Two callers are granted a delay apart, fail together and back off; both backoffs end at the same
   moment, each caller resets the timestamp, and both are granted at that moment.
   */
  lemma ResetAllowsNoSpacing(delay: nat) returns (steps: seq<Step>)
    ensures Execute(Initial(delay), steps, delay).Some? && Prompt(Initial(delay), steps, delay)
    ensures var calls := Execute(Initial(delay), steps, delay).value.calls;
            && |calls| == 4 && calls[2].Granted? && calls[3].Granted?
            && calls[2].at == calls[3].at == 2 * delay + 2000
  {
    hide Execute, Prompt;
    var s := Initial(delay);
    var t: State;
    steps, t := BothBackOff(delay);
    steps, t := ThenStep(s, steps, Tick(2000), delay);
    steps, t := ThenStep(s, steps, Resume(0), delay);
    steps, t := ThenStep(s, steps, Read(2), delay);
    steps, t := ThenStep(s, steps, Write(2), delay);
    steps, t := ThenStep(s, steps, Resume(1), delay);
    steps, t := ThenStep(s, steps, Read(3), delay);
    steps, t := ThenStep(s, steps, Write(3), delay);
  }

  lemma BothBackOff(delay: nat) returns (steps: seq<Step>, t: State)
    ensures Execute(Initial(delay), steps, delay) == Some(t) && Prompt(Initial(delay), steps, delay)
    ensures t.now == 2 * delay
    ensures t.calls == [Granted(delay, 0, 0), Granted(2 * delay, 0, 0)]
    ensures t.clients == [BackingOff(1, 2 * delay + 2000), BackingOff(1, 2 * delay + 2000)]
  {
    hide Execute, Prompt;
    var s := Initial(delay);
    steps, t := BothGranted(delay);
    steps, t := ThenStep(s, steps, Proceed(1), delay);
    steps, t := ThenStep(s, steps, Retry(0), delay);
    steps, t := ThenStep(s, steps, Retry(1), delay);
  }

  lemma BothGranted(delay: nat) returns (steps: seq<Step>, t: State)
    ensures Execute(Initial(delay), steps, delay) == Some(t) && Prompt(Initial(delay), steps, delay)
    ensures t.now == 2 * delay
    ensures t.calls == [Granted(delay, 0, 0), Granted(2 * delay, 0, 0)] && t.clients == [Fetching(0), Throttling(0, 1)]
  {
    hide Execute, Prompt;
    var s := Initial(delay);
    EmptyRun(s, delay);
    steps, t := ThenStep(s, [], Arrive, delay);
    steps, t := ThenStep(s, steps, Arrive, delay);
    steps, t := ThenStep(s, steps, Read(0), delay);
    steps, t := ThenStep(s, steps, Write(0), delay);
    steps, t := ThenStep(s, steps, Proceed(0), delay);
    steps, t := ThenStep(s, steps, Read(1), delay);
    steps, t := ThenStep(s, steps, Tick(delay), delay);
    steps, t := ThenStep(s, steps, Write(1), delay);
  }

  // ---------------------------------------------------------------------------------------
  // The module variables
  // ---------------------------------------------------------------------------------------

  /**
   The shared variables `_rlLastTs`, `_rlDelayMs` and the chain of throttle calls, with the
   stretches of `throttle` between awaits as methods. `now` is what `Date.now()` returns.
   */
  class RateLimiter {
    const delay: nat
    var lastTs: int
    var chain: seq<Call>
    var resets: nat  // history: how often the timestamp was reset

    ghost function View(now: int, clients: seq<Client>): State
      reads this
    {
      State(now, lastTs, resets, chain, clients)
    }

    constructor (delayMs: nat)
      ensures delay == delayMs && forall now :: View(now, []) == Initial(now)
    {
      delay, lastTs, chain, resets := delayMs, 0, [], 0;
    }

    /** Joins the chain behind the previous call. */
    method Enter(ghost now: int, ghost clients: seq<Client>) returns (ticket: nat)
      modifies this
      ensures ticket == |old(chain)|
      ensures Some(View(now, clients + [Throttling(0, ticket)])) == Apply(old(View(now, clients)), Arrive, delay)
    {
      ticket := |chain|;
      chain := chain + [Waiting];
    }

    /** After the previous call released: how long to sleep, from one reading of the timestamp. */
    method ReadTimestamp(ticket: nat, now: int, ghost clients: seq<Client>) returns (sleep: int)
      requires Apply(View(now, clients), Read(ticket), delay).Some?
      modifies this
      ensures Some(View(now, clients)) == Apply(old(View(now, clients)), Read(ticket), delay)
      ensures sleep >= 0 && chain[ticket].wakeAt == now + sleep
      ensures now + sleep >= old(lastTs) + delay
    {
      var elapsed := now - lastTs;
      sleep := if elapsed < delay then delay - elapsed else 0;
      chain := chain[ticket := Ready(now + sleep, resets)];
    }

    /** Takes the timestamp and releases the next call. */
    method WriteTimestamp(ticket: nat, now: int, ghost clients: seq<Client>)
      requires Apply(View(now, clients), Write(ticket), delay).Some?
      modifies this
      ensures Some(View(now, clients)) == Apply(old(View(now, clients)), Write(ticket), delay)
    {
      lastTs := now;
      chain := chain[ticket := Granted(now, chain[ticket].seen, resets)];
    }

    /** A retry: reset the timestamp and join the chain again. */
    method ResetAndEnter(ghost c: nat, ghost now: int, ghost clients: seq<Client>) returns (ticket: nat)
      requires Apply(View(now, clients), Resume(c), delay).Some?
      modifies this
      ensures ticket == |old(chain)|
      ensures Some(View(now, clients[c := Throttling(clients[c].attempt, ticket)]))
           == Apply(old(View(now, clients)), Resume(c), delay)
    {
      lastTs := 0;
      resets := resets + 1;
      ticket := |chain|;
      chain := chain + [Waiting];
    }
  }
}
