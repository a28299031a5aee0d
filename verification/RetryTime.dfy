/**
 How long the retry loop of `callAPI` takes (scripts/benchmark-topology.ts): the backoffs grow by two
 seconds each, so a request that is retried three times has waited twelve seconds.
 */
module RetryTime {
  import opened Wrappers
  import opened Throttle

  /** All backoffs of the first `k` retries, in milliseconds: 2000, 4000, 6000. */
  function Waited(k: nat): int { 1000 * k * (k + 1) }

  /** How often the client has come back from a backoff. */
  function Resumed(c: Client): nat {
    if c.BackingOff? then (if c.attempt > 0 then c.attempt - 1 else 0) else c.attempt
  }

  /** When the client can go on: now, or at the end of its backoff. */
  function Due(c: Client, now: int): int { if c.BackingOff? then c.until else now }

  /** A backoff began no later than now, and is one of the first three. */
  predicate Recent(c: Client, now: int) {
    c.attempt <= 3 && (c.BackingOff? ==> c.attempt > 0 && c.until <= now + 2000 * c.attempt)
  }

  lemma WaitedStep(k: nat)
    ensures Waited(k + 1) == Waited(k) + 2000 * (k + 1)
  {
    assert (k + 1) * (k + 2) == k * (k + 1) + 2 * (k + 1);
  }

  /** No step lets a client go on earlier than its backoffs allow. */
  lemma StepKeepsDue(s: State, step: Step, delay: nat, c: nat)
    requires c < |s.clients| && Apply(s, step, delay).Some? && Recent(s.clients[c], s.now)
    ensures var t := Apply(s, step, delay).value;
            && c < |t.clients| && Recent(t.clients[c], t.now)
            && Due(t.clients[c], t.now) - Waited(t.clients[c].attempt) >= Due(s.clients[c], s.now) - Waited(s.clients[c].attempt)
  {
    hide WakeAt, Waited;
    WaitedStep(s.clients[c].attempt);
  }

  lemma {:induction false} RunKeepsDue(s: State, steps: seq<Step>, delay: nat, c: nat)
    requires c < |s.clients| && Execute(s, steps, delay).Some? && Recent(s.clients[c], s.now)
    ensures var t := Execute(s, steps, delay).value;
            && c < |t.clients| && Recent(t.clients[c], t.now)
            && Due(t.clients[c], t.now) - Waited(t.clients[c].attempt) >= Due(s.clients[c], s.now) - Waited(s.clients[c].attempt)
    decreases |steps|
  {
    hide Apply, Recent, Due, Waited;
    if steps != [] {
      StepKeepsDue(s, steps[0], delay, c);
      RunKeepsDue(Apply(s, steps[0], delay).value, steps[1..], delay, c);
    }
  }

  /**
   In every run, a client that has come back `k` times has spent at least 1000 * k * (k + 1)
   milliseconds since it arrived, and `k` is at most 3.
   */
  lemma RetriesTakeTime(s: State, rest: seq<Step>, delay: nat)
    requires Execute(Apply(s, Arrive, delay).value, rest, delay).Some?
    ensures var t, c := Execute(Apply(s, Arrive, delay).value, rest, delay).value, |s.clients|;
            && c < |t.clients| && Resumed(t.clients[c]) <= 3
            && t.now - s.now >= 1000 * Resumed(t.clients[c]) * (Resumed(t.clients[c]) + 1)
  {
    hide Execute;
    var c := |s.clients|;
    var a := Apply(s, Arrive, delay).value;
    RunKeepsDue(a, rest, delay, c);
    var client := Execute(a, rest, delay).value.clients[c];
    if client.BackingOff? { WaitedStep(client.attempt - 1); }
  }

  /** One more retry, with every timer on time. */
  lemma Round(delay: nat, before: seq<Step>, s: State, k: nat) returns (steps: seq<Step>, t: State)
    requires Execute(Initial(delay), before, delay) == Some(s) && Prompt(Initial(delay), before, delay)
    requires k < 3 && s.clients == [Fetching(k)] && s.now >= delay
    requires |s.calls| == k + 1 && forall i :: 0 <= i <= k ==> s.calls[i].Granted?
    ensures Execute(Initial(delay), steps, delay) == Some(t) && Prompt(Initial(delay), steps, delay)
    ensures t.clients == [Fetching(k + 1)] && t.now == s.now + 2000 * (k + 1)
    ensures |t.calls| == k + 2 && forall i :: 0 <= i <= k + 1 ==> t.calls[i].Granted?
  {
    hide Execute, Prompt;
    var start := Initial(delay);
    steps, t := ThenStep(start, before, Retry(0), delay);
    steps, t := ThenStep(start, steps, Tick(2000 * (k + 1)), delay);
    steps, t := ThenStep(start, steps, Resume(0), delay);
    steps, t := ThenStep(start, steps, Read(k + 1), delay);
    steps, t := ThenStep(start, steps, Write(k + 1), delay);
    steps, t := ThenStep(start, steps, Proceed(0), delay);
  }

  lemma Start(delay: nat) returns (steps: seq<Step>, t: State)
    ensures Execute(Initial(delay), steps, delay) == Some(t) && Prompt(Initial(delay), steps, delay)
    ensures t.clients == [Fetching(0)] && t.now == delay && |t.calls| == 1 && t.calls[0].Granted?
  {
    var s := Initial(delay);
    EmptyRun(s, delay);
    hide Execute, Prompt;
    steps, t := ThenStep(s, [], Arrive, delay);
    steps, t := ThenStep(s, steps, Read(0), delay);
    steps, t := ThenStep(s, steps, Write(0), delay);
    steps, t := ThenStep(s, steps, Proceed(0), delay);
  }

  /** There is a run in which three retries take exactly that: the clock starts at `delay`, so does the client. */
  lemma ThreeRetriesExactly(delay: nat) returns (steps: seq<Step>)
    ensures Execute(Initial(delay), steps, delay).Some? && Prompt(Initial(delay), steps, delay)
    ensures var t := Execute(Initial(delay), steps, delay).value;
            t.clients == [Fetching(3)] && t.now - delay == 12000
  {
    hide Execute, Prompt;
    var t: State;
    steps, t := Start(delay);
    steps, t := Round(delay, steps, t, 0);
    steps, t := Round(delay, steps, t, 1);
    steps, t := Round(delay, steps, t, 2);
  }
}
