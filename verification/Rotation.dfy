/**
 The key-rotation CLI (scripts/commander-rotate.ts): argument parsing, and the attempt/confirm flow
 of any number of invocations interleaved on one append-only audit ledger, where the attempt check
 and the append are separate steps. Receipts, hashes and printed playbooks are not part of this
 model; a synthesized rotation id is given with the invocation.
 */
module Rotation {
  import opened Wrappers

  datatype Action = Attempt | Confirm | Dry

  datatype RotateArgs = RotateArgs(
    envVar: Option<string>, action: Action, rotationId: Option<string>, force: bool, audit: bool, json: bool)

  datatype ParseError = ConfirmNeedsId | UnknownFlag(arg: string) | UnexpectedPositional(arg: string) | Usage

  // ---------------------------------------------------------------------------------------
  // parseArgs
  // ---------------------------------------------------------------------------------------

  predicate IsFlag(arg: string) { "-" <= arg }

  predicate IsLongFlag(arg: string) { "--" <= arg }

  const EMPTY_ARGS := RotateArgs(None, Dry, None, false, false, false)

  /** What an argument that takes no value does to the locals; `None` for an error. */
  function PlainFlag(arg: string, acc: RotateArgs): Option<RotateArgs> {
    if arg == "--attempt" then Some(acc.(action := Attempt))
    else if arg == "--force" then Some(acc.(force := true))
    else if arg == "--dry-run" then Some(acc.(action := Dry))
    else if arg == "--audit" then Some(acc.(audit := true))
    else if arg == "--json" then Some(acc.(json := true))
    else if IsFlag(arg) || acc.envVar.Some? then None
    else Some(acc.(envVar := Some(arg)))
  }

  function ParseFrom(args: seq<string>, acc: RotateArgs): Result<RotateArgs, ParseError>
    decreases |args|
  {
    if args == [] then (if acc.envVar.None? then Err(Usage) else Ok(acc))
    else
      var arg, rest := args[0], args[1..];
      if arg == "--confirm" then
        if rest == [] || IsLongFlag(rest[0]) then Err(ConfirmNeedsId)
        else ParseFrom(rest[1..], acc.(action := Confirm, rotationId := Some(rest[0])))
      else
        var next := PlainFlag(arg, acc);
        if next.Some? then ParseFrom(rest, next.value)
        else if IsFlag(arg) then Err(UnknownFlag(arg))
        else Err(UnexpectedPositional(arg))
  }

  function Normalized(argv: seq<string>): seq<string> {
    if |argv| > 2 && argv[2] == "--" then argv[3..] else if |argv| >= 2 then argv[2..] else []
  }

  function Parse(argv: seq<string>): Result<RotateArgs, ParseError> { ParseFrom(Normalized(argv), EMPTY_ARGS) }

  /** The source's loop over mutable locals. */
  method ParseArgs(argv: seq<string>) returns (r: Result<RotateArgs, ParseError>)
    ensures r == Parse(argv)
  {
    var envVar: Option<string>, action, rotationId: Option<string> := None, Dry, None;
    var force, audit, json := false, false, false;
    var args := Normalized(argv);
    var i := 0;
    assert args[0..] == args;
    while i < |args|
      invariant i <= |args|
      invariant ParseFrom(args[i..], RotateArgs(envVar, action, rotationId, force, audit, json)) == Parse(argv)
    {
      var arg := args[i];
      assert args[i..][1..] == args[i + 1..];
      if arg == "--attempt" {
        action := Attempt;
      } else if arg == "--confirm" {
        action := Confirm;
        i := i + 1;
        if i == |args| || IsLongFlag(args[i]) {
          return Err(ConfirmNeedsId);
        }
        assert args[i..][1..] == args[i + 1..];
        rotationId := Some(args[i]);
      } else if arg == "--force" {
        force := true;
      } else if arg == "--dry-run" {
        action := Dry;
      } else if arg == "--audit" {
        audit := true;
      } else if arg == "--json" {
        json := true;
      } else if IsFlag(arg) {
        return Err(UnknownFlag(arg));
      } else if envVar.None? {
        envVar := Some(arg);
      } else {
        return Err(UnexpectedPositional(arg));
      }
      i := i + 1;
    }
    assert args[i..] == [];
    r := if envVar.None? then Err(Usage) else Ok(RotateArgs(envVar, action, rotationId, force, audit, json));
  }

  ghost predicate SoundArgs(acc: RotateArgs) {
    && (acc.envVar.Some? ==> !IsFlag(acc.envVar.value))
    && (acc.action.Confirm? ==> acc.rotationId.Some?)
    && (acc.rotationId.Some? ==> !IsLongFlag(acc.rotationId.value))
  }

  /** A parsed confirmation carries a rotation id, and every parse names a variable that is no flag. */
  lemma {:induction false} ParsedArgsSound(args: seq<string>, acc: RotateArgs)
    requires SoundArgs(acc)
    ensures ParseFrom(args, acc).Ok? ==>
              SoundArgs(ParseFrom(args, acc).value) && ParseFrom(args, acc).value.envVar.Some?
    decreases |args|
  {
    hide IsFlag, IsLongFlag;
    if args != [] {
      var arg, rest := args[0], args[1..];
      if arg == "--confirm" {
        if rest != [] && !IsLongFlag(rest[0]) {
          ParsedArgsSound(rest[1..], acc.(action := Confirm, rotationId := Some(rest[0])));
        }
      } else {
        var next := PlainFlag(arg, acc);
        if next.Some? { ParsedArgsSound(rest, next.value); }
      }
    }
  }

  // ---------------------------------------------------------------------------------------
  // One invocation, step by step
  // ---------------------------------------------------------------------------------------

  const SCOPE: set<string> := {
    "OPENAI_API_KEY", "ANTHROPIC_API_KEY", "GOOGLE_API_KEY", "DEEPSEEK_API_KEY", "AWS_ACCESS_KEY_ID",
    "AWS_SECRET_ACCESS_KEY", "GITHUB_TOKEN", "SLACK_BOT_TOKEN", "COMMANDER_FEDERATION_KEY",
    "COMMANDER_CAPABILITY_TOKEN_KEY", "COMMANDER_AUDIT_CHAIN_KEY", "COMMANDER_DEV_API_KEY",
    "COMMANDER_STAGING_API_KEY"}

  /** `writer` is the invocation that appended the entry. */
  datatype Entry = Entry(kind: Action, envVar: string, rotationId: string, writer: nat)

  /** An invocation with its command line and the rotation id it would synthesize. */
  datatype Process =
    | Started(argv: seq<string>, stamp: string)
    | Appending(argv: seq<string>, stamp: string)
    | Exited(argv: seq<string>, stamp: string, code: nat)

  datatype World = World(ledger: seq<Entry>, processes: seq<Process>)

  datatype Step =
    | Launch(argv: seq<string>, stamp: string)
    | Check(p: nat, readable: bool)
    | Append(p: nat, writable: bool)

  predicate HasAttempt(ledger: seq<Entry>, envVar: string, rotationId: string) {
    exists i :: 0 <= i < |ledger| && ledger[i].kind.Attempt? && ledger[i].envVar == envVar && ledger[i].rotationId == rotationId
  }

  /** `validateSecret`: in the published scope, or forced. */
  predicate Allowed(args: RotateArgs) { args.envVar.Some? && (args.envVar.value in SCOPE || args.force) }

  predicate ConfirmComplete(args: RotateArgs) {
    args.action.Confirm? ==> args.rotationId.Some? && args.rotationId.value != "" && args.audit
  }

  function RotationIdOf(args: RotateArgs, stamp: string): string {
    if args.action.Confirm? && args.rotationId.Some? then args.rotationId.value else stamp
  }

  /** Everything `main` does before the append: `None` goes on to append, `Some` is an exit code. */
  function CheckOutcome(argv: seq<string>, stamp: string, ledger: seq<Entry>, readable: bool): Option<nat> {
    var parsed := Parse(argv);
    if parsed.Err? then Some(1) else
      var args := parsed.value;
      if !Allowed(args) || !ConfirmComplete(args) then Some(1)
      else if !args.audit then Some(0)
      else if !args.action.Confirm? then None
      else if !readable then Some(2)
      else if HasAttempt(ledger, args.envVar.value, RotationIdOf(args, stamp)) then None
      else Some(1)
  }

  function EntryOf(argv: seq<string>, stamp: string, p: nat): Entry
    requires Parse(argv).Ok? && Parse(argv).value.envVar.Some?
  {
    var args := Parse(argv).value;
    Entry(args.action, args.envVar.value, RotationIdOf(args, stamp), p)
  }

  predicate Wellformed(x: Process) { x.Appending? ==> Parse(x.argv).Ok? && Parse(x.argv).value.envVar.Some? }

  function Apply(w: World, step: Step): Option<World> {
    match step
    case Launch(argv, stamp) => Some(w.(processes := w.processes + [Started(argv, stamp)]))
    case Check(p, readable) =>
      if p < |w.processes| && w.processes[p].Started? then
        var x := w.processes[p];
        var outcome := CheckOutcome(x.argv, x.stamp, w.ledger, readable);
        Some(w.(processes := w.processes[p :=
          if outcome.Some? then Exited(x.argv, x.stamp, outcome.value) else Appending(x.argv, x.stamp)]))
      else None
    case Append(p, writable) =>
      if p < |w.processes| && w.processes[p].Appending? && Wellformed(w.processes[p]) then
        var x := w.processes[p];
        if writable then
          Some(World(w.ledger + [EntryOf(x.argv, x.stamp, p)], w.processes[p := Exited(x.argv, x.stamp, 0)]))
        else Some(w.(processes := w.processes[p := Exited(x.argv, x.stamp, 2)]))
      else None
  }

  function Execute(w: World, steps: seq<Step>): Option<World>
    decreases |steps|
  {
    if steps == [] then Some(w) else
      var t := Apply(w, steps[0]);
      if t.None? then None else Execute(t.value, steps[1..])
  }

  // ---------------------------------------------------------------------------------------
  // The invariant
  // ---------------------------------------------------------------------------------------

  /** A confirmation stands behind an attempt for the same variable and rotation id. */
  ghost predicate ConfirmsFollowAttempts(ledger: seq<Entry>) {
    forall j :: 0 <= j < |ledger| && ledger[j].kind.Confirm? ==>
      HasAttempt(ledger[..j], ledger[j].envVar, ledger[j].rotationId)
  }

  predicate Audited(x: Process) { Parse(x.argv).Ok? && Parse(x.argv).value.audit }

  predicate Wrote(ledger: seq<Entry>, p: nat) { exists j :: 0 <= j < |ledger| && ledger[j].writer == p }

  /** A process on its way to the append has passed the checks, for good. */
  ghost predicate ReadyToAppend(w: World, p: nat)
    requires p < |w.processes|
  {
    var x := w.processes[p];
    x.Appending? ==>
      && Wellformed(x) && Audited(x)
      && (Parse(x.argv).value.action.Confirm? ==>
            HasAttempt(w.ledger, Parse(x.argv).value.envVar.value, RotationIdOf(Parse(x.argv).value, x.stamp)))
  }

  /** Exactly the audited invocations that exited with 0 have an entry, their own, and one only. */
  ghost predicate EntriesMatch(w: World) {
    && (forall j :: 0 <= j < |w.ledger| ==> w.ledger[j].writer < |w.processes|)
    && (forall i, j :: 0 <= i < j < |w.ledger| ==> w.ledger[i].writer != w.ledger[j].writer)
    && (forall p: nat :: p < |w.processes| ==>
          (Wrote(w.ledger, p) <==> w.processes[p].Exited? && w.processes[p].code == 0 && Audited(w.processes[p])))
  }

  ghost predicate Invariant(w: World) {
    && ConfirmsFollowAttempts(w.ledger) && EntriesMatch(w)
    && forall p: nat :: p < |w.processes| ==> ReadyToAppend(w, p)
  }

  lemma AttemptsStay(ledger: seq<Entry>, e: Entry, envVar: string, rotationId: string)
    requires HasAttempt(ledger, envVar, rotationId)
    ensures HasAttempt(ledger + [e], envVar, rotationId)
  {
    var i :| 0 <= i < |ledger| && ledger[i].kind.Attempt? && ledger[i].envVar == envVar && ledger[i].rotationId == rotationId;
    assert (ledger + [e])[i] == ledger[i];
  }

  lemma WroteSnoc(ledger: seq<Entry>, e: Entry, p: nat)
    ensures Wrote(ledger + [e], p) <==> Wrote(ledger, p) || e.writer == p
  {
    assert (ledger + [e])[|ledger|] == e;
    if j :| 0 <= j < |ledger| && ledger[j].writer == p { assert (ledger + [e])[j] == ledger[j]; }
  }

  lemma LaunchKeeps(w: World, argv: seq<string>, stamp: string)
    requires Invariant(w)
    ensures Invariant(Apply(w, Launch(argv, stamp)).value)
  {
    hide Parse, HasAttempt;
    var t := Apply(w, Launch(argv, stamp)).value;
    assert !Wrote(w.ledger, |w.processes|);
    forall p: nat | p < |w.processes| ensures ReadyToAppend(t, p) { assert ReadyToAppend(w, p); }
  }

  lemma CheckKeeps(w: World, p: nat, readable: bool)
    requires Invariant(w) && Apply(w, Check(p, readable)).Some?
    ensures Invariant(Apply(w, Check(p, readable)).value)
  {
    hide Parse, HasAttempt, Wrote;
    var t := Apply(w, Check(p, readable)).value;
    forall q: nat | q < |w.processes| ensures ReadyToAppend(t, q) { assert ReadyToAppend(w, q); }
  }

  lemma AppendKeeps(w: World, p: nat, writable: bool)
    requires Invariant(w) && Apply(w, Append(p, writable)).Some?
    ensures Invariant(Apply(w, Append(p, writable)).value)
  {
    hide Parse, HasAttempt, Wrote;
    var t := Apply(w, Append(p, writable)).value;
    var x := w.processes[p];
    assert ReadyToAppend(w, p);
    if writable {
      var e := EntryOf(x.argv, x.stamp, p);
      forall q: nat | q < |w.processes| ensures ReadyToAppend(t, q) {
        assert ReadyToAppend(w, q);
        var y := w.processes[q];
        if y.Appending? && Parse(y.argv).value.action.Confirm? {
          AttemptsStay(w.ledger, e, Parse(y.argv).value.envVar.value, RotationIdOf(Parse(y.argv).value, y.stamp));
        }
      }
      AppendConfirms(w.ledger, e);
      AppendMatches(w, t, p, e);
    } else {
      forall q: nat | q < |w.processes| ensures ReadyToAppend(t, q) { assert ReadyToAppend(w, q); }
    }
  }

  lemma AppendConfirms(ledger: seq<Entry>, e: Entry)
    requires ConfirmsFollowAttempts(ledger)
    requires e.kind.Confirm? ==> HasAttempt(ledger, e.envVar, e.rotationId)
    ensures ConfirmsFollowAttempts(ledger + [e])
  {
    hide HasAttempt;
    var t := ledger + [e];
    forall j | 0 <= j < |t| && t[j].kind.Confirm? ensures HasAttempt(t[..j], t[j].envVar, t[j].rotationId) {
      assert t[..j] == ledger[..j];
      assert ledger[..|ledger|] == ledger;
    }
  }

  lemma AppendMatches(w: World, t: World, p: nat, e: Entry)
    requires EntriesMatch(w) && p < |w.processes| && w.processes[p].Appending? && Audited(w.processes[p])
    requires e.writer == p && t.ledger == w.ledger + [e]
    requires t.processes == w.processes[p := Exited(w.processes[p].argv, w.processes[p].stamp, 0)]
    ensures EntriesMatch(t)
  {
    hide Parse, Wrote;
    assert !Wrote(w.ledger, p);
    forall q: nat | q < |t.processes|
      ensures Wrote(t.ledger, q) <==> t.processes[q].Exited? && t.processes[q].code == 0 && Audited(t.processes[q])
    {
      WroteSnoc(w.ledger, e, q);
    }
    forall j | 0 <= j < |w.ledger| ensures w.ledger[j].writer != p { WroteIt(w.ledger, j); }
  }

  lemma WroteIt(ledger: seq<Entry>, j: nat)
    requires j < |ledger|
    ensures Wrote(ledger, ledger[j].writer)
  {
  }

  lemma {:induction false} RunsKeepInvariant(w: World, steps: seq<Step>)
    requires Invariant(w) && Execute(w, steps).Some?
    ensures Invariant(Execute(w, steps).value)
    decreases |steps|
  {
    hide Invariant, Apply;
    if steps != [] {
      match steps[0] {
        case Launch(argv, stamp) => LaunchKeeps(w, argv, stamp);
        case Check(p, readable) => CheckKeeps(w, p, readable);
        case Append(p, writable) => AppendKeeps(w, p, writable);
      }
      RunsKeepInvariant(Apply(w, steps[0]).value, steps[1..]);
    }
  }

  // ---------------------------------------------------------------------------------------
  // Over every run
  // ---------------------------------------------------------------------------------------

  /** In every interleaving, every confirmed entry is preceded by its attempt. */
  lemma ConfirmedAfterAttempt(steps: seq<Step>, j: nat)
    requires Execute(World([], []), steps).Some?
    requires j < |Execute(World([], []), steps).value.ledger|
    requires Execute(World([], []), steps).value.ledger[j].kind.Confirm?
    ensures var ledger := Execute(World([], []), steps).value.ledger;
            exists i :: 0 <= i < j && ledger[i].kind.Attempt? && ledger[i].envVar == ledger[j].envVar &&
                        ledger[i].rotationId == ledger[j].rotationId
  {
    hide Parse, Apply, Execute;
    RunsKeepInvariant(World([], []), steps);
    var ledger := Execute(World([], []), steps).value.ledger;
    assert HasAttempt(ledger[..j], ledger[j].envVar, ledger[j].rotationId);
    var i :| 0 <= i < j && ledger[..j][i].kind.Attempt? && ledger[..j][i].envVar == ledger[j].envVar &&
             ledger[..j][i].rotationId == ledger[j].rotationId;
    assert ledger[i] == ledger[..j][i];
  }

  /** An invocation appended exactly one entry if it was audited and exited with 0, and none otherwise. */
  lemma OneEntryPerAuditedSuccess(steps: seq<Step>, p: nat)
    requires Execute(World([], []), steps).Some?
    requires p < |Execute(World([], []), steps).value.processes|
    ensures var w := Execute(World([], []), steps).value;
            var own := set j | 0 <= j < |w.ledger| && w.ledger[j].writer == p;
            |own| == if w.processes[p].Exited? && w.processes[p].code == 0 && Audited(w.processes[p]) then 1 else 0
  {
    hide Parse, Apply, Execute;
    RunsKeepInvariant(World([], []), steps);
    var w := Execute(World([], []), steps).value;
    var own := set j | 0 <= j < |w.ledger| && w.ledger[j].writer == p;
    if Wrote(w.ledger, p) {
      var j :| 0 <= j < |w.ledger| && w.ledger[j].writer == p;
      assert own == {j};
    } else {
      assert own == {};
    }
  }

  /** The ledger only ever grows. */
  lemma {:induction false} LedgerGrows(w: World, steps: seq<Step>)
    requires Execute(w, steps).Some?
    ensures w.ledger <= Execute(w, steps).value.ledger
    decreases |steps|
  {
    hide Parse;
    if steps != [] { LedgerGrows(Apply(w, steps[0]).value, steps[1..]); }
  }

  // ---------------------------------------------------------------------------------------
  // One invocation run alone
  // ---------------------------------------------------------------------------------------

  /** The durable ledger with `appendAudit`, and `main` run without interruption. */
  class AuditLedger {
    var entries: seq<Entry>

    method Append(e: Entry, writable: bool) returns (ok: bool)
      modifies this
      ensures ok == writable
      ensures entries == if writable then old(entries) + [e] else old(entries)
    {
      ok := writable;
      if ok { entries := entries + [e]; }
    }

    /** Run alone, `main` is its check step followed, if that passes, by its append step. */
    method Invoke(argv: seq<string>, stamp: string, p: nat, readable: bool, writable: bool) returns (code: nat)
      modifies this
      ensures var outcome := CheckOutcome(argv, stamp, old(entries), readable);
              if outcome.Some? then code == outcome.value && entries == old(entries)
              else
                && Parse(argv).Ok? && Parse(argv).value.envVar.Some?
                && code == (if writable then 0 else 2)
                && entries == if writable then old(entries) + [EntryOf(argv, stamp, p)] else old(entries)
    {
      var parsed := ParseArgs(argv);
      if parsed.Err? { return 1; }
      var args := parsed.value;
      if !Allowed(args) { return 1; }
      if args.action.Confirm? {
        if args.rotationId.None? || args.rotationId.value == "" { return 1; }
        if !args.audit { return 1; }
      }
      var rotationId := RotationIdOf(args, stamp);
      if args.audit {
        if args.action.Confirm? {
          if !readable { return 2; }
          if !HasAttempt(entries, args.envVar.value, rotationId) { return 1; }
        }
        var ok := Append(Entry(args.action, args.envVar.value, rotationId, p), writable);
        if !ok { return 2; }
      }
      code := 0;
    }
  }
}
