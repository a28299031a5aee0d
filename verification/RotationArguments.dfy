/**
 What the command line of the key-rotation CLI means (scripts/commander-rotate.ts), told by the
 positions of its arguments, and what an invocation then does with it.
 */
module RotationArguments {
  import opened Wrappers
  import opened Rotation

  predicate DashFirst(arg: string) { arg != "" && arg[0] == '-' }

  predicate TwoDashes(arg: string) { |arg| >= 2 && arg[0] == '-' && arg[1] == '-' }

  /** The argument is the rotation id of a `--confirm` before it. */
  predicate IsValue(args: seq<string>, i: nat)
    requires i < |args|
  {
    i > 0 && args[i - 1] == "--confirm" && !IsValue(args, i - 1)
  }

  /** The flag stands at this position, not as the value of another. */
  predicate Stands(args: seq<string>, i: nat, flag: string) { i < |args| && args[i] == flag && !IsValue(args, i) }

  ghost predicate Given(args: seq<string>, flag: string) { exists i: nat :: Stands(args, i, flag) }

  predicate IsKnown(arg: string) {
    || arg == "--attempt" || arg == "--confirm" || arg == "--force" || arg == "--dry-run" || arg == "--audit"
    || arg == "--json"
  }

  /** The position names the variable. */
  predicate Names(args: seq<string>, i: nat) { i < |args| && !IsValue(args, i) && !DashFirst(args[i]) }

  /** Every flag is known, and every `--confirm` has its id. */
  predicate FineAt(args: seq<string>, i: nat)
    requires i < |args|
  {
    IsValue(args, i) ||
    ((DashFirst(args[i]) ==> IsKnown(args[i])) && (args[i] == "--confirm" ==> i + 1 < |args| && !TwoDashes(args[i + 1])))
  }

  ghost predicate Fine(args: seq<string>) { forall i :: 0 <= i < |args| ==> FineAt(args, i) }

  ghost predicate OnlyName(args: seq<string>, i: nat) { Names(args, i) && forall j: nat :: Names(args, j) ==> j == i }

  ghost predicate OneName(args: seq<string>) { exists i: nat :: OnlyName(args, i) }

  /** The positions that set the action. */
  predicate Acts(args: seq<string>, i: nat) {
    Stands(args, i, "--attempt") || Stands(args, i, "--confirm") || Stands(args, i, "--dry-run")
  }

  ghost predicate LastAct(args: seq<string>, i: nat) { Acts(args, i) && forall j: nat :: Acts(args, j) ==> j <= i }

  ghost predicate LastConfirm(args: seq<string>, i: nat) {
    Stands(args, i, "--confirm") && forall j: nat :: Stands(args, j, "--confirm") ==> j <= i
  }

  function ActionOf(flag: string): Action {
    if flag == "--attempt" then Attempt else if flag == "--confirm" then Confirm else Dry
  }

  /** The action of the last flag that sets one, or the one before. */
  ghost predicate ActionRead(args: seq<string>, before: Action, action: Action) {
    || (exists i: nat :: i < |args| && LastAct(args, i) && action == ActionOf(args[i]))
    || ((forall i: nat :: !Acts(args, i)) && action == before)
  }

  /** The argument behind the last `--confirm`, or the id before. */
  ghost predicate IdRead(args: seq<string>, before: Option<string>, id: Option<string>) {
    || (exists i: nat :: LastConfirm(args, i) && i + 1 < |args| && id == Some(args[i + 1]))
    || ((forall i: nat :: !Stands(args, i, "--confirm")) && id == before)
  }

  /** The one argument that is neither flag nor id, unless there was one before. */
  ghost predicate NameRead(args: seq<string>, before: Option<string>, name: Option<string>) {
    if before.Some? then name == before && forall i: nat :: !Names(args, i)
    else exists i: nat :: i < |args| && OnlyName(args, i) && name == Some(args[i])
  }

  ghost predicate Reads(args: seq<string>, acc: RotateArgs, r: RotateArgs) {
    && (r.audit <==> acc.audit || Given(args, "--audit")) && (r.json <==> acc.json || Given(args, "--json"))
    && (r.force <==> acc.force || Given(args, "--force")) && ActionRead(args, acc.action, r.action)
    && IdRead(args, acc.rotationId, r.rotationId) && NameRead(args, acc.envVar, r.envVar)
  }

  // ---------------------------------------------------------------------------------------
  // One argument at a time
  // ---------------------------------------------------------------------------------------

  /** How many arguments the first one takes up. */
  function Width(args: seq<string>): nat
    requires args != []
  {
    if args[0] == "--confirm" then 2 else 1
  }

  /** The first argument is no value, and what follows it within its width is one. */
  lemma Skipped(args: seq<string>)
    requires args != []
    ensures !IsValue(args, 0)
    ensures forall i :: 0 < i < Width(args) && i < |args| ==> IsValue(args, i)
  {
  }

  lemma {:induction false} Shift(args: seq<string>, i: nat)
    requires args != [] && Width(args) + i < |args|
    ensures IsValue(args, Width(args) + i) == IsValue(args[Width(args)..], i)
  {
    if i > 0 {
      Shift(args, i - 1);
      assert args[Width(args)..][i - 1] == args[Width(args) + i - 1];
    } else {
      Skipped(args);
    }
  }

  lemma StandsStep(args: seq<string>, i: nat, flag: string)
    requires args != [] && Width(args) <= |args|
    ensures Stands(args, i, flag) <==>
              || (i == 0 && args[0] == flag)
              || (i >= Width(args) && Stands(args[Width(args)..], i - Width(args), flag))
  {
    Skipped(args);
    if Width(args) <= i < |args| { Shift(args, i - Width(args)); }
  }

  lemma NamesStep(args: seq<string>, i: nat)
    requires args != [] && Width(args) <= |args|
    ensures Names(args, i) <==>
              || (i == 0 && !DashFirst(args[0]))
              || (i >= Width(args) && Names(args[Width(args)..], i - Width(args)))
  {
    Skipped(args);
    if Width(args) <= i < |args| { Shift(args, i - Width(args)); }
  }

  lemma FineStep(args: seq<string>, i: nat)
    requires args != [] && Width(args) <= i < |args|
    ensures FineAt(args, i) <==> FineAt(args[Width(args)..], i - Width(args))
  {
    hide DashFirst, TwoDashes, IsKnown;
    Shift(args, i - Width(args));
    assert args[Width(args)..][i - Width(args)] == args[i];
    assert i + 1 < |args| ==> args[Width(args)..][i + 1 - Width(args)] == args[i + 1];
  }

  lemma FineWide(args: seq<string>)
    requires args != [] && FineAt(args, 0)
    ensures Width(args) <= |args|
  {
    Skipped(args);
  }

  lemma FineAll(args: seq<string>)
    requires args != [] && FineAt(args, 0)
    ensures Width(args) <= |args|
    ensures Fine(args) <==> Fine(args[Width(args)..])
  {
    hide DashFirst, TwoDashes, IsKnown;
    FineWide(args);
    Skipped(args);
    var k := Width(args);
    var rest := args[k..];
    if Fine(args) {
      forall i | 0 <= i < |rest| ensures FineAt(rest, i) { FineStep(args, k + i); }
    }
    if Fine(rest) {
      forall i | 0 <= i < |args| ensures FineAt(args, i) { if i >= k { FineStep(args, i); } }
    }
  }

  /** The locals after the first argument. */
  function After(args: seq<string>, acc: RotateArgs): RotateArgs
    requires args != [] && Width(args) <= |args|
  {
    var arg := args[0];
    RotateArgs(
      if DashFirst(arg) then acc.envVar else Some(arg),
      if arg in ["--attempt", "--confirm", "--dry-run"] then ActionOf(arg) else acc.action,
      if arg == "--confirm" then Some(args[1]) else acc.rotationId,
      acc.force || arg == "--force", acc.audit || arg == "--audit", acc.json || arg == "--json")
  }

  lemma DashIs(arg: string)
    ensures IsFlag(arg) <==> DashFirst(arg)
    ensures IsLongFlag(arg) <==> TwoDashes(arg)
  {
  }

  lemma KnownFlags(arg: string)
    ensures IsKnown(arg) ==> DashFirst(arg)
  {
  }

  /** The first argument refuses, or leaves the rest to be parsed. */
  lemma ParseStep(args: seq<string>, acc: RotateArgs)
    requires args != []
    ensures FineAt(args, 0) && !(Names(args, 0) && acc.envVar.Some?) ==>
              && Width(args) <= |args|
              && ParseFrom(args, acc) == ParseFrom(args[Width(args)..], After(args, acc))
    ensures !FineAt(args, 0) || (Names(args, 0) && acc.envVar.Some?) ==> ParseFrom(args, acc).Err?
  {
    hide IsFlag, IsLongFlag, DashFirst, TwoDashes;
    DashIs(args[0]);
    KnownFlags(args[0]);
    if args[0] == "--confirm" {
      if |args| > 1 {
        DashIs(args[1]);
        assert args[1..][1..] == args[2..];
      }
    }
  }

  // ---------------------------------------------------------------------------------------
  // The whole line
  // ---------------------------------------------------------------------------------------

  lemma GivenStep(args: seq<string>, flag: string)
    requires args != [] && Width(args) <= |args|
    ensures Given(args, flag) <==> args[0] == flag || Given(args[Width(args)..], flag)
  {
    hide Stands;
    var k := Width(args);
    forall i ensures Stands(args, i, flag) <==> (i == 0 && args[0] == flag) || (i >= k && Stands(args[k..], i - k, flag)) {
      StandsStep(args, i, flag);
    }
    if i: nat :| Stands(args[k..], i, flag) { assert Stands(args, i + k, flag); }
    if args[0] == flag { assert Stands(args, 0, flag); }
  }

  lemma ActsStep(args: seq<string>, i: nat)
    requires args != [] && Width(args) <= |args|
    ensures Acts(args, i) <==>
              || (i == 0 && args[0] in ["--attempt", "--confirm", "--dry-run"])
              || (i >= Width(args) && Acts(args[Width(args)..], i - Width(args)))
    ensures Acts(args, i) ==> i < |args|
  {
    StandsStep(args, i, "--attempt");
    StandsStep(args, i, "--confirm");
    StandsStep(args, i, "--dry-run");
    assert args[0] in ["--attempt", "--confirm", "--dry-run"] <==>
             args[0] == "--attempt" || args[0] == "--confirm" || args[0] == "--dry-run";
    hide Stands;
  }

  lemma ActionStep(args: seq<string>, acc: RotateArgs, action: Action)
    requires args != [] && Width(args) <= |args|
    requires ActionRead(args[Width(args)..], After(args, acc).action, action)
    ensures ActionRead(args, acc.action, action)
  {
    hide Acts;
    var k := Width(args);
    var rest := args[k..];
    forall i ensures Acts(args, i) <==>
        (i == 0 && args[0] in ["--attempt", "--confirm", "--dry-run"]) || (i >= k && Acts(rest, i - k))
    {
      ActsStep(args, i);
    }
    if i: nat :| i < |rest| && LastAct(rest, i) && action == ActionOf(rest[i]) {
      assert LastAct(args, i + k) && args[i + k] == rest[i];
    } else if args[0] in ["--attempt", "--confirm", "--dry-run"] {
      assert LastAct(args, 0);
    }
  }

  lemma IdStep(args: seq<string>, acc: RotateArgs, id: Option<string>)
    requires args != [] && Width(args) <= |args|
    requires IdRead(args[Width(args)..], After(args, acc).rotationId, id)
    ensures IdRead(args, acc.rotationId, id)
  {
    hide Stands;
    var k := Width(args);
    var rest := args[k..];
    forall i ensures Stands(args, i, "--confirm") <==>
        (i == 0 && args[0] == "--confirm") || (i >= k && Stands(rest, i - k, "--confirm"))
    {
      StandsStep(args, i, "--confirm");
    }
    if i: nat :| LastConfirm(rest, i) && i + 1 < |rest| && id == Some(rest[i + 1]) {
      assert LastConfirm(args, i + k) && args[i + k + 1] == rest[i + 1];
    } else if args[0] == "--confirm" {
      assert LastConfirm(args, 0);
    }
  }

  /** Whether the line names one variable, given what was named before. */
  ghost predicate Named(args: seq<string>, before: Option<string>) {
    if before.Some? then forall i: nat :: !Names(args, i) else OneName(args)
  }

  /** The names of a line: its first argument, and those behind it. */
  lemma NamesSplit(args: seq<string>)
    requires args != [] && Width(args) <= |args|
    ensures Names(args, 0) <==> !DashFirst(args[0])
    ensures forall i: nat :: Names(args[Width(args)..], i) ==> Names(args, i + Width(args)) && i + Width(args) < |args|
    ensures forall i: nat :: Names(args, i) ==> i < |args| && (i == 0 || (i >= Width(args) && Names(args[Width(args)..], i - Width(args))))
  {
    forall i: nat | Names(args[Width(args)..], i) ensures Names(args, i + Width(args)) { NamesStep(args, i + Width(args)); }
    forall i: nat | Names(args, i) ensures i == 0 || (i >= Width(args) && Names(args[Width(args)..], i - Width(args))) {
      NamesStep(args, i);
    }
    NamesStep(args, 0);
  }

  lemma NameStep(args: seq<string>, acc: RotateArgs, name: Option<string>)
    requires args != [] && Width(args) <= |args| && !(Names(args, 0) && acc.envVar.Some?)
    ensures NameRead(args[Width(args)..], After(args, acc).envVar, name) ==> NameRead(args, acc.envVar, name)
  {
    hide DashFirst;
    NamesSplit(args);
    hide Names;
    var k := Width(args);
    var rest := args[k..];
    if NameRead(rest, After(args, acc).envVar, name) && !Names(args, 0) && acc.envVar.None? {
      var i: nat :| i < |rest| && OnlyName(rest, i) && name == Some(rest[i]);
      assert OnlyName(args, i + k) && args[i + k] == rest[i];
    }
  }

  lemma OnlyFirstNamed(args: seq<string>)
    requires args != [] && Width(args) <= |args| && Names(args, 0)
    ensures OneName(args) <==> forall i: nat :: !Names(args[Width(args)..], i)
  {
    NamesSplit(args);
    var k := Width(args);
    assert k > 0;
    hide Names, Width;
    if OneName(args) {
      forall i: nat ensures !Names(args[k..], i) { assert !Names(args, i + k); }
    }
    if forall i: nat :: !Names(args[k..], i) { assert OnlyName(args, 0); }
  }

  lemma OnlyNameBehind(args: seq<string>, i: nat)
    requires args != [] && Width(args) <= |args| && !Names(args, 0)
    ensures OnlyName(args[Width(args)..], i) ==> OnlyName(args, i + Width(args))
    ensures i >= Width(args) && OnlyName(args, i) ==> OnlyName(args[Width(args)..], i - Width(args))
    ensures OnlyName(args, i) ==> i >= Width(args)
  {
    NamesSplit(args);
    hide Names, Width;
  }

  lemma NamedBehind(args: seq<string>)
    requires args != [] && Width(args) <= |args| && !Names(args, 0)
    ensures OneName(args) <==> OneName(args[Width(args)..])
  {
    hide Names, Width, OnlyName;
    var k := Width(args);
    if i: nat :| OnlyName(args[k..], i) { OnlyNameBehind(args, i); }
    if i: nat :| OnlyName(args, i) { OnlyNameBehind(args, i); }
  }

  lemma NoneNamed(args: seq<string>)
    requires args != [] && Width(args) <= |args| && !Names(args, 0)
    ensures (forall i: nat :: !Names(args, i)) <==> forall i: nat :: !Names(args[Width(args)..], i)
  {
    NamesSplit(args);
    hide Names, Width;
  }

  lemma NamedStep(args: seq<string>, acc: RotateArgs)
    requires args != [] && Width(args) <= |args| && !(Names(args, 0) && acc.envVar.Some?)
    ensures Named(args, acc.envVar) <==> Named(args[Width(args)..], After(args, acc).envVar)
  {
    assert Names(args, 0) <==> !DashFirst(args[0]) by { NamesSplit(args); }
    hide DashFirst, Names, OneName;
    if Names(args, 0) { OnlyFirstNamed(args); }
    else {
      NamedBehind(args);
      NoneNamed(args);
    }
  }

  /** Parsing succeeds exactly on lines of known flags with their ids and one name, and reads them so. */
  lemma {:induction false} ParseExact(args: seq<string>, acc: RotateArgs)
    ensures ParseFrom(args, acc).Ok? <==> Fine(args) && Named(args, acc.envVar)
    ensures ParseFrom(args, acc).Ok? ==> Reads(args, acc, ParseFrom(args, acc).value)
    decreases |args|
  {
    if args != [] {
      ParseStep(args, acc);
      if FineAt(args, 0) && !(Names(args, 0) && acc.envVar.Some?) {
        FineAll(args);
        ParseExact(args[Width(args)..], After(args, acc));
        NamedStep(args, acc);
        if ParseFrom(args, acc).Ok? { ReadsStep(args, acc, ParseFrom(args, acc).value); }
      }
    }
  }

  lemma ReadsStep(args: seq<string>, acc: RotateArgs, r: RotateArgs)
    requires args != [] && Width(args) <= |args| && !(Names(args, 0) && acc.envVar.Some?)
    requires Reads(args[Width(args)..], After(args, acc), r)
    ensures Reads(args, acc, r)
  {
    hide Given, ActionRead, IdRead, NameRead, Names, ActionOf, DashFirst;
    GivenStep(args, "--audit");
    GivenStep(args, "--json");
    GivenStep(args, "--force");
    ActionStep(args, acc, r.action);
    IdStep(args, acc, r.rotationId);
    NameStep(args, acc, r.envVar);
  }

  /** What a refused line has wrong. */
  ghost predicate Refuses(args: seq<string>, before: Option<string>, e: ParseError) {
    match e
    case Usage => Fine(args) && before.None? && forall i: nat :: !Names(args, i)
    case ConfirmNeedsId => exists i: nat :: Stands(args, i, "--confirm") && !FineAt(args, i)
    case UnknownFlag(arg) => exists i: nat :: Stands(args, i, arg) && DashFirst(arg) && !IsKnown(arg)
    case UnexpectedPositional(arg) =>
      exists i: nat :: Stands(args, i, arg) && Names(args, i) && (before.Some? || exists j: nat :: j < i && Names(args, j))
  }

  lemma RefusedFirst(args: seq<string>, acc: RotateArgs)
    requires args != [] && (!FineAt(args, 0) || (Names(args, 0) && acc.envVar.Some?))
    ensures ParseFrom(args, acc).Err? && Refuses(args, acc.envVar, ParseFrom(args, acc).error)
  {
    hide IsFlag, IsLongFlag, DashFirst, TwoDashes;
    DashIs(args[0]);
    KnownFlags(args[0]);
    if |args| > 1 { DashIs(args[1]); }
    Skipped(args);
    assert Stands(args, 0, args[0]);
  }

  lemma RefusedBehind(args: seq<string>, acc: RotateArgs, e: ParseError)
    requires args != [] && FineAt(args, 0) && !(Names(args, 0) && acc.envVar.Some?) && Width(args) <= |args|
    requires Refuses(args[Width(args)..], After(args, acc).envVar, e)
    ensures Refuses(args, acc.envVar, e)
  {
    var k := Width(args);
    var rest := args[k..];
    NamesSplit(args);
    FineAll(args);
    forall i: nat, flag | Stands(rest, i, flag) ensures Stands(args, i + k, flag) { StandsStep(args, i + k, flag); }
    hide Names, Stands, DashFirst, IsKnown, FineAt, Fine;
    match e {
      case Usage =>
      case ConfirmNeedsId =>
        var i: nat :| Stands(rest, i, "--confirm") && !FineAt(rest, i);
        FineStep(args, i + k) by { StandsInside(rest, i, "--confirm"); }
        assert Stands(args, i + k, "--confirm");
      case UnknownFlag(arg) =>
        var i: nat :| Stands(rest, i, arg) && DashFirst(arg) && !IsKnown(arg);
        assert Stands(args, i + k, arg);
      case UnexpectedPositional(arg) =>
        var i: nat :| Stands(rest, i, arg) && Names(rest, i) &&
                      (After(args, acc).envVar.Some? || exists j: nat :: j < i && Names(rest, j));
        assert Stands(args, i + k, arg) && Names(args, i + k);
        if j: nat :| j < i && Names(rest, j) { assert Names(args, j + k); }
        else if acc.envVar.None? { assert Names(args, 0); }
    }
  }

  lemma StandsInside(args: seq<string>, i: nat, flag: string)
    requires Stands(args, i, flag)
    ensures i < |args|
  {
  }

  /** Every refusal names something that is wrong with the line. */
  lemma {:induction false} RefusalHasCause(args: seq<string>, acc: RotateArgs)
    ensures ParseFrom(args, acc).Err? ==> Refuses(args, acc.envVar, ParseFrom(args, acc).error)
    decreases |args|
  {
    if args != [] {
      if !FineAt(args, 0) || (Names(args, 0) && acc.envVar.Some?) {
        RefusedFirst(args, acc);
      } else {
        ParseStep(args, acc);
        RefusalHasCause(args[Width(args)..], After(args, acc));
        if ParseFrom(args, acc).Err? { RefusedBehind(args, acc, ParseFrom(args, acc).error); }
      }
    }
  }

  /**
   A line behind the two program names, with or without the separator, parses exactly if its flags
   are known, its ids present and one variable named; it starts as an unaudited, unforced dry run.
   */
  lemma CommandLine(node: string, script: string, args: seq<string>)
    ensures Parse([node, script, "--"] + args) == ParseFrom(args, RotateArgs(None, Dry, None, false, false, false))
    ensures args == [] || args[0] != "--" ==> Parse([node, script] + args) == Parse([node, script, "--"] + args)
    ensures Parse([node, script, "--"] + args).Ok? <==> Fine(args) && OneName(args)
    ensures Parse([node, script, "--"] + args).Ok? ==>
              Reads(args, RotateArgs(None, Dry, None, false, false, false), Parse([node, script, "--"] + args).value)
  {
    hide Reads, Fine, OneName, ParseFrom;
    assert ([node, script, "--"] + args)[3..] == args && ([node, script] + args)[2..] == args;
    assert ([node, script, "--"] + args)[2] == "--";
    ParseExact(args, EMPTY_ARGS);
  }

  // ---------------------------------------------------------------------------------------
  // What the invocation does
  // ---------------------------------------------------------------------------------------

  predicate Published(name: string) {
    || name == "OPENAI_API_KEY" || name == "ANTHROPIC_API_KEY" || name == "GOOGLE_API_KEY"
    || name == "DEEPSEEK_API_KEY" || name == "AWS_ACCESS_KEY_ID" || name == "AWS_SECRET_ACCESS_KEY"
    || name == "GITHUB_TOKEN" || name == "SLACK_BOT_TOKEN" || name == "COMMANDER_FEDERATION_KEY"
    || name == "COMMANDER_CAPABILITY_TOKEN_KEY" || name == "COMMANDER_AUDIT_CHAIN_KEY"
    || name == "COMMANDER_DEV_API_KEY" || name == "COMMANDER_STAGING_API_KEY"
  }

  lemma ScopeIsPublished(name: string)
    ensures name in SCOPE <==> Published(name)
  {
  }

  /** The line parses, and its variable is published or forced. */
  ghost predicate Admitted(argv: seq<string>) {
    Parse(argv).Ok? && Parse(argv).value.envVar.Some?
    && (Published(Parse(argv).value.envVar.value) || Parse(argv).value.force)
  }

  /** An earlier attempt entry for this variable and id. */
  ghost predicate Attempted(ledger: seq<Entry>, name: string, id: string) {
    exists e :: e in ledger && e.kind == Attempt && e.envVar == name && e.rotationId == id
  }

  lemma AttemptedExact(ledger: seq<Entry>, name: string, id: string)
    ensures HasAttempt(ledger, name, id) <==> Attempted(ledger, name, id)
  {
  }

  /** Which invocations end at once, with which exit code, and what the others append. */
  lemma OutcomeExact(argv: seq<string>, stamp: string, ledger: seq<Entry>, readable: bool, p: nat)
    ensures var outcome := CheckOutcome(argv, stamp, ledger, readable);
            if !Admitted(argv) then outcome == Some(1)
            else
              var r := Parse(argv).value;
              if !r.action.Confirm? then
                if r.audit then outcome == None && EntryOf(argv, stamp, p) == Entry(r.action, r.envVar.value, stamp, p)
                else outcome == Some(0)
              else if r.rotationId.None? || r.rotationId.value == "" || !r.audit then outcome == Some(1)
              else if !readable then outcome == Some(2)
              else if !Attempted(ledger, r.envVar.value, r.rotationId.value) then outcome == Some(1)
              else outcome == None && EntryOf(argv, stamp, p) == Entry(Confirm, r.envVar.value, r.rotationId.value, p)
  {
    hide Parse, HasAttempt, Attempted, Published;
    if Parse(argv).Ok? && Parse(argv).value.envVar.Some? {
      var r := Parse(argv).value;
      ScopeIsPublished(r.envVar.value);
      if r.rotationId.Some? { AttemptedExact(ledger, r.envVar.value, r.rotationId.value); }
    }
  }

  /** Run alone, an invocation is launched, checked and, if its checks pass, appends; its exit code says how. */
  lemma AloneExact(w: World, argv: seq<string>, stamp: string, readable: bool, writable: bool)
    ensures var p, outcome := |w.processes|, CheckOutcome(argv, stamp, w.ledger, readable);
            if outcome.Some? then
              Execute(w, [Launch(argv, stamp), Check(p, readable)]) ==
              Some(World(w.ledger, w.processes + [Exited(argv, stamp, outcome.value)]))
            else
              && Parse(argv).Ok? && Parse(argv).value.envVar.Some?
              && Execute(w, [Launch(argv, stamp), Check(p, readable), Append(p, writable)]) ==
                 Some(World(if writable then w.ledger + [EntryOf(argv, stamp, p)] else w.ledger,
                            w.processes + [Exited(argv, stamp, if writable then 0 else 2)]))
  {
    hide Parse, Execute;
    var p, outcome := |w.processes|, CheckOutcome(argv, stamp, w.ledger, readable);
    var start := World(w.ledger, w.processes + [Started(argv, stamp)]);
    var x := if outcome.Some? then Exited(argv, stamp, outcome.value) else Appending(argv, stamp);
    var checked := World(w.ledger, w.processes + [x]);
    assert Apply(w, Launch(argv, stamp)) == Some(start);
    assert start.processes[p := x] == checked.processes;
    assert Apply(start, Check(p, readable)) == Some(checked);
    TwoSteps(w, Launch(argv, stamp), start, Check(p, readable), checked);
    if outcome.None? {
      var last := Exited(argv, stamp, if writable then 0 else 2);
      assert checked.processes[p := last] == w.processes + [last];
      ThreeSteps(w, Launch(argv, stamp), start, Check(p, readable), checked, Append(p, writable));
    }
  }

  lemma TwoSteps(w: World, a: Step, v: World, b: Step, u: World)
    requires Apply(w, a) == Some(v) && Apply(v, b) == Some(u)
    ensures Execute(w, [a, b]) == Some(u)
  {
    hide Apply;
    assert [a, b][1..] == [b] && [b][1..] == [];
    assert Execute(v, [b]) == Some(u);
  }

  lemma ThreeSteps(w: World, a: Step, v: World, b: Step, u: World, c: Step)
    requires Apply(w, a) == Some(v) && Apply(v, b) == Some(u)
    ensures Execute(w, [a, b, c]) == Apply(u, c)
  {
    hide Apply;
    assert [a, b, c][1..] == [b, c] && [b, c][1..] == [c] && [c][1..] == [];
    assert Execute(v, [b, c]) == Execute(u, [c]);
  }
}
