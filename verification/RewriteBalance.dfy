/**
 What `rewriteCatches` does to the bracket balance (scripts/apply-besteffort-fixes.ts), told by the
 automaton of `Balance`, and the balance guard of `processFile`.
 */
module RewriteBalance {
  import opened Wrappers
  import opened Sequences
  import opened JsText
  import opened Balance
  import opened EmptyBody
  import opened CatchRewrite

  /** A character that leaves the automaton in code. */
  predicate Plain(c: char) { c != '/' && c != '*' && !IsQuote(c) }

  /** A plain character that is no bracket. */
  predicate Quiet(c: char) { Plain(c) && Delta(c) == 0 }

  lemma {:induction false} RunQuiet(d: int, t: string)
    requires All(t, Quiet)
    ensures Run(Config(Normal, d), t) == Config(Normal, d)
    decreases |t|
  {
    if t != [] { RunQuiet(d, t[1..]); }
  }

  lemma RunChar(k: Config, c: char)
    ensures Run(k, [c]) == Advance(k, c)
  {
  }

  lemma {:induction false} RunQuietThen(d: int, a: string, b: string)
    requires All(a, Quiet)
    ensures Run(Config(Normal, d), a + b) == Run(Config(Normal, d), b)
  {
    RunConcat(Config(Normal, d), a, b);
    RunQuiet(d, a);
  }

  lemma {:induction false} RunPlainThen(st: State, d: int, c: char, b: string)
    requires Plain(c) && InCode(st)
    ensures Run(Config(st, d), [c] + b) == Run(Config(Normal, d + Delta(c)), b)
  {
  }

  /** From code position a text that starts with a plain character is read as from `Normal`. */
  lemma {:induction false} SlashForgotten(k: Config, t: string)
    requires InCode(k.state) && t != [] && Plain(t[0])
    ensures Run(k, t) == Run(Config(Normal, k.depth), t)
  {
  }

  /** The depth is only ever added to. */
  lemma {:induction false} RunShift(st: State, d: int, t: string)
    ensures Run(Config(st, d), t) == Config(Run(Config(st, 0), t).state, d + Run(Config(st, 0), t).depth)
    decreases |t|
  {
    if t != [] {
      var k := Advance(Config(st, 0), t[0]);
      RunShift(k.state, d + k.depth, t[1..]);
      RunShift(k.state, k.depth, t[1..]);
    }
  }

  lemma ClassesQuiet()
    ensures forall c :: IsSpace(c) ==> Quiet(c)
    ensures forall c :: IsNameChar(c) ==> Quiet(c)
    ensures forall c :: IsBlank(c) ==> Quiet(c)
  {
  }

  lemma QuietSpaces(t: string)
    ensures All(t, IsSpace) ==> All(t, Quiet)
    ensures All(t, IsBlank) ==> All(t, Quiet)
    ensures All(t, IsNameChar) ==> All(t, Quiet)
  {
  }

  lemma {:induction false} BinderRun(d: int, b: Binder, rest: string)
    requires ValidBinder(b)
    ensures Run(Config(Normal, d), BinderText(b) + rest) == Run(Config(Normal, d), rest)
  {
    hide Run, IsSpace, IsNameChar, Quiet, BinderText, All;
    if b.NoBinder? {
      NoBinderText(rest);
    } else {
      BinderSpread(b, rest);
      QuietSpaces(b.before);
      QuietSpaces(b.name);
      QuietSpaces(b.after);
      RunPlainThen(Normal, d, '(', b.before + (b.name + (b.after + (")" + rest))));
      RunQuietThen(d + 1, b.before, b.name + (b.after + (")" + rest)));
      RunQuietThen(d + 1, b.name, b.after + (")" + rest));
      RunQuietThen(d + 1, b.after, ")" + rest);
      RunPlainThen(Normal, d + 1, ')', rest);
    }
  }

  /** The head of a match, read from code position, returns to the depth it started from. */
  lemma {:induction false} HeadRun(k: Config, m: Catch, after: string)
    requires InCode(k.state) && ValidCatch(m)
    ensures Run(k, Head(m) + after) == Run(Config(Normal, k.depth), after)
  {
    hide Run, IsSpace, IsBlank, IsNameChar, Quiet, BinderText, Head, All;
    var d := k.depth;
    var r5 := m.gapBody + ("{" + after);
    var r4 := BinderText(m.binder) + r5;
    var r3 := m.gapAfter + r4;
    var r1 := m.gap + (CATCH + r3);
    HeadSpread(m, after);
    QuietSpaces(m.indent);
    QuietSpaces(m.gap);
    QuietSpaces(m.gapAfter);
    QuietSpaces(m.gapBody);
    CatchQuiet();
    IndentFirst(m.indent, "}" + r1);
    SlashForgotten(k, m.indent + ("}" + r1));
    RunQuietThen(d, m.indent, "}" + r1);
    RunPlainThen(Normal, d, '}', r1);
    RunQuietThen(d - 1, m.gap, CATCH + r3);
    RunQuietThen(d - 1, CATCH, r3);
    RunQuietThen(d - 1, m.gapAfter, r4);
    BinderRun(d - 1, m.binder, r5);
    RunQuietThen(d - 1, m.gapBody, "{" + after);
    RunPlainThen(Normal, d - 1, '{', after);
  }

  lemma CatchQuiet()
    ensures All(CATCH, Quiet)
  {
  }

  lemma IndentFirst(indent: string, rest: string)
    requires All(indent, Quiet) && rest != [] && Plain(rest[0])
    ensures indent + rest != [] && Plain((indent + rest)[0])
  {
  }

  /** Comments and white space add no depth and end in code, or inside an open line comment. */
  lemma {:induction false} BlankBodyRun(d: int, body: string)
    requires OnlyCommentsAndSpace(body)
    ensures var k := Run(Config(Normal, d), body); k.depth == d && (k.state.Normal? || k.state.Line?)
    decreases |body|
  {
    hide IsSpace, Run, IsBlankToken, FirstToken;
    if body == [] {
      RunNothing(Config(Normal, d));
    } else {
      var n := TokenLength(body);
      BlankTokenRun(d, body);
      Split(body, n);
      RunConcat(Config(Normal, d), body[..n], body[n..]);
      if n < |body| {
        BlankBodyRun(d, body[n..]);
      } else {
        RunNothing(Run(Config(Normal, d), body[..n]));
      }
    }
  }

  lemma RunNothing(k: Config)
    ensures Run(k, []) == k
  {
  }

  lemma {:induction false} BlankTokenRun(d: int, t: string)
    requires t != [] && IsBlankToken(FirstToken(t))
    ensures var k := Run(Config(Normal, d), t[..TokenLength(t)]);
            k.depth == d && (k.state == Normal || (k.state == Line && TokenLength(t) == |t|))
  {
    hide IsSpace, Run, HasClose, BlockEnd, LineEnd;
    var n := TokenLength(t);
    if StartsWith(t, '/', '/') {
      RunTwo(Config(Normal, d), t[..n]);
      assert t[..n][2..] == t[2..][..LineEnd(t[2..])];
      LineRun(d, t[2..]);
    } else if StartsWith(t, '/', '*') {
      RunTwo(Config(Normal, d), t[..n]);
      assert t[..n][2..] == t[2..][..BlockEnd(t[2..])];
      BlockTokenClosed(t);
      BlockRun(Block, d, t[2..]);
    } else {
      QuotesAreNotSpace();
      ClassesQuiet();
      assert t[..1] == [t[0]];
      RunChar(Config(Normal, d), t[0]);
    }
  }

  lemma {:induction false} LineRun(d: int, u: string)
    ensures var k := Run(Config(Line, d), u[..LineEnd(u)]);
            k.depth == d && (k.state == Normal || (k.state == Line && LineEnd(u) == |u|))
    decreases |u|
  {
    if u != [] {
      assert u[..LineEnd(u)][0] == u[0];
      if u[0] == '\n' {
        assert u[..1] == ['\n'];
        RunChar(Config(Line, d), '\n');
      } else {
        LineRun(d, u[1..]);
        assert u[..LineEnd(u)][1..] == u[1..][..LineEnd(u[1..])];
      }
    }
  }

  lemma {:induction false} BlockRun(st: State, d: int, u: string)
    requires HasClose(u) && (st == Block || (st == Star && u[0] != '/'))
    ensures Run(Config(st, d), u[..BlockEnd(u)]) == Config(Normal, d)
    decreases |u|
  {
    var v := u[..BlockEnd(u)];
    if StartsWith(u, '*', '/') {
      assert v == ['*', '/'];
      RunTwo(Config(st, d), v);
      assert v[2..] == [];
    } else {
      assert v[0] == u[0] && v[1..] == u[1..][..BlockEnd(u[1..])];
      assert u[1..] != [];
      BlockRun(Next(st, u[0]), d, u[1..]);
    }
  }

  // ---------------------------------------------------------------------------------------
  // One edit
  // ---------------------------------------------------------------------------------------

  /** A file name that stays inside the single-quoted string it is pasted into. */
  ghost predicate TransparentName(base: string) {
    Run(Config(Quoted('\''), 0), base) == Config(Quoted('\''), 0)
  }

  predicate StaysInString(c: char) { c != '\'' && c != '\\' }

  /** In particular a name without single quote and backslash. */
  lemma {:induction false} OrdinaryNameTransparent(base: string)
    requires All(base, StaysInString)
    ensures TransparentName(base)
    decreases |base|
  {
    if base != [] { OrdinaryNameTransparent(base[1..]); }
  }

  lemma {:induction false} StringRun(d: int, t: string, rest: string)
    requires TransparentName(t)
    ensures Run(Config(Quoted('\''), d), t + rest) == Run(Config(Quoted('\''), d), rest)
  {
    hide Run;
    RunConcat(Config(Quoted('\''), d), t, rest);
    RunShift(Quoted('\''), d, t);
  }

  lemma {:induction false} DecimalDigits(n: nat)
    ensures All(Decimal(n), StaysInString) && Decimal(n) != []
  {
    if n >= 10 { DecimalDigits(n / 10); }
  }

  lemma NameQuiet(m: Catch)
    requires ValidCatch(m)
    ensures All(NameOf(m), Quiet)
  {
  }

  lemma LiteralsQuiet()
    ensures All(" catch ", Quiet) && All(" ", Quiet) && All("reportSilentFailure", Quiet) && All(", ", Quiet)
    ensures All("\n", Quiet) && All(";\n", Quiet) && All("  ", Quiet)
  {
  }

  lemma {:induction false} NewHeadRun(k: Config, m: Catch, rest: string)
    requires InCode(k.state) && ValidCatch(m)
    ensures Run(k, NewHead(m) + rest) == Run(Config(Normal, k.depth), rest)
  {
    hide Run, IsSpace, IsBlank, IsNameChar, Quiet, All, NameOf;
    var d := k.depth;
    var tail := ")" + (" " + ("{" + rest));
    var t := m.indent + ("}" + (" catch " + ("(" + (NameOf(m) + tail))));
    assert NewHead(m) + rest == t by {
      Assoc(m.indent, "} catch (" + (NameOf(m) + ") {"), rest);
      Assoc("} catch (", NameOf(m) + ") {", rest);
      Assoc(NameOf(m), ") {", rest);
      assert ") {" + rest == tail;
      assert "} catch (" + (NameOf(m) + tail) == "}" + (" catch " + ("(" + (NameOf(m) + tail)));
    }
    LiteralsQuiet();
    NameQuiet(m);
    QuietSpaces(m.indent);
    IndentFirst(m.indent, "}" + (" catch " + ("(" + (NameOf(m) + tail))));
    SlashForgotten(k, t);
    RunQuietThen(d, m.indent, "}" + (" catch " + ("(" + (NameOf(m) + tail))));
    RunPlainThen(Normal, d, '}', " catch " + ("(" + (NameOf(m) + tail)));
    RunQuietThen(d - 1, " catch ", "(" + (NameOf(m) + tail));
    RunPlainThen(Normal, d - 1, '(', NameOf(m) + tail);
    RunQuietThen(d, NameOf(m), tail);
    RunPlainThen(Normal, d, ')', " " + ("{" + rest));
    RunQuietThen(d - 1, " ", "{" + rest);
    RunPlainThen(Normal, d - 1, '{', rest);
  }

  lemma {:induction false} MarkerRun(d: int, m: Catch, rest: string)
    ensures Run(Config(Normal, d), Marker(m) + rest) == Run(Config(Normal, d), rest)
  {
    hide Run;
    var marker := " /* best-effort */";
    if MentionsBestEffort(m.body) {
      RunConcat(Config(Normal, d), marker, rest);
      MarkerBlank();
      BlankTokensClosed(d);
    } else {
      assert Marker(m) + rest == rest;
    }
  }

  lemma MarkerBlank()
    ensures " /* best-effort */" == " " + ("/*" + (" best-effort " + "*/"))
    ensures All(" best-effort ", NotStar)
  {
  }

  lemma {:induction false} BlankTokensClosed(d: int)
    ensures Run(Config(Normal, d), " " + ("/*" + (" best-effort " + "*/"))) == Config(Normal, d)
  {
    hide Run;
    LiteralsQuiet();
    RunQuietThen(d, " ", "/*" + (" best-effort " + "*/"));
    var t := "/*" + (" best-effort " + "*/");
    RunTwo(Config(Normal, d), t);
    assert t[2..] == " best-effort " + "*/";
    MarkerBlank();
    InBlockRun(d, " best-effort ", "*/");
    RunTwo(Config(Block, d), "*/");
    RunNothing(Config(Normal, d));
    assert "*/"[2..] == [];
  }

  lemma {:induction false} InBlockRun(d: int, t: string, rest: string)
    requires All(t, NotStar)
    ensures Run(Config(Block, d), t + rest) == Run(Config(Block, d), rest)
    decreases |t|
  {
    if t == [] {
      assert t + rest == rest;
    } else {
      assert (t + rest)[0] == t[0] && (t + rest)[1..] == t[1..] + rest;
      InBlockRun(d, t[1..], rest);
    }
  }

  lemma {:induction false} ReportRun(d: int, m: Catch, base: string, line: nat, rest: string)
    requires ValidCatch(m) && TransparentName(base)
    ensures Run(Config(Normal, d), ReportCall(m, base, line) + rest) == Run(Config(Normal, d), rest)
  {
    hide Run, IsSpace, IsBlank, IsNameChar, Quiet, All, NameOf, Decimal, TransparentName, StaysInString;
    var pad := if m.indent == [] then "  " else m.indent;
    var name, num := NameOf(m), Decimal(line);
    var r6 := ")" + (";\n" + (m.indent + rest));
    var r5 := base + (":" + (num + ("'" + r6)));
    var r4 := ", " + ("'" + r5);
    var t := "\n" + (m.indent + (pad + ("reportSilentFailure" + ("(" + (name + r4)))));
    ReportSpread(m, base, line, rest);
    LiteralsQuiet();
    NameQuiet(m);
    QuietSpaces(m.indent);
    RunQuietThen(d, "\n", m.indent + (pad + ("reportSilentFailure" + ("(" + (name + r4)))));
    RunQuietThen(d, m.indent, pad + ("reportSilentFailure" + ("(" + (name + r4))));
    RunQuietThen(d, pad, "reportSilentFailure" + ("(" + (name + r4)));
    RunQuietThen(d, "reportSilentFailure", "(" + (name + r4));
    RunPlainThen(Normal, d, '(', name + r4);
    RunQuietThen(d + 1, name, r4);
    RunQuietThen(d + 1, ", ", "'" + r5);
    QuoteRun(Normal, d + 1, r5);
    StringRun(d + 1, base, ":" + (num + ("'" + r6)));
    DecimalDigits(line);
    OrdinaryNameTransparent(num);
    ColonTransparent();
    StringRun(d + 1, ":", num + ("'" + r6));
    StringRun(d + 1, num, "'" + r6);
    QuoteRun(Quoted('\''), d + 1, r6);
    RunPlainThen(Normal, d + 1, ')', ";\n" + (m.indent + rest));
    RunQuietThen(d, ";\n", m.indent + rest);
    RunQuietThen(d, m.indent, rest);
  }

  lemma ColonTransparent()
    ensures TransparentName(":")
  {
  }

  /** A single quote opens a string in code and closes the one it opened. */
  lemma {:induction false} QuoteRun(st: State, d: int, rest: string)
    requires st == Normal || st == Quoted('\'')
    ensures Run(Config(st, d), "'" + rest) == Run(Config(if st == Normal then Quoted('\'') else Normal, d), rest)
  {
  }

  lemma ReportSpread(m: Catch, base: string, line: nat, rest: string)
    ensures var pad := if m.indent == [] then "  " else m.indent;
            var r6 := ")" + (";\n" + (m.indent + rest));
            var r4 := ", " + ("'" + (base + (":" + (Decimal(line) + ("'" + r6)))));
            ReportCall(m, base, line) + rest ==
              "\n" + (m.indent + (pad + ("reportSilentFailure" + ("(" + (NameOf(m) + r4)))))
  {
    hide NameOf, Decimal;
    var pad := if m.indent == [] then "  " else m.indent;
    var num := Decimal(line) + ("');\n" + m.indent);
    var quoted := ", '" + (base + (":" + num));
    var call := "reportSilentFailure(" + (NameOf(m) + quoted);
    NumberSpread(m, line, rest);
    Assoc(base, ":" + num, rest);
    Assoc(", '", base + (":" + num), rest);
    Assoc(NameOf(m), quoted, rest);
    Assoc("reportSilentFailure(", NameOf(m) + quoted, rest);
    Assoc(pad, call, rest);
    Assoc(m.indent, pad + call, rest);
    Assoc("\n", m.indent + (pad + call), rest);
    SplitQuote(base + (":" + num + rest));
    SplitCall(NameOf(m) + (quoted + rest));
  }

  lemma NumberSpread(m: Catch, line: nat, rest: string)
    ensures var num := Decimal(line) + ("');\n" + m.indent);
            ":" + num + rest == ":" + (Decimal(line) + ("'" + (")" + (";\n" + (m.indent + rest)))))
  {
    hide Decimal;
  }

  lemma SplitQuote(t: string)
    ensures ", '" + t == ", " + ("'" + t)
  {
  }

  lemma SplitCall(t: string)
    ensures "reportSilentFailure(" + t == "reportSilentFailure" + ("(" + t)
  {
  }

  lemma {:induction false} ReplacementRun(k: Config, m: Catch, base: string, line: nat)
    requires InCode(k.state) && ValidCatch(m) && TransparentName(base)
    ensures Run(k, Replacement(m, base, line)) == Config(Normal, k.depth - 1)
  {
    hide Run, ReportCall, NewHead, Marker, ValidCatch, TransparentName;
    var d := k.depth;
    NewHeadRun(k, m, Marker(m) + (ReportCall(m, base, line) + "}"));
    MarkerRun(d, m, ReportCall(m, base, line) + "}");
    ReportRun(d, m, base, line, "}");
    RunChar(Config(Normal, d), '}');
  }

  /** Where the automaton stands just before the brace that closes the match. */
  ghost predicate EndsInCode(body: string) { InCode(Run(Config(Normal, 0), body).state) }

  /** The brace that closes the match stands inside a line comment of the body. */
  ghost predicate EndsInComment(body: string) { Run(Config(Normal, 0), body).state == Line }

  lemma {:induction false} MatchRun(k: Config, m: Catch)
    requires InCode(k.state) && ValidCatch(m)
    ensures Run(k, CatchText(m)) == Advance(Run(Config(Normal, k.depth), m.body), '}')
  {
    hide Run, Head, ValidCatch;
    HeadRun(k, m, m.body + "}");
    RunConcat(Config(Normal, k.depth), m.body, "}");
    RunChar(Run(Config(Normal, k.depth), m.body), '}');
  }

  /** Quotes are only ever opened by quote characters. */
  predicate Proper(st: State) { st.Quoted? || st.Escaped? ==> IsQuote(st.quote) }

  lemma {:induction false} StaysProper(k: Config, t: string)
    requires Proper(k.state)
    ensures Proper(Run(k, t).state)
    decreases |t|
  {
    if t != [] { StaysProper(Advance(k, t[0]), t[1..]); }
  }

  /** What the automaton makes of the brackets in the body alone. */
  ghost function BodyDepth(body: string): int { Run(Config(Normal, 0), body).depth }

  /** The state after a match, and how far the brackets of its body shift the depth. */
  lemma MatchEnds(k: Config, m: Catch)
    requires InCode(k.state) && ValidCatch(m)
    ensures Run(k, CatchText(m)).depth == k.depth + BodyDepth(m.body) - (if EndsInCode(m.body) then 1 else 0)
    ensures Run(k, CatchText(m)).state == Normal <==> EndsInCode(m.body)
    ensures EndsInComment(m.body) ==> Run(k, CatchText(m)).state == Line
  {
    hide Run, CatchText, ValidCatch;
    MatchRun(k, m);
    RunShift(Normal, k.depth, m.body);
    StaysProper(Config(Normal, 0), m.body);
  }

  /**
   One edit at a code position, whatever the body: state and depth after the match are kept exactly
   when the body ends in code, so that the closing brace counts, and its brackets are balanced.
   */
  lemma EditKeepsBalance(k: Config, m: Catch, base: string, line: nat)
    requires InCode(k.state) && ValidCatch(m) && TransparentName(base)
    ensures Run(k, Replacement(m, base, line)) == Run(k, CatchText(m)) <==>
              EndsInCode(m.body) && BodyDepth(m.body) == 0
  {
    hide Run, Replacement, CatchText, ValidCatch, TransparentName, EndsInCode;
    MatchEnds(k, m);
    ReplacementRun(k, m, base, line);
  }

  /** A body that counts as empty and swallows nothing has no brackets in code, and ends in code or a comment. */
  lemma HarmlessBodyFlat(body: string)
    requires IsEffectivelyEmpty(body) && NothingSwallowed(body)
    ensures BodyDepth(body) == 0 && (EndsInCode(body) || EndsInComment(body))
  {
    hide Run, IsEffectivelyEmpty, OnlyCommentsAndSpace, NothingSwallowed;
    EmptyVerdict(body);
    BlankBodyRun(0, body);
  }

  // ---------------------------------------------------------------------------------------
  // The whole file
  // ---------------------------------------------------------------------------------------

  /** A line without brackets, quotes and slashes, ended by its newline. */
  ghost predicate QuietLine(t: string) { UntilNewline(t) < |t| && All(t[..UntilNewline(t)], Quiet) }

  /**
   Reading on from offset `i` in state `st`: every replaced match starts in code, and ends in code or
   in a line comment of its body whose remaining line is quiet.
   */
  ghost predicate EditsReadable(content: string, i: nat, st: State)
    requires i <= |content|
    decreases |content| - i
  {
    i == |content| ||
    var found := MatchHere(content[i..]);
    if found.None? then EditsReadable(content, i + 1, Next(st, content[i])) else
      MatchFits(content, i);
      var m, n := found.value, i + |CatchText(found.value)|;
      && (IsEffectivelyEmpty(m.body) ==>
            InCode(st) && (EndsInCode(m.body) || (EndsInComment(m.body) && QuietLine(content[n..]))))
      && EditsReadable(content, n, Run(Config(st, 0), CatchText(m)).state)
  }

  /** What one edit takes from the depth: the brackets of the body, and the brace if a comment hid it. */
  ghost function Shift(body: string): int { BodyDepth(body) + if EndsInCode(body) then 0 else 1 }

  /** And all edits together. */
  ghost function HiddenDepth(content: string, i: nat): int
    requires i <= |content|
    decreases |content| - i
  {
    if i == |content| then 0 else
      var found := MatchHere(content[i..]);
      if found.None? then HiddenDepth(content, i + 1) else
        MatchFits(content, i);
        var m := found.value;
        (if IsEffectivelyEmpty(m.body) then Shift(m.body) else 0) + HiddenDepth(content, i + |CatchText(m)|)
  }

  /** Reading on after one more piece of the original and of the rewritten text. */
  lemma PieceThen(k: Config, piece: string, other: string, rest: string, rewritten: string, hidden: int)
    requires Run(k, piece).state == Run(k, other).state
    requires var e := Run(k, other);
             Run(e, rewritten) == Config(Run(e, rest).state, Run(e, rest).depth - hidden)
    ensures var e := Run(k, piece + rest);
            Run(k, other + rewritten) ==
              Config(e.state, e.depth - hidden - (Run(k, piece).depth - Run(k, other).depth))
  {
    hide Run;
    var a, b := Run(k, piece), Run(k, other);
    RunConcat(k, piece, rest);
    RunConcat(k, other, rewritten);
    RunShift(a.state, a.depth, rest);
    RunShift(b.state, b.depth, rest);
  }

  lemma QuietNoBrace()
    ensures forall c :: Quiet(c) ==> c != '}'
    ensures Quiet('\n') && !IsBlank('\n')
  {
  }

  /** In a quiet line no match starts: it is copied, and nothing changes but the state at its end. */
  lemma {:induction false} QuietLineCopied(content: string, base: string, p: nat, q: nat)
    requires p <= q < |content| && content[q] == '\n'
    requires forall j :: p <= j < q ==> Quiet(content[j]) && content[j] != '\n'
    ensures Rewritten(content, base, p) == content[p..q + 1] + Rewritten(content, base, q + 1)
    ensures HiddenDepth(content, p) == HiddenDepth(content, q + 1)
    ensures EditsReadable(content, p, Line) ==> EditsReadable(content, q + 1, Normal)
    decreases q - p
  {
    hide MatchHere, Quiet, IsBlank, IsEffectivelyEmpty, CatchText, Replacement, Run, LineOf, EndsInCode, EndsInComment,
         QuietLine, Shift;
    NoMatchInLine(content, p, q);
    var after := Rewritten(content, base, q + 1);
    if p == q {
      assert content[q..q + 1] == [content[q]];
    } else {
      QuietLineCopied(content, base, p + 1, q);
      assert content[p..q + 1] == [content[p]] + content[p + 1..q + 1];
      Assoc([content[p]], content[p + 1..q + 1], after);
    }
  }

  lemma NoMatchInLine(content: string, p: nat, q: nat)
    requires p <= q < |content| && content[q] == '\n'
    requires forall j :: p <= j < q ==> Quiet(content[j]) && content[j] != '\n'
    ensures MatchHere(content[p..]).None?
  {
    hide MatchHere, Quiet, IsBlank;
    QuietNoBrace();
    var t := content[p..];
    assert forall j :: 0 <= j < |t| ==> t[j] == content[p + j];
    assert t[q - p] == '\n';
    if MatchHere(t).Some? { var n := MatchStart(t); }
  }

  /** Such a line is read alike in code and in a comment, from the next line on. */
  lemma {:induction false} QuietLineRun(d: int, t: string, q: nat)
    requires q < |t| && t[q] == '\n' && forall j :: 0 <= j < q ==> Quiet(t[j]) && t[j] != '\n'
    ensures Run(Config(Line, d), t[..q + 1]) == Config(Normal, d) == Run(Config(Normal, d), t[..q + 1])
  {
    hide Quiet;
    QuietNoBrace();
    RunQuiet(d, t[..q + 1]);
    CommentRun(d, t[..q], t[..q + 1]);
  }

  lemma {:induction false} CommentRun(d: int, w: string, t: string)
    requires NoNewline(w) && t == w + ['\n']
    ensures Run(Config(Line, d), t) == Config(Normal, d)
    decreases |w|
  {
    if w == [] {
      RunChar(Config(Line, d), '\n');
    } else {
      CommentRun(d, w[1..], t[1..]);
    }
  }

  lemma UntilNewlineIs(t: string)
    requires UntilNewline(t) < |t|
    ensures t[UntilNewline(t)] == '\n' && forall j :: 0 <= j < UntilNewline(t) ==> t[j] != '\n'
  {
  }

  /** One replaced match that ends in a comment, together with the line it ends in. */
  lemma CommentEdit(content: string, base: string, i: nat, k: Config, m: Catch, q: nat)
    requires i <= |content| && MatchHere(content[i..]) == Some(m) && IsEffectivelyEmpty(m.body)
    requires InCode(k.state) && EndsInComment(m.body) && TransparentName(base)
    requires i + |CatchText(m)| <= q < |content| && content[q] == '\n'
    requires forall j :: i + |CatchText(m)| <= j < q ==> Quiet(content[j]) && content[j] != '\n'
    requires EditsReadable(content, i + |CatchText(m)|, Line)
    requires var e := Config(Normal, k.depth - 1);
             Run(e, Rewritten(content, base, q + 1)) ==
               Config(Run(e, content[q + 1..]).state, Run(e, content[q + 1..]).depth - HiddenDepth(content, q + 1))
    ensures var e := Run(k, content[i..]);
            Run(k, Rewritten(content, base, i)) == Config(e.state, e.depth - HiddenDepth(content, i))
  {
    hide Run, Replacement, CatchText, ValidCatch, TransparentName, IsEffectivelyEmpty, MatchHere, LineOf, BodyDepth,
         EditsReadable, Quiet;
    MatchFits(content, i);
    var n := i + |CatchText(m)|;
    var line, other := content[n..q + 1], Replacement(m, base, LineOf(content, i));
    var a := Run(k, CatchText(m));
    CommentNotCode(m.body);
    MatchEnds(k, m);
    ReplacementRun(k, m, base, LineOf(content, i));
    QuietLineCopied(content, base, n, q);
    assert content[n..][..q - n + 1] == line;
    QuietLineRun(a.depth, content[n..], q - n);
    QuietLineRun(k.depth - 1, content[n..], q - n);
    RunConcat(k, CatchText(m), line);
    RunConcat(k, other, line);
    PieceThen(k, CatchText(m) + line, other + line, content[q + 1..], Rewritten(content, base, q + 1),
              HiddenDepth(content, q + 1));
    assert content[i..] == CatchText(m) + line + content[q + 1..];
    Assoc(other, line, Rewritten(content, base, q + 1));
  }

  lemma CommentNotCode(body: string)
    ensures EndsInComment(body) ==> !EndsInCode(body)
  {
  }

  /**
   Rewriting any number of catch blocks keeps the final state and lowers the depth by exactly the
   brackets of the replaced bodies and the closing braces their comments hid.
   */
  lemma {:induction false} RewriteShiftsDepth(content: string, base: string, i: nat, k: Config)
    requires i <= |content| && EditsReadable(content, i, k.state) && TransparentName(base)
    ensures var e := Run(k, content[i..]);
            Run(k, Rewritten(content, base, i)) == Config(e.state, e.depth - HiddenDepth(content, i))
    decreases |content| - i
  {
    hide Run, Replacement, CatchText, ValidCatch, TransparentName, IsEffectivelyEmpty, EndsInCode, EndsInComment, MatchHere,
         LineOf, BodyDepth, Quiet, QuietLine;
    if i == |content| {
      assert content[i..] == [];
      RunNothing(k);
      return;
    }
    var found := MatchHere(content[i..]);
    if found.None? {
      var c := [content[i]];
      RunChar(k, content[i]);
      RewriteShiftsDepth(content, base, i + 1, Run(k, c));
      PieceThen(k, c, c, content[i + 1..], Rewritten(content, base, i + 1), HiddenDepth(content, i + 1));
      assert content[i..] == c + content[i + 1..];
      return;
    }
    MatchFits(content, i);
    var m := found.value;
    var n := i + |CatchText(m)|;
    RunShift(k.state, k.depth, CatchText(m));
    if IsEffectivelyEmpty(m.body) && !EndsInCode(m.body) {
      var q := LineAfter(content, n);
      MatchEnds(k, m);
      QuietLineCopied(content, base, n, q);
      RewriteShiftsDepth(content, base, q + 1, Config(Normal, k.depth - 1));
      CommentEdit(content, base, i, k, m, q);
    } else {
      var other := CatchText(m);
      if IsEffectivelyEmpty(m.body) {
        other := Replacement(m, base, LineOf(content, i));
        MatchEnds(k, m);
        ReplacementRun(k, m, base, LineOf(content, i));
      }
      RewriteShiftsDepth(content, base, n, Run(k, other));
      PieceThen(k, CatchText(m), other, content[n..], Rewritten(content, base, n), HiddenDepth(content, n));
      assert content[i..] == CatchText(m) + content[n..];
    }
  }

  /** Where a quiet line ends. */
  lemma LineAfter(content: string, n: nat) returns (q: nat)
    requires n <= |content| && QuietLine(content[n..])
    ensures n <= q < |content| && content[q] == '\n'
    ensures forall j :: n <= j < q ==> Quiet(content[j]) && content[j] != '\n'
  {
    hide Quiet;
    var t := content[n..];
    q := n + UntilNewline(t);
    UntilNewlineIs(t);
    forall j | n <= j < q ensures Quiet(content[j]) && content[j] != '\n' {
      assert content[j] == t[j - n] == t[..UntilNewline(t)][j - n];
    }
  }

  /** The bracket sum of the rewritten file is that of the original exactly when the edits hide none. */
  lemma RewriteKeepsVerdict(content: string, base: string)
    requires EditsReadable(content, 0, Normal) && TransparentName(base)
    ensures Depth(Lex(Rewritten(content, base, 0))) == Depth(Lex(content)) - HiddenDepth(content, 0)
    ensures Depth(Lex(Rewritten(content, base, 0))) == Depth(Lex(content)) <==> HiddenDepth(content, 0) == 0
  {
    hide Run, EditsReadable, Depth, Lex, HiddenDepth;
    RewriteShiftsDepth(content, base, 0, Config(Normal, 0));
    assert content[0..] == content;
    BalancedByAutomaton(content);
    BalancedByAutomaton(Rewritten(content, base, 0));
  }

  /** Every replaced body swallows nothing. */
  predicate EditsHarmless(content: string, i: nat)
    requires i <= |content|
    decreases |content| - i
  {
    i == |content| ||
    var found := MatchHere(content[i..]);
    if found.None? then EditsHarmless(content, i + 1) else
      MatchFits(content, i);
      var m := found.value;
      (IsEffectivelyEmpty(m.body) ==> NothingSwallowed(m.body)) && EditsHarmless(content, i + |CatchText(m)|)
  }

  /** The replaced bodies that stop at a brace inside one of their own line comments. */
  ghost function CutComments(content: string, i: nat): nat
    requires i <= |content|
    decreases |content| - i
  {
    if i == |content| then 0 else
      var found := MatchHere(content[i..]);
      if found.None? then CutComments(content, i + 1) else
        MatchFits(content, i);
        var m := found.value;
        (if IsEffectivelyEmpty(m.body) && EndsInComment(m.body) then 1 else 0) + CutComments(content, i + |CatchText(m)|)
  }

  /** Then the depth falls by one for each body cut short inside a comment, and by nothing else. */
  lemma {:induction false} HarmlessHideBraces(content: string, i: nat)
    requires i <= |content| && EditsHarmless(content, i)
    ensures HiddenDepth(content, i) == CutComments(content, i)
    decreases |content| - i
  {
    hide MatchHere, IsEffectivelyEmpty, NothingSwallowed, CatchText, BodyDepth, ValidCatch, EndsInCode, EndsInComment;
    if i < |content| {
      var found := MatchHere(content[i..]);
      if found.None? {
        HarmlessHideBraces(content, i + 1);
      } else {
        MatchFits(content, i);
        HarmlessHideBraces(content, i + |CatchText(found.value)|);
        if IsEffectivelyEmpty(found.value.body) {
          HarmlessBodyFlat(found.value.body);
          CommentNotCode(found.value.body);
        }
      }
    }
  }

  datatype Outcome = NoChanges | Refused | Fixed(content: string)

  /** `processFile`, restricted to the catch rewrite: the balance guard before the write. */
  method ProcessCatches(content: string, base: string, ignoreBalance: bool) returns (outcome: Outcome)
    ensures outcome.NoChanges? <==> Edits(content, 0) == 0
    ensures outcome.Fixed? ==> outcome.content == Rewritten(content, base, 0)
    ensures Edits(content, 0) > 0 ==>
              (outcome.Refused? <==> Depth(Lex(Rewritten(content, base, 0))) != 0 && !ignoreBalance)
    ensures EditsReadable(content, 0, Normal) && TransparentName(base) ==>
              (outcome.Refused? <==>
                 Edits(content, 0) > 0 && Depth(Lex(content)) != HiddenDepth(content, 0) && !ignoreBalance)
  {
    hide EditsReadable, TransparentName, Depth, Lex, HiddenDepth;
    var out, edits := RewriteCatches(content, base);
    var balanced := IsBalanced(out);
    if EditsReadable(content, 0, Normal) && TransparentName(base) { RewriteKeepsVerdict(content, base); }
    outcome := if edits == 0 then NoChanges else if !balanced && !ignoreBalance then Refused else Fixed(out);
  }

  // ---------------------------------------------------------------------------------------
  // A brace in a comment
  // ---------------------------------------------------------------------------------------

  /** A catch block whose comment mentions a brace pair: the match stops inside the comment. */
  const CUT := Catch("", " ", " ", NoBinder, "", "// {x")

  const CUT_FILE := "{" + ("} catch {// {x}" + "\n}")

  /** This balanced file is refused: the rewriting takes the brace in the comment for the block's own. */
  lemma CommentBraceRefused(base: string)
    requires TransparentName(base)
    ensures Depth(Lex(CUT_FILE)) == 0 && Edits(CUT_FILE, 0) == 1
    ensures Depth(Lex(Rewritten(CUT_FILE, base, 0))) == -1
  {
    hide Run, Lex, Depth, EditsReadable, HiddenDepth, TransparentName, Edits, Rewritten;
    CutFileBalanced();
    BalancedByAutomaton(CUT_FILE);
    CutFileEdits();
    RewriteKeepsVerdict(CUT_FILE, base);
  }

  lemma CutBody()
    ensures ValidCatch(CUT) && CatchText(CUT) == "} catch {// {x}" && IsEffectivelyEmpty(CUT.body)
    ensures EndsInComment(CUT.body) && BodyDepth(CUT.body) == 0 && !EndsInCode(CUT.body)
  {
    CutValid();
    CutEmpty();
    CutRun();
  }

  lemma CutValid()
    ensures ValidCatch(CUT) && CatchText(CUT) == "} catch {// {x}"
  {
    hide IsSpace;
    SpaceIsSpace();
    assert Head(CUT) == "} catch {";
  }

  lemma CutEmpty()
    ensures IsEffectivelyEmpty(CUT.body)
  {
    hide IsEffectivelyEmpty, StripBlocks;
    var w := "// {x";
    LastCommentExact(w);
    CutStripped();
  }

  lemma CutStripped()
    ensures StripBlocks("// {x") == "// {x"
  {
    var w := "// {x";
    assert w[1..] == "/ {x" && w[2..] == " {x" && w[3..] == "{x" && w[4..] == "x" && w[5..] == "";
    assert StripBlocks("x") == "x" && StripBlocks("{x") == "{x" && StripBlocks(" {x") == " {x" && StripBlocks("/ {x") == "/ {x";
  }

  lemma {:induction false} CutRun()
    ensures Run(Config(Normal, 0), CUT.body) == Config(Line, 0)
  {
    var w := CUT.body;
    RunTwo(Config(Normal, 0), w);
    assert w[2..] == " {x" && " {x"[1..] == "{x" && "{x"[1..] == "x" && "x"[1..] == "";
  }

  lemma {:induction false} CutFileBalanced()
    ensures Run(Config(Normal, 0), CUT_FILE) == Config(Normal, 0)
  {
    hide Run, ValidCatch, CatchText, IsEffectivelyEmpty, EndsInCode, EndsInComment, BodyDepth, CUT;
    var tail := "} catch {// {x}" + "\n}";
    CutBody();
    RunPlainThen(Normal, 0, '{', tail);
    RunConcat(Config(Normal, 1), "} catch {// {x}", "\n}");
    MatchEnds(Config(Normal, 1), CUT);
    AfterComment();
  }

  lemma {:induction false} AfterComment()
    ensures Run(Config(Line, 1), "\n}") == Config(Normal, 0)
  {
    hide Run;
    assert "\n}" == ['\n'] + "}";
    RunConcat(Config(Line, 1), ['\n'], "}");
    RunChar(Config(Line, 1), '\n');
    RunChar(Config(Normal, 1), '}');
  }

  lemma CutFileEdits()
    ensures Edits(CUT_FILE, 0) == 1 && HiddenDepth(CUT_FILE, 0) == 1 && EditsReadable(CUT_FILE, 0, Normal)
  {
    hide Run, MatchHere, IsEffectivelyEmpty, CatchText, ValidCatch, EndsInCode, EndsInComment, BodyDepth, QuietLine;
    var t := CUT_FILE;
    CutBody();
    CutPieces();
    CutMatches();
    CutLineQuiet();
    RunShift(Normal, 0, CatchText(CUT));
    MatchEnds(Config(Normal, 0), CUT);
    assert EditsReadable(t, 18, Normal);
    assert EditsReadable(t, 17, Normal) && HiddenDepth(t, 17) == 0 && Edits(t, 17) == 0;
    assert EditsReadable(t, 16, Line) && HiddenDepth(t, 16) == 0 && Edits(t, 16) == 0;
    assert EditsReadable(t, 1, Normal) && HiddenDepth(t, 1) == 1 && Edits(t, 1) == 1;
  }

  lemma CutPieces()
    ensures |CUT_FILE| == 18 && CUT_FILE[0] == '{' && CUT_FILE[16] == '\n' && CUT_FILE[17] == '}'
    ensures CUT_FILE[1..] == "} catch {// {x}" + "\n}" && CUT_FILE[16..] == "\n}" && CUT_FILE[17..] == "}"
  {
  }

  lemma CutMatches()
    ensures MatchHere(CUT_FILE[0..]).None? && MatchHere(CUT_FILE[1..]) == Some(CUT)
    ensures MatchHere(CUT_FILE[16..]).None? && MatchHere(CUT_FILE[17..]).None?
  {
    CutPieces();
    CutValid();
    MatchComplete(CUT, "\n}");
    assert "}"[1..] == "";
  }

  lemma CutLineQuiet()
    ensures QuietLine(CUT_FILE[16..])
  {
    CutPieces();
    assert UntilNewline("\n}") == 0;
  }

  // ---------------------------------------------------------------------------------------
  // A bracket that is lost
  // ---------------------------------------------------------------------------------------

  const COMMENT := "// /*\n"

  /** A regular expression with a bracket in it, and an empty comment. */
  const MATCHER := "/[(]/.test(s)/**/"

  const HIDING := Catch("", " ", " ", NoBinder, "", COMMENT + MATCHER)

  /**
   Both conditions matter: this match starts and ends in code and its body counts as empty, yet the
   body holds a bracket, so the edit lowers the depth by one.
   */
  lemma HiddenBracketLost(base: string, line: nat)
    requires TransparentName(base)
    ensures ValidCatch(HIDING) && IsEffectivelyEmpty(HIDING.body) && EndsInCode(HIDING.body)
    ensures Run(Config(Normal, 0), CatchText(HIDING)).depth == 0
    ensures Run(Config(Normal, 0), Replacement(HIDING, base, line)).depth == -1
  {
    hide Replacement, TransparentName, IsEffectivelyEmpty, Run, CatchText, ValidCatch, EndsInCode, BodyDepth, HIDING;
    HidingValid();
    HidingBody();
    MatchEnds(Config(Normal, 0), HIDING);
    ReplacementRun(Config(Normal, 0), HIDING, base, line);
  }

  lemma HidingBody()
    ensures IsEffectivelyEmpty(HIDING.body) && EndsInCode(HIDING.body) && BodyDepth(HIDING.body) == 1
  {
    hide IsEffectivelyEmpty, Run;
    MatcherSwallowed();
    SwallowedCode(MATCHER);
    HiddenBracketRun();
  }

  lemma HidingValid()
    ensures ValidCatch(HIDING)
  {
    hide IsSpace;
    assert All(COMMENT, NotBrace) && All(MATCHER, NotBrace);
    SpaceIsSpace();
  }

  lemma SpaceIsSpace()
    ensures IsSpace(' ')
  {
  }

  lemma MatcherSwallowed()
    ensures HasClose(MATCHER) && BlockEnd(MATCHER) == |MATCHER|
  {
    assert MATCHER == "/[(]/.test(s)/" + "**/";
    SkipToStar("/[(]/.test(s)/", "**/");
    assert "**/"[1..] == "*/";
  }

  lemma {:induction false} HiddenBracketRun()
    ensures Run(Config(Normal, 0), HIDING.body) == Config(Normal, 1)
  {
    hide Run;
    var k := Config(Normal, 0);
    var r4 := "s" + (")" + "/**/");
    var r3 := ".test" + ("(" + r4);
    var r2 := "]" + ("/" + r3);
    var r1 := "[" + ("(" + r2);
    assert MATCHER == "/" + r1;
    RunComment();
    RunConcat(k, COMMENT, MATCHER);
    RunConcat(k, "/", r1);
    RunChar(k, '/');
    RunPlainThen(Slash, 0, '[', "(" + r2);
    RunPlainThen(Normal, 1, '(', r2);
    RunPlainThen(Normal, 2, ']', "/" + r3);
    RunConcat(Config(Normal, 1), "/", r3);
    RunChar(Config(Normal, 1), '/');
    SlashForgotten(Config(Slash, 1), r3);
    TestQuiet();
    RunQuietThen(1, ".test", "(" + r4);
    RunPlainThen(Normal, 1, '(', r4);
    RunQuietThen(2, "s", ")" + "/**/");
    RunPlainThen(Normal, 2, ')', "/**/");
    RunEmptyComment();
  }

  lemma TestQuiet()
    ensures All(".test", Quiet) && All("s", Quiet)
  {
  }

  lemma {:induction false} RunComment()
    ensures Run(Config(Normal, 0), COMMENT) == Config(Normal, 0)
  {
    hide Run;
    RunTwo(Config(Normal, 0), COMMENT);
    var u := " /*\n";
    assert COMMENT[2..] == u;
    assert u[1..] == "/*\n" && u[1..][1..] == "*\n" && u[1..][1..][1..] == "\n" && "\n"[1..] == [];
    assert LineEnd("\n") == 1 && LineEnd("*\n") == 2 && LineEnd("/*\n") == 3 && LineEnd(u) == 4;
    assert u[..LineEnd(u)] == u;
    LineRun(0, u);
    RunLine(u);
  }

  lemma {:induction false} RunLine(u: string)
    requires u == " /*\n"
    ensures Run(Config(Line, 0), u).state == Normal
  {
    RunConcat(Config(Line, 0), " /*", "\n");
    assert " /*" + "\n" == u;
    RunTwo(Config(Line, 0), " /*");
  }

  lemma {:induction false} RunEmptyComment()
    ensures Run(Config(Normal, 1), "/**/") == Config(Normal, 1)
  {
    RunTwo(Config(Normal, 1), "/**/");
    assert "/**/"[2..] == "*/";
    RunTwo(Config(Block, 1), "*/");
  }
}
