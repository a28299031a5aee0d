/**
 `rewriteCatches` over its own output (scripts/apply-besteffort-fixes.ts): when a second pass finds
 nothing left to edit, told exactly from the file name that is pasted in.
 */
module RewriteSettles {
  import opened Wrappers
  import opened Sequences
  import opened JsText
  import opened Balance
  import opened EmptyBody
  import opened CatchRewrite

  // ---------------------------------------------------------------------------------------
  // What an edit leaves behind is itself a match, with a body that is not empty
  // ---------------------------------------------------------------------------------------

  /** The body an edit writes, with `q` where the quoted text begins. */
  function Body(m: Catch, q: string): string {
    var pad := if m.indent == [] then "  " else m.indent;
    Marker(m) + ("\n" + (m.indent + (pad + ("reportSilentFailure(" + (NameOf(m) + (", '" + q))))))
  }

  /** The catch block of that body. */
  function Reported(m: Catch, q: string): Catch {
    Catch(m.indent, " ", " ", Binder("", NameOf(m), ""), " ", Body(m, q))
  }

  /** What an edit writes after the file name `s`, up to the closing brace. */
  function Tail(s: string, line: nat, indent: string): string { s + (":" + (Decimal(line) + ("');\n" + indent))) }

  lemma ReportedHead(m: Catch, q: string)
    ensures Head(Reported(m, q)) == NewHead(m)
  {
    var name := NameOf(m);
    assert BinderText(Binder("", name, "")) == "(" + (name + ")");
    assert "}" + (" " + (CATCH + (" " + (("(" + (name + ")")) + (" " + "{"))))) == "} catch (" + (name + ") {");
  }

  /** An edit leaves such a block behind, with the whole quoted text. */
  lemma ReportedText(m: Catch, base: string, line: nat)
    ensures CatchText(Reported(m, Tail(base, line, m.indent))) == Replacement(m, base, line)
  {
    hide Head, NewHead, Marker, Decimal, NameOf;
    ReportedHead(m, Tail(base, line, m.indent));
    Assoc(Marker(m), ReportCall(m, base, line), "}");
  }

  /** With a closing brace in the name, the block ends at it and the rest of the report stands behind. */
  lemma CutText(m: Catch, p: string, s: string, line: nat)
    ensures Replacement(m, p + "}" + s, line) == CatchText(Reported(m, p)) + (Tail(s, line, m.indent) + "}")
  {
    hide Head, Marker, Decimal, NameOf, Replacement, Body;
    var u := Tail(s, line, m.indent);
    ReportedText(m, p + "}" + s, line);
    ReportedHead(m, p);
    ReportedHead(m, Tail(p + "}" + s, line, m.indent));
    TailBehind(p + "}", s, line, m.indent);
    BodyBehind(m, p, "}" + u);
    Assoc(p, "}", u);
    var b := Body(m, p);
    Assoc(b, "}", u);
    Assoc(b + "}", u, "}");
    Assoc(NewHead(m), b + "}", u + "}");
  }

  lemma TailBehind(p: string, s: string, line: nat, indent: string)
    ensures Tail(p + s, line, indent) == p + Tail(s, line, indent)
  {
    hide Decimal;
  }

  lemma BodyBehind(m: Catch, p: string, u: string)
    ensures Body(m, p + u) == Body(m, p) + u
  {
    hide Marker, NameOf;
    var pad := if m.indent == [] then "  " else m.indent;
    var quoted := ", '" + p;
    var call := "reportSilentFailure(" + (NameOf(m) + quoted);
    Assoc(", '", p, u);
    Assoc(NameOf(m), quoted, u);
    Assoc("reportSilentFailure(", NameOf(m) + quoted, u);
    Assoc(pad, call, u);
    Assoc(m.indent, pad + call, u);
    Assoc("\n", m.indent + (pad + call), u);
    Assoc(Marker(m), "\n" + (m.indent + (pad + call)), u);
  }

  lemma {:induction false} DigitsNotBrace(n: nat)
    ensures All(Decimal(n), NotBrace)
  {
    if n >= 10 { DigitsNotBrace(n / 10); }
  }

  lemma AllConcat(a: string, b: string, p: char -> bool)
    requires All(a, p) && All(b, p)
    ensures All(a + b, p)
  {
  }

  lemma ReportedValid(m: Catch, q: string)
    requires ValidCatch(m) && '}' !in q
    ensures ValidCatch(Reported(m, q))
  {
    hide MentionsBestEffort;
    var pad := if m.indent == [] then "  " else m.indent;
    var v := ", '" + q;
    AllConcat(", '", q, NotBrace);
    var w := m.indent + (pad + ("reportSilentFailure(" + (NameOf(m) + v)));
    AllConcat(NameOf(m), v, NotBrace);
    AllConcat("reportSilentFailure(", NameOf(m) + v, NotBrace);
    AllConcat(pad, "reportSilentFailure(" + (NameOf(m) + v), NotBrace);
    AllConcat(m.indent, pad + ("reportSilentFailure(" + (NameOf(m) + v)), NotBrace);
    AllConcat("\n", w, NotBrace);
    AllConcat(Marker(m), "\n" + w, NotBrace);
  }

  lemma TailPlain(s: string, line: nat, indent: string)
    requires '}' !in s && All(indent, IsBlank)
    ensures '}' !in Tail(s, line, indent)
  {
    hide Decimal;
    DigitsNotBrace(line);
    assert forall c :: IsBlank(c) ==> NotBrace(c);
    AllConcat("');\n", indent, NotBrace);
    AllConcat(Decimal(line), "');\n" + indent, NotBrace);
    AllConcat(":", Decimal(line) + ("');\n" + indent), NotBrace);
    AllConcat(s, ":" + (Decimal(line) + ("');\n" + indent)), NotBrace);
  }

  lemma {:induction false} SpacesKept(a: string, b: string)
    requires All(a, IsSpace)
    ensures IsEffectivelyEmpty(a + b) <==> IsEffectivelyEmpty(b)
  {
    hide IsSpace, IsEffectivelyEmpty;
    if a == [] {
      assert a + b == b;
    } else {
      assert (a + b)[1..] == a[1..] + b;
      SlashIsNotSpace();
      KeptCharacter(a + b);
      SpacesKept(a[1..], b);
    }
  }

  lemma {:induction false} ClosesAt(a: string, rest: string)
    requires All(a, NotStar)
    ensures var t := a + ("*/" + rest);
            HasClose(t) && BlockEnd(t) == |a| + 2 && t[|a| + 2..] == rest
  {
    var t := a + ("*/" + rest);
    if a == [] {
      assert t == "*/" + rest;
    } else {
      assert t[1..] == a[1..] + ("*/" + rest);
      ClosesAt(a[1..], rest);
    }
  }

  lemma BlockLength(t: string)
    requires StartsWith(t, '/', '*')
    ensures TokenLength(t) == 2 + BlockEnd(t[2..])
  {
  }

  /** The marker comment is removed whole. */
  lemma MarkerVanishes(rest: string)
    ensures IsEffectivelyEmpty(" /* best-effort */" + rest) <==> IsEffectivelyEmpty(rest)
  {
    hide IsEffectivelyEmpty, HasClose, BlockEnd, TokenLength, IsSpace;
    var inner := " best-effort ";
    var t := "/*" + (inner + ("*/" + rest));
    ClosesAt(inner, rest);
    assert t[2..] == inner + ("*/" + rest);
    ClosedBlockVanishes(t);
    BlockLength(t);
    assert t[|inner| + 4..] == rest;
    BlankIsSpace();
    assert " /* best-effort */" + rest == " " + t;
    SpacesKept(" ", t);
  }

  lemma BlankIsSpace()
    ensures forall c :: IsBlank(c) ==> IsSpace(c)
    ensures IsSpace(' ') && IsSpace('\n') && !IsSpace('r')
  {
  }

  lemma ReportedNotEmpty(m: Catch, q: string)
    requires ValidCatch(m)
    ensures !IsEffectivelyEmpty(Body(m, q))
  {
    hide IsEffectivelyEmpty, IsSpace, MentionsBestEffort, IsBlank;
    var pad := if m.indent == [] then "  " else m.indent;
    var call := "reportSilentFailure(" + (NameOf(m) + (", '" + q));
    BlankIsSpace();
    if MentionsBestEffort(m.body) {
      MarkerVanishes("\n" + (m.indent + (pad + call)));
    } else {
      assert Body(m, q) == "\n" + (m.indent + (pad + call));
    }
    SpacesKept("\n", m.indent + (pad + call));
    SpacesKept(m.indent, pad + call);
    SpacesKept(pad, call);
    assert call[0] == 'r';
    KeptCharacter(call);
  }

  // ---------------------------------------------------------------------------------------
  // No match appears where there was none
  // ---------------------------------------------------------------------------------------

  /** A head with a closing brace anywhere behind it is a match. */
  lemma HeadThenBrace(t: string, m: Catch, k: nat)
    requires ValidCatch(m) && Head(m) <= t && |Head(m)| <= k < |t| && t[k] == '}'
    ensures MatchHere(t).Some?
  {
    hide MatchHere, Head, ValidCatch, Span;
    var u := t[|Head(m)|..];
    var body, rest := TextThenBrace(u, k - |Head(m)|);
    var c := m.(body := body);
    ValidWithBody(m, body);
    HeadIgnoresBody(m, body);
    assert t == Head(m) + u;
    Assoc(body, "}", rest);
    Assoc(Head(m), body + "}", rest);
    MatchComplete(c, rest);
  }

  lemma TextThenBrace(u: string, k: nat) returns (body: string, rest: string)
    requires k < |u| && u[k] == '}'
    ensures u == body + ("}" + rest) && All(body, NotBrace)
  {
    var n := Span(u, NotBrace);
    body, rest := u[..n], u[n + 1..];
  }

  lemma ValidWithBody(m: Catch, body: string)
    requires ValidCatch(m) && All(body, NotBrace)
    ensures ValidCatch(m.(body := body))
  {
  }

  lemma HeadIgnoresBody(m: Catch, body: string)
    ensures Head(m.(body := body)) == Head(m)
  {
  }

  /** A text that agrees with a matching one up to a closing brace matches too, or is blank up to it. */
  lemma SharedHead(t: string, u: string, n: nat)
    requires n < |t| && n < |u| && t[..n + 1] == u[..n + 1] && t[n] == '}'
    requires MatchHere(u).Some?
    ensures MatchHere(t).Some? || All(t[..n], IsBlank)
  {
    hide MatchHere, Head, IsSpace, IsBlank;
    MatchSound(u);
    var m := MatchHere(u).value;
    HeadBraces(m);
    var h := Head(m);
    assert h <= u;
    if |h| <= n {
      HeadThenBrace(t, m, n);
    } else {
      assert h[n] == u[n];
      assert t[..n] == u[..n] == h[..n] == m.indent;
    }
  }

  /** Blanks before a match belong to it. */
  lemma BlanksExtend(a: string, t: string)
    requires All(a, IsBlank) && MatchHere(t).Some?
    ensures MatchHere(a + t).Some?
  {
    hide MatchHere, IsBlank, IsSpace;
    MatchSound(t);
    var m := MatchHere(t).value;
    var rest := t[|CatchText(m)|..];
    var c := m.(indent := a + m.indent);
    CatchSpread(m, rest);
    CatchSpread(c, rest);
    assert a + t == CatchText(c) + rest;
    MatchComplete(c, rest);
  }

  /** Two texts agree up to the closing brace, at `n`, of a match that starts at `q` in the first. */
  predicate AgreeUpTo(t: string, r: string, q: nat, n: nat) {
    && q <= n < |t| && n < |r| && t[..n + 1] == r[..n + 1] && t[n] == '}'
    && MatchHere(t[q..]).Some? && q + |MatchHere(t[q..]).value.indent| == n
  }

  lemma AgreeLater(p: string, t: string, r: string, q: nat, n: nat)
    requires AgreeUpTo(t, r, q, n)
    ensures AgreeUpTo(p + t, p + r, |p| + q, |p| + n)
  {
    hide MatchHere;
    assert (p + t)[|p| + q..] == t[q..];
    assert (p + t)[..|p| + n + 1] == p + t[..n + 1];
    assert (p + r)[..|p| + n + 1] == p + r[..n + 1];
  }

  /** Where the rewriting of the rest first differs: at a match, and not before its closing brace. */
  lemma {:induction false} FirstEdit(content: string, base: string, i: nat) returns (q: Option<nat>, n: nat)
    requires i <= |content|
    ensures q.None? ==> Rewritten(content, base, i) == content[i..]
    ensures q.Some? ==> AgreeUpTo(content[i..], Rewritten(content, base, i), q.value, n)
    decreases |content| - i
  {
    hide MatchHere, IsEffectivelyEmpty, CatchText, Replacement, LineOf, ValidCatch, AgreeUpTo;
    if i == |content| { return None, 0; }
    var found := MatchHere(content[i..]);
    var p, j := [content[i]], i + 1;
    if found.Some? {
      MatchFits(content, i);
      p, j := CatchText(found.value), i + |CatchText(found.value)|;
      if IsEffectivelyEmpty(found.value.body) {
        EditShares(content, base, i);
        return Some(0), |found.value.indent|;
      }
    }
    assert content[i..] == p + content[j..];
    q, n := FirstEdit(content, base, j);
    if q.Some? {
      AgreeLater(p, content[j..], Rewritten(content, base, j), q.value, n);
      q, n := Some(|p| + q.value), |p| + n;
    }
  }

  lemma EditShares(content: string, base: string, i: nat)
    requires i < |content| && MatchHere(content[i..]).Some?
    requires IsEffectivelyEmpty(MatchHere(content[i..]).value.body)
    ensures AgreeUpTo(content[i..], Rewritten(content, base, i), 0, |MatchHere(content[i..]).value.indent|)
  {
    hide MatchHere, IsEffectivelyEmpty, LineOf, ValidCatch;
    MatchFits(content, i);
    var t, m := content[i..], MatchHere(content[i..]).value;
    BothOpen(m, base, LineOf(content, i));
    var r := Replacement(m, base, LineOf(content, i));
    assert t[..|CatchText(m)|] == CatchText(m);
    assert r <= Rewritten(content, base, i);
    assert t[0..] == t;
    var head := m.indent + "}";
    assert t[..|m.indent| + 1] == head && r[..|m.indent| + 1] == head;
  }

  lemma BothOpen(m: Catch, base: string, line: nat)
    ensures m.indent + "}" <= CatchText(m) && m.indent + "}" <= Replacement(m, base, line)
  {
  }

  lemma NoNewMatch(content: string, base: string, i: nat)
    requires i < |content| && MatchHere(content[i..]).None?
    ensures MatchHere([content[i]] + Rewritten(content, base, i + 1)).None?
  {
    hide MatchHere, Rewritten, IsBlank;
    var t, u := content[i..], [content[i]] + Rewritten(content, base, i + 1);
    assert t == [content[i]] + content[i + 1..];
    var q, n := FirstEdit(content, base, i + 1);
    if q.Some? && MatchHere(u).Some? {
      AgreeLater([content[i]], content[i + 1..], Rewritten(content, base, i + 1), q.value, n);
      SharedHead(t, u, n + 1);
      var a := t[..q.value + 1];
      assert forall k :: 0 <= k < |a| ==> a[k] == t[..n + 1][k];
      assert t == a + t[q.value + 1..];
      BlanksExtend(a, t[q.value + 1..]);
    }
  }

  // ---------------------------------------------------------------------------------------
  // A second pass
  // ---------------------------------------------------------------------------------------

  /** Counting edits from an offset is counting them in the rest of the text. */
  lemma {:induction false} EditsOfRest(content: string, i: nat, j: nat)
    requires i <= j <= |content|
    ensures Edits(content, j) == Edits(content[i..], j - i)
    decreases |content| - j
  {
    hide MatchHere, IsEffectivelyEmpty, CatchText, ValidCatch;
    assert content[i..][j - i..] == content[j..];
    if j < |content| {
      if MatchHere(content[j..]).None? {
        EditsOfRest(content, i, j + 1);
      } else {
        MatchFits(content, j);
        EditsOfRest(content, i, j + |CatchText(MatchHere(content[j..]).value)|);
      }
    }
  }

  /** A match whose body is not empty is stepped over. */
  lemma StepOver(m: Catch, rest: string)
    requires ValidCatch(m) && !IsEffectivelyEmpty(m.body)
    ensures Edits(CatchText(m) + rest, 0) == Edits(rest, 0)
  {
    hide MatchHere, IsEffectivelyEmpty, ValidCatch, CatchText;
    var r := CatchText(m) + rest;
    MatchComplete(m, rest);
    assert r[0..] == r && r[|CatchText(m)|..] == rest;
    MatchFits(r, 0);
    EditsOfRest(r, |CatchText(m)|, |CatchText(m)|);
  }

  /** A pass that counts no edit returns its input. */
  lemma {:induction false} NothingRewritten(content: string, base: string, i: nat)
    requires i <= |content| && Edits(content, i) == 0
    ensures Rewritten(content, base, i) == content[i..]
    decreases |content| - i
  {
    hide MatchHere, IsEffectivelyEmpty, CatchText, Replacement, LineOf, ValidCatch;
    if i < |content| {
      var found := MatchHere(content[i..]);
      if found.None? {
        NothingRewritten(content, base, i + 1);
      } else {
        MatchFits(content, i);
        var j := i + |CatchText(found.value)|;
        NothingRewritten(content, base, j);
        assert content[i..] == content[i..j] + content[j..];
      }
    }
  }

  // ---------------------------------------------------------------------------------------
  // Closing braces in the file name
  // ---------------------------------------------------------------------------------------

  lemma MatchLength(t: string)
    requires MatchHere(t).Some?
    ensures var c := CatchText(MatchHere(t).value); 0 < |c| <= |t| && t == c + t[|c|..] && ValidCatch(MatchHere(t).value)
  {
    hide MatchHere, CatchText, ValidCatch;
    assert t[0..] == t;
    MatchFits(t, 0);
    Split(t, |CatchText(MatchHere(t).value)|);
  }

  lemma EditsStep(t: string)
    requires t != []
    ensures MatchHere(t).None? ==> Edits(t, 0) == Edits(t[1..], 0)
    ensures MatchHere(t).Some? ==>
              var m := MatchHere(t).value;
              && |CatchText(m)| <= |t|
              && Edits(t, 0) == (if IsEffectivelyEmpty(m.body) then 1 else 0) + Edits(t[|CatchText(m)|..], 0)
  {
    hide MatchHere, CatchText, ValidCatch, IsEffectivelyEmpty;
    assert t[0..] == t;
    if MatchHere(t).None? {
      EditsOfRest(t, 1, 1);
    } else {
      MatchLength(t);
      EditsOfRest(t, |CatchText(MatchHere(t).value)|, |CatchText(MatchHere(t).value)|);
    }
  }

  /** Scanning the text for matches, its last character belongs to one. */
  predicate Swallowed(t: string)
    decreases |t|
  {
    t != [] &&
    var found := MatchHere(t);
    if found.None? then Swallowed(t[1..]) else
      MatchLength(t);
      var n := |CatchText(found.value)|;
      n == |t| || Swallowed(t[n..])
  }

  ghost predicate EndsInBrace(t: string) { t != [] && t[|t| - 1] == '}' }

  /** More text behind a final brace changes a match before it only if the brace itself starts one. */
  lemma MatchBehind(t: string, r: string)
    requires EndsInBrace(t)
    ensures MatchHere(t).Some? ==> MatchHere(t + r) == MatchHere(t)
    ensures MatchHere(t).None? && MatchHere(t + r).Some? ==> All(t[..|t| - 1], IsBlank)
  {
    hide MatchHere, CatchText, ValidCatch, IsBlank;
    if MatchHere(t).Some? {
      var m := MatchHere(t).value;
      MatchLength(t);
      var n := |CatchText(m)|;
      Assoc(CatchText(m), t[n..], r);
      MatchComplete(m, t[n..] + r);
    } else if MatchHere(t + r).Some? {
      assert (t + r)[..|t|] == t[..|t|];
      SharedHead(t, t + r, |t| - 1);
    }
  }

  /** A match holds two closing braces. */
  lemma BraceBeforeLast(t: string) returns (k: nat)
    requires MatchHere(t).Some?
    ensures k < |t| - 1 && t[k] == '}'
  {
    hide MatchHere, Head, ValidCatch;
    MatchSound(t);
    var m := MatchHere(t).value;
    HeadBraces(m);
    k := |m.indent|;
    assert CatchText(m)[k] == '}' && k + 1 < |CatchText(m)|;
  }

  /** So a text whose only closing brace is its last character holds none. */
  lemma {:induction false} LoneBrace(t: string)
    requires forall k :: 0 <= k < |t| - 1 ==> t[k] != '}'
    ensures !Swallowed(t) && Edits(t, 0) == 0
    decreases |t|
  {
    hide MatchHere;
    if t != [] {
      if MatchHere(t).Some? { var k := BraceBeforeLast(t); }
      EditsStep(t);
      LoneBrace(t[1..]);
    }
  }

  /** When the last brace is swallowed, what stands behind is scanned by itself. */
  lemma {:induction false} SwallowedThen(t: string, r: string)
    requires EndsInBrace(t) && Swallowed(t)
    ensures Edits(t + r, 0) == Edits(t, 0) + Edits(r, 0)
    decreases |t|
  {
    hide MatchHere, CatchText, ValidCatch, IsEffectivelyEmpty, IsBlank;
    MatchBehind(t, r);
    EditsStep(t);
    EditsStep(t + r);
    if MatchHere(t).Some? {
      MatchLength(t);
      var n := |CatchText(MatchHere(t).value)|;
      assert (t + r)[n..] == t[n..] + r;
      if n == |t| { assert [] + r == r; } else { SwallowedThen(t[n..], r); }
    } else {
      assert (t + r)[1..] == t[1..] + r;
      if All(t[..|t| - 1], IsBlank) { BlanksNotSwallowed(t); }
      SwallowedThen(t[1..], r);
    }
  }

  lemma BlanksNotSwallowed(t: string)
    requires EndsInBrace(t) && All(t[..|t| - 1], IsBlank)
    ensures !Swallowed(t)
  {
    forall k | 0 <= k < |t| - 1 ensures t[k] != '}' { assert t[k] == t[..|t| - 1][k]; }
    LoneBrace(t);
  }

  const EMPTY_CATCH := Catch("", " ", " ", NoBinder, "", "")

  lemma EmptyCatch(indent: string, rest: string)
    requires All(indent, IsBlank)
    ensures var m := EMPTY_CATCH.(indent := indent);
            && ValidCatch(m) && CatchText(m) == indent + "} catch {}" && IsEffectivelyEmpty(m.body)
            && MatchHere(indent + "} catch {}" + rest) == Some(m)
  {
    hide MatchHere;
    var m := EMPTY_CATCH.(indent := indent);
    assert CatchText(m) == indent + "} catch {}";
    MatchComplete(m, rest);
  }

  const REST := " catch {}"

  /** When it is not, a catch behind it makes it the start of one more match. */
  lemma {:induction false} FreeThen(t: string)
    requires EndsInBrace(t) && !Swallowed(t)
    ensures Edits(t + REST, 0) > 0
    decreases |t|
  {
    hide MatchHere, CatchText, ValidCatch, IsEffectivelyEmpty, IsBlank, REST;
    MatchBehind(t, REST);
    EditsStep(t + REST);
    if MatchHere(t).Some? {
      MatchLength(t);
      var n := |CatchText(MatchHere(t).value)|;
      assert (t + REST)[n..] == t[n..] + REST;
      FreeThen(t[n..]);
    } else if MatchHere(t + REST).Some? {
      LastIsEmptyCatch(t);
    } else {
      if |t| == 1 { LastIsEmptyCatch(t); }
      assert (t + REST)[1..] == t[1..] + REST;
      FreeThen(t[1..]);
    }
  }

  lemma LastIsEmptyCatch(t: string)
    requires EndsInBrace(t) && All(t[..|t| - 1], IsBlank)
    ensures MatchHere(t + REST).Some? && IsEffectivelyEmpty(MatchHere(t + REST).value.body)
  {
    hide MatchHere, IsEffectivelyEmpty, CatchText, ValidCatch;
    var indent := t[..|t| - 1];
    EmptyCatch(indent, []);
    assert t + REST == indent + "} catch {}" + [];
  }

  /** The report that follows the first brace of the name: nothing in it is edited, and its last brace is taken. */
  predicate TailSettles(s: string, line: nat, indent: string) {
    Edits(Tail(s, line, indent) + "}", 0) == 0 && Swallowed(Tail(s, line, indent) + "}")
  }

  /** The name up to its first closing brace, and behind it. */
  function BeforeBrace(base: string): string { base[..Span(base, NotBrace)] }

  function AfterBrace(base: string): string
    requires '}' in base
  {
    base[Span(base, NotBrace) + 1..]
  }

  lemma NameSplits(base: string)
    requires '}' in base
    ensures base == BeforeBrace(base) + "}" + AfterBrace(base) && '}' !in BeforeBrace(base)
  {
    var n := Span(base, NotBrace);
    forall j | 0 <= j < n ensures base[j] != '}' { assert base[j] == base[..n][j]; }
    assert n < |base| && base[n] == '}';
  }

  /** A name without closing brace, or one whose part behind the first brace takes in the rest of every report. */
  ghost predicate NameSettles(base: string) {
    '}' in base ==> forall line: nat, indent :: line >= 1 && All(indent, IsBlank) ==> TailSettles(AfterBrace(base), line, indent)
  }

  /** One edit, scanned again. */
  lemma EditSettles(m: Catch, base: string, line: nat, rest: string)
    requires ValidCatch(m) && line >= 1 && NameSettles(base)
    ensures Edits(Replacement(m, base, line) + rest, 0) == Edits(rest, 0)
  {
    hide ValidCatch, IsEffectivelyEmpty, CatchText, Replacement, Edits, Body, Swallowed, Tail, IsBlank;
    IndentBlank(m);
    if '}' !in base {
      var q := Tail(base, line, m.indent);
      TailPlain(base, line, m.indent);
      ReportedText(m, base, line);
      ReportedValid(m, q);
      ReportedNotEmpty(m, q);
      StepOver(Reported(m, q), rest);
    } else {
      var p, t := BeforeBrace(base), Tail(AfterBrace(base), line, m.indent) + "}";
      EditCut(m, base, line, rest);
      assert TailSettles(AfterBrace(base), line, m.indent);
      SwallowedThen(t, rest);
    }
  }

  lemma IndentBlank(m: Catch)
    requires ValidCatch(m)
    ensures All(m.indent, IsBlank)
  {
  }

  /** With a brace in the name, the scan resumes behind that brace. */
  lemma EditCut(m: Catch, base: string, line: nat, rest: string)
    requires ValidCatch(m) && '}' in base
    ensures Edits(Replacement(m, base, line) + rest, 0) == Edits(Tail(AfterBrace(base), line, m.indent) + "}" + rest, 0)
  {
    hide ValidCatch, IsEffectivelyEmpty, CatchText, Replacement, Edits, Body, Tail;
    var p, t := BeforeBrace(base), Tail(AfterBrace(base), line, m.indent) + "}";
    NameSplits(base);
    CutText(m, p, AfterBrace(base), line);
    ReportedValid(m, p);
    ReportedNotEmpty(m, p);
    Assoc(CatchText(Reported(m, p)), t, rest);
    StepOver(Reported(m, p), t + rest);
  }

  lemma {:induction false} RestSettles(content: string, base: string, i: nat)
    requires i <= |content| && NameSettles(base)
    ensures Edits(Rewritten(content, base, i), 0) == 0
    decreases |content| - i
  {
    hide MatchHere, IsEffectivelyEmpty, CatchText, Replacement, ValidCatch, NameSettles;
    if i < |content| {
      var r, found := Rewritten(content, base, i), MatchHere(content[i..]);
      if found.None? {
        NoNewMatch(content, base, i);
        RestSettles(content, base, i + 1);
        assert r[0..] == r && r[1..] == Rewritten(content, base, i + 1);
        EditsOfRest(r, 1, 1);
      } else {
        MatchFits(content, i);
        var m, line := found.value, LineOf(content, i);
        var j := i + |CatchText(m)|;
        RestSettles(content, base, j);
        if IsEffectivelyEmpty(m.body) {
          EditSettles(m, base, line, Rewritten(content, base, j));
        } else {
          StepOver(m, Rewritten(content, base, j));
        }
      }
    }
  }

  // ---------------------------------------------------------------------------------------
  // A file that does not settle
  // ---------------------------------------------------------------------------------------

  function Newline(k: nat): string { seq(k, _ => '\n') }

  /** An empty catch block on the given line, with one more behind it. */
  function TwoCatches(line: nat, indent: string): string
    requires line >= 1
  {
    Newline(line - 1) + (indent + "} catch {}" + REST)
  }

  lemma NewlineNoMatch(t: string)
    requires t != [] && t[0] == '\n'
    ensures MatchHere(t).None?
  {
    hide MatchHere;
    if MatchHere(t).Some? { var n := MatchStart(t); }
  }

  lemma {:induction false} NewlinesCopied(k: nat, u: string, base: string, i: nat)
    requires i <= k
    ensures var content := Newline(k) + u;
            Rewritten(content, base, i) == Newline(k - i) + Rewritten(content, base, k)
    decreases k - i
  {
    hide MatchHere;
    var content := Newline(k) + u;
    if i < k {
      NewlineNoMatch(content[i..]);
      NewlinesCopied(k, u, base, i + 1);
      Assoc([content[i]], Newline(k - i - 1), Rewritten(content, base, k));
      assert [content[i]] + Newline(k - i - 1) == Newline(k - i);
    }
  }

  lemma {:induction false} NewlinesSkipped(k: nat, u: string)
    ensures Edits(Newline(k) + u, 0) == Edits(u, 0)
  {
    hide MatchHere, Edits;
    var r := Newline(k) + u;
    if k == 0 {
      assert r == u;
    } else {
      NewlineNoMatch(r);
      EditsStep(r);
      NewlinesSkipped(k - 1, u);
      assert r[1..] == Newline(k - 1) + u;
    }
  }

  lemma {:induction false} NewlinesCounted(k: nat)
    ensures Newlines(Newline(k)) == k
  {
    if k > 0 {
      NewlinesCounted(k - 1);
      assert Newline(k)[1..] == Newline(k - 1);
    }
  }

  /** The first pass edits the first of the two. */
  lemma FirstPass(line: nat, indent: string, base: string)
    requires line >= 1 && All(indent, IsBlank)
    ensures Rewritten(TwoCatches(line, indent), base, 0) ==
              Newline(line - 1) + (Replacement(EMPTY_CATCH.(indent := indent), base, line) + REST)
  {
    hide MatchHere, IsEffectivelyEmpty, CatchText, Replacement, ValidCatch, IsBlank;
    var k, u := line - 1, indent + "} catch {}" + REST;
    var content, m := Newline(k) + u, EMPTY_CATCH.(indent := indent);
    var n := k + |CatchText(m)|;
    EmptyCatch(indent, REST);
    NewlinesCopied(k, u, base, 0);
    NewlinesCounted(k);
    assert content[k..] == u && content[..k] == Newline(k) && content[n..] == REST;
    RestHasOneBrace();
    LastRewritten(content, base, n);
  }

  lemma RestHasOneBrace()
    ensures forall k :: 0 <= k < |REST| - 1 ==> REST[k] != '}'
  {
  }

  /** The rest of a text with no match in it stays. */
  lemma {:induction false} LastRewritten(content: string, base: string, i: nat)
    requires i <= |content| && forall k :: 0 <= k < |content[i..]| - 1 ==> content[i..][k] != '}'
    ensures Rewritten(content, base, i) == content[i..]
  {
    LoneBrace(content[i..]);
    EditsOfRest(content, i, i);
    NothingRewritten(content, base, i);
  }

  lemma SecondPassEdits(line: nat, indent: string, base: string)
    requires line >= 1 && All(indent, IsBlank) && '}' in base && !TailSettles(AfterBrace(base), line, indent)
    ensures Edits(Rewritten(TwoCatches(line, indent), base, 0), 0) > 0
  {
    hide IsEffectivelyEmpty, Replacement, ValidCatch, IsBlank, Edits, Rewritten, Swallowed, Tail, REST;
    var m, t := EMPTY_CATCH.(indent := indent), Tail(AfterBrace(base), line, indent) + "}";
    EmptyCatch(indent, []);
    FirstPass(line, indent, base);
    NewlinesSkipped(line - 1, Replacement(m, base, line) + REST);
    EditCut(m, base, line, REST);
    if Swallowed(t) { SwallowedThen(t, REST); } else { FreeThen(t); }
  }

  /** A second pass edits nothing on any file exactly when the name settles. */
  lemma SettlesExactly(base: string)
    ensures NameSettles(base) <==> forall content :: Edits(Rewritten(content, base, 0), 0) == 0
  {
    hide Edits, Rewritten, TailSettles, AfterBrace, IsBlank;
    if NameSettles(base) {
      forall content ensures Edits(Rewritten(content, base, 0), 0) == 0 { RestSettles(content, base, 0); }
    } else {
      var line: nat, indent :| line >= 1 && All(indent, IsBlank) && !TailSettles(AfterBrace(base), line, indent);
      SecondPassEdits(line, indent, base);
      assert Edits(Rewritten(TwoCatches(line, indent), base, 0), 0) > 0;
    }
  }

  /** A second pass, over what the first one wrote, then also returns it unchanged. */
  lemma SecondPassEditsNothing(content: string, base: string)
    requires '}' !in base
    ensures Edits(Rewritten(content, base, 0), 0) == 0
    ensures Rewritten(Rewritten(content, base, 0), base, 0) == Rewritten(content, base, 0)
  {
    RestSettles(content, base, 0);
    var r := Rewritten(content, base, 0);
    NothingRewritten(r, base, 0);
    assert r[0..] == r;
  }

  /** With exactly one closing brace the name never settles: this file is edited again. */
  lemma BraceReedits(p: string, s: string)
    requires '}' !in p && '}' !in s
    ensures Edits(Rewritten(TwoCatches(1, ""), p + "}" + s, 0), 0) > 0
  {
    hide Edits, Rewritten, Swallowed, Tail, TwoCatches;
    var base := p + "}" + s;
    NameSplits(base);
    OneSplit(p, s);
    var t := Tail(s, 1, "") + "}";
    TailPlain(s, 1, "");
    LoneBrace(t);
    SecondPassEdits(1, "", base);
  }

  lemma OneSplit(p: string, s: string)
    requires '}' !in p && '}' !in s
    ensures BeforeBrace(p + "}" + s) == p && AfterBrace(p + "}" + s) == s
  {
    Assoc(p, "}", s);
    SpanExact(p, "}" + s, NotBrace);
  }
}
