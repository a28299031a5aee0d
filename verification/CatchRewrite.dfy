/**
 `rewriteCatches` (scripts/apply-besteffort-fixes.ts): every catch block whose body counts as
 empty is replaced by one that reports the failure.

 The pattern leaves backtracking no choice: each repeated character class is followed by a
 character outside it. `MatchHere` therefore takes maximal runs.
 */
module CatchRewrite {
  import opened Wrappers
  import opened Sequences
  import opened JsText
  import opened EmptyBody

  // ---------------------------------------------------------------------------------------
  // The pattern
  // ---------------------------------------------------------------------------------------

  predicate IsBlank(c: char) { c == ' ' || c == '\t' }

  predicate IsWordChar(c: char) { 'a' <= c <= 'z' || 'A' <= c <= 'Z' || '0' <= c <= '9' || c == '_' }

  predicate IsNameStart(c: char) { 'a' <= c <= 'z' || 'A' <= c <= 'Z' || c == '_' || c == '$' }

  predicate IsNameChar(c: char) { IsWordChar(c) || c == '$' }

  predicate NotBrace(c: char) { c != '}' }

  /** Length of the longest prefix inside a character class. */
  function Span(t: string, p: char -> bool): (n: nat)
    ensures n <= |t| && All(t[..n], p) && (n < |t| ==> !p(t[n]))
  {
    if t != [] && p(t[0]) then 1 + Span(t[1..], p) else 0
  }

  datatype Binder = NoBinder | Binder(before: string, name: string, after: string)

  /** The pieces of one match. */
  datatype Catch = Catch(indent: string, gap: string, gapAfter: string, binder: Binder, gapBody: string, body: string)

  const CATCH := "catch"

  function BinderText(b: Binder): string {
    if b.NoBinder? then "" else "(" + (b.before + (b.name + (b.after + ")")))
  }

  function Head(m: Catch): string {
    m.indent + ("}" + (m.gap + (CATCH + (m.gapAfter + (BinderText(m.binder) + (m.gapBody + "{"))))))
  }

  function CatchText(m: Catch): string { Head(m) + (m.body + "}") }

  ghost predicate ValidBinder(b: Binder) {
    b.Binder? ==>
      && All(b.before, IsSpace) && All(b.after, IsSpace)
      && b.name != [] && IsNameStart(b.name[0]) && All(b.name, IsNameChar)
  }

  ghost predicate ValidCatch(m: Catch) {
    && All(m.indent, IsBlank)
    && m.gap != [] && All(m.gap, IsSpace)
    && All(m.gapAfter, IsSpace)
    && ValidBinder(m.binder)
    && All(m.gapBody, IsSpace) && (m.binder.NoBinder? ==> m.gapBody == [])
    && All(m.body, NotBrace)
  }

  /** The optional `( name )`; on no match nothing is consumed. */
  function TakeBinder(t: string): (Binder, string) {
    if t == [] || t[0] != '(' then (NoBinder, t) else
      var u := t[1..];
      var a := Span(u, IsSpace);
      var v := u[a..];
      if v == [] || !IsNameStart(v[0]) then (NoBinder, t) else
        var w := Span(v, IsNameChar);
        var x := v[w..];
        var b := Span(x, IsSpace);
        var y := x[b..];
        if y == [] || y[0] != ')' then (NoBinder, t) else (Binder(u[..a], v[..w], x[..b]), y[1..])
  }

  function TakeBody(t: string): Option<string> {
    if t == [] || t[0] != '{' then None else
      var n := Span(t[1..], NotBrace);
      if n == |t| - 1 then None else Some(t[1..][..n])
  }

  /** The binder, the space behind it and the body. */
  function TakeTail(t: string): Option<(Binder, string, string)> {
    var (binder, w) := TakeBinder(t);
    var k := if binder.NoBinder? then 0 else Span(w, IsSpace);
    var body := TakeBody(w[k..]);
    if body.None? then None else Some((binder, w[..k], body.value))
  }

  /** The keyword with the space around it, and what follows. */
  function TakeKeyword(u: string): Option<(string, string, string)> {
    var g := Span(u, IsSpace);
    if g == 0 || !(CATCH <= u[g..]) then None else
      var v := u[g..][5..];
      var h := Span(v, IsSpace);
      Some((u[..g], v[..h], v[h..]))
  }

  /** The match that starts at the beginning of `t`, if any. */
  function MatchHere(t: string): Option<Catch> {
    var n := Span(t, IsBlank);
    if n == |t| || t[n] != '}' then None else
      var keyword := TakeKeyword(t[n..][1..]);
      if keyword.None? then None else
        var tail := TakeTail(keyword.value.2);
        if tail.None? then None
        else Some(Catch(t[..n], keyword.value.0, keyword.value.1, tail.value.0, tail.value.1, tail.value.2))
  }

  lemma {:induction false} SpanExact(a: string, rest: string, p: char -> bool)
    requires All(a, p) && (rest == [] || !p(rest[0]))
    ensures Span(a + rest, p) == |a| && (a + rest)[..|a|] == a && (a + rest)[|a|..] == rest
    decreases |a|
  {
  }

  lemma Split(t: string, n: nat)
    requires n <= |t|
    ensures t == t[..n] + t[n..]
  {
  }

  lemma SplitFirst(t: string, c: char)
    requires t != [] && t[0] == c
    ensures t == [c] + t[1..]
  {
  }

  lemma BinderSpread(b: Binder, rest: string)
    requires b.Binder?
    ensures BinderText(b) + rest == "(" + (b.before + (b.name + (b.after + (")" + rest))))
  {
  }

  lemma BinderExact(b: Binder, rest: string)
    requires ValidBinder(b) && rest != [] && rest[0] != '('
    ensures TakeBinder(BinderText(b) + rest) == (b, rest)
  {
    hide IsSpace;
    var t := BinderText(b) + rest;
    if b.NoBinder? {
      assert t == rest;
    } else {
      var close := ")" + rest;
      var x := b.after + close;
      var v := b.name + x;
      BinderSpread(b, rest);
      assert t[1..] == b.before + v;
      BinderPieces(b, x, close);
      assert close[1..] == rest;
      hide ValidBinder, All, Span, IsNameStart, IsNameChar;
      assert TakeBinder(t) == (b, close[1..]);
    }
  }

  /** Each piece of a binder is the longest run of its class. */
  lemma BinderPieces(b: Binder, x: string, close: string)
    requires b.Binder? && ValidBinder(b) && close != [] && close[0] == ')' && x == b.after + close
    ensures var v := b.name + x;
            && Span(b.before + v, IsSpace) == |b.before| && (b.before + v)[..|b.before|] == b.before
            && (b.before + v)[|b.before|..] == v && v != [] && IsNameStart(v[0])
            && Span(v, IsNameChar) == |b.name| && v[..|b.name|] == b.name && v[|b.name|..] == x
            && Span(x, IsSpace) == |b.after| && x[..|b.after|] == b.after && x[|b.after|..] == close
  {
    var v := b.name + x;
    ClassesDisjoint();
    assert x[0] == if b.after == [] then ')' else b.after[0];
    assert v[0] == b.name[0];
    hide IsSpace;
    SpanExact(b.before, v, IsSpace);
    SpanExact(b.name, x, IsNameChar);
    SpanExact(b.after, close, IsSpace);
  }

  /** What follows each repeated class in the pattern lies outside it. */
  lemma ClassesDisjoint()
    ensures forall c :: IsSpace(c) ==> !IsNameChar(c) && c != '(' && c != ')' && c != '{' && c != '}'
    ensures forall c :: IsNameStart(c) ==> IsNameChar(c)
    ensures !IsNameChar(')') && !IsBlank('}') && !IsSpace('}') && !IsSpace('{') && !IsSpace('(') && !IsSpace(')') && !IsSpace('c')
  {
  }

  lemma {:induction false} BodyExact(body: string, rest: string)
    requires All(body, NotBrace)
    ensures TakeBody("{" + (body + ("}" + rest))) == Some(body)
  {
    var t := "{" + (body + ("}" + rest));
    assert t[1..] == body + ("}" + rest);
    SpanExact(body, "}" + rest, NotBrace);
  }

  /** A match followed by more text, regrouped from the right. */
  function Spread(m: Catch, after: string): string {
    m.indent + ("}" + (m.gap + (CATCH + (m.gapAfter + (BinderText(m.binder) + (m.gapBody + ("{" + after)))))))
  }

  lemma HeadSpread(m: Catch, after: string)
    ensures Head(m) + after == Spread(m, after)
  {
  }

  lemma CatchSpread(m: Catch, rest: string)
    ensures CatchText(m) + rest == Spread(m, m.body + ("}" + rest))
  {
  }

  lemma TailExact(m: Catch, rest: string)
    requires ValidCatch(m)
    ensures TakeTail(BinderText(m.binder) + (m.gapBody + ("{" + (m.body + ("}" + rest))))) ==
              Some((m.binder, m.gapBody, m.body))
  {
    hide IsSpace, IsNameChar, Span, TakeBinder, TakeBody, All, BinderText;
    var r6 := "{" + (m.body + ("}" + rest));
    var r5 := m.gapBody + r6;
    SpanAll(m);
    ClassesDisjoint();
    assert r5[0] != '(' by { if m.gapBody != [] { assert r5[0] == m.gapBody[0]; } }
    BinderExact(m.binder, r5);
    SpanExact(m.gapBody, r6, IsSpace);
    BodyExact(m.body, rest);
    if m.binder.NoBinder? { assert r5 == r6 && r5[..0] == [] && r5[0..] == r6; }
  }

  lemma KeywordExact(gap: string, gapAfter: string, w: string)
    requires gap != [] && All(gap, IsSpace) && All(gapAfter, IsSpace) && w != [] && !IsSpace(w[0])
    ensures TakeKeyword(gap + (CATCH + (gapAfter + w))) == Some((gap, gapAfter, w))
  {
    hide IsSpace, Span, All;
    ClassesDisjoint();
    SpanExact(gap, CATCH + (gapAfter + w), IsSpace);
    assert (CATCH + (gapAfter + w))[5..] == gapAfter + w;
    SpanExact(gapAfter, w, IsSpace);
  }

  /** Every text of the pattern's shape is matched, with exactly its pieces. */
  lemma {:induction false} MatchComplete(m: Catch, rest: string)
    requires ValidCatch(m)
    ensures MatchHere(CatchText(m) + rest) == Some(m)
  {
    hide IsSpace, IsBlank, IsNameChar, Span, TakeKeyword, TakeTail, All, Head, CatchText;
    var r4 := BinderText(m.binder) + (m.gapBody + ("{" + (m.body + ("}" + rest))));
    var r1 := m.gap + (CATCH + (m.gapAfter + r4));
    CatchSpread(m, rest);
    ClassesDisjoint();
    SpanExact(m.indent, "}" + r1, IsBlank);
    assert ("}" + r1)[1..] == r1;
    TailStart(m, rest);
    KeywordExact(m.gap, m.gapAfter, r4);
    TailExact(m, rest);
  }

  lemma TailStart(m: Catch, rest: string)
    requires ValidCatch(m)
    ensures var t := BinderText(m.binder) + (m.gapBody + ("{" + (m.body + ("}" + rest)))); t != [] && !IsSpace(t[0])
  {
    hide IsSpace;
    ClassesDisjoint();
  }

  lemma SpanAll(m: Catch)
    requires ValidCatch(m)
    ensures m.gapBody != [] ==> IsSpace(m.gapBody[0])
  {
  }

  lemma BinderSound(t: string)
    ensures var (b, rest) := TakeBinder(t); ValidBinder(b) && BinderText(b) + rest == t
  {
    hide IsSpace, IsNameChar, All, BinderText, Span;
    var (b, rest) := TakeBinder(t);
    if b.Binder? {
      var u := t[1..];
      var v := u[|b.before|..];
      var x := v[|b.name|..];
      var y := x[|b.after|..];
      SplitFirst(t, '(');
      Split(u, |b.before|);
      Split(v, |b.name|);
      Split(x, |b.after|);
      SplitFirst(y, ')');
      BinderSpread(b, rest);
      SpanStart(v);
    } else {
      NoBinderText(t);
    }
  }

  lemma NoBinderText(t: string)
    ensures BinderText(NoBinder) + t == t
  {
  }

  lemma SpanStart(v: string)
    requires v != [] && IsNameStart(v[0])
    ensures Span(v, IsNameChar) > 0
  {
  }

  lemma BodySound(t: string)
    requires TakeBody(t).Some?
    ensures All(TakeBody(t).value, NotBrace)
    ensures "{" + (TakeBody(t).value + "}") <= t
  {
  }

  lemma KeywordPieces(u: string)
    requires TakeKeyword(u).Some?
    ensures var (gap, gapAfter, w) := TakeKeyword(u).value;
            && u == gap + (CATCH + (gapAfter + w)) && gap != [] && All(gap, IsSpace) && All(gapAfter, IsSpace)
  {
    hide IsSpace, All, Span;
    var g := Span(u, IsSpace);
    var v := u[g..][5..];
    Split(u, g);
    Split(u[g..], 5);
    Split(v, Span(v, IsSpace));
  }

  lemma MatchPieces(t: string) returns (w: string)
    requires MatchHere(t).Some?
    ensures var m := MatchHere(t).value;
            && t == m.indent + ("}" + (m.gap + (CATCH + (m.gapAfter + w))))
            && TakeTail(w) == Some((m.binder, m.gapBody, m.body))
            && All(m.indent, IsBlank) && m.gap != [] && All(m.gap, IsSpace) && All(m.gapAfter, IsSpace)
  {
    hide IsSpace, IsBlank, TakeKeyword, TakeTail, All, Span;
    var n := |MatchHere(t).value.indent|;
    w := TakeKeyword(t[n..][1..]).value.2;
    Split(t, n);
    SplitFirst(t[n..], '}');
    KeywordPieces(t[n..][1..]);
  }

  lemma TailPieces(w: string) returns (y: string)
    requires TakeTail(w).Some?
    ensures var (binder, gapBody, body) := TakeTail(w).value;
            && BinderText(binder) + (gapBody + y) == w && ValidBinder(binder) && TakeBody(y) == Some(body)
            && All(gapBody, IsSpace) && (binder.NoBinder? ==> gapBody == [])
  {
    hide IsSpace, TakeBinder, TakeBody, BinderText, ValidBinder, Span;
    var (binder, x) := TakeBinder(w);
    BinderSound(w);
    y := x[|TakeTail(w).value.1|..];
    Split(x, |TakeTail(w).value.1|);
  }

  /** Whatever is matched has the pattern's shape and stands at the start of the text. */
  lemma {:induction false} MatchSound(t: string)
    ensures MatchHere(t).Some? ==> ValidCatch(MatchHere(t).value) && CatchText(MatchHere(t).value) <= t
  {
    hide MatchHere, IsSpace, IsBlank, IsNameChar, TakeTail, TakeBody, BinderText, Head, CatchText, All;
    if MatchHere(t).None? { return; }
    var m := MatchHere(t).value;
    var w := MatchPieces(t);
    var y := TailPieces(w);
    BodySound(y);
    var rest := y[|m.body| + 2..];
    assert y == ("{" + (m.body + "}")) + rest;
    Assoc("{", m.body + "}", rest);
    Assoc(m.body, "}", rest);
    CatchSpread(m, rest);
  }

  lemma HeadBraces(m: Catch)
    requires ValidCatch(m)
    ensures var h := Head(m);
            && h != [] && h[|h| - 1] == '{' && |m.indent| < |h|
            && h[..|m.indent|] == m.indent
            && forall i :: 0 <= i < |h| ==> (h[i] == '}' <==> i == |m.indent|)
  {
    hide IsSpace, IsBlank, IsNameChar, IsNameStart;
    ClassesDisjoint();
    NameBraces();
    var x := m.gap + (CATCH + (m.gapAfter + (BinderText(m.binder) + (m.gapBody + "{"))));
    assert Head(m) == m.indent + ("}" + x);
  }

  lemma NameBraces()
    ensures !IsNameChar('}') && !IsNameChar('{')
  {
  }

  lemma HeadFirst(m: Catch, r: string)
    requires CatchText(m) <= r
    ensures Head(m) <= r
  {
    hide Head;
  }

  /** A match starts with blanks and a closing brace. */
  lemma MatchStart(t: string) returns (n: nat)
    requires MatchHere(t).Some?
    ensures n < |t| && t[n] == '}' && forall k :: 0 <= k < n ==> IsBlank(t[k])
  {
    hide MatchHere, Head, IsBlank, IsSpace, CatchText;
    MatchSound(t);
    var m := MatchHere(t).value;
    HeadBraces(m);
    HeadFirst(m, t);
    n := |m.indent|;
    assert t[..n] == m.indent;
  }

  // ---------------------------------------------------------------------------------------
  // The rewrite
  // ---------------------------------------------------------------------------------------

  function Lower(c: char): char { if 'A' <= c <= 'Z' then ((c as int) + 32) as char else c }

  /** `/\bbest-effort\b/i` */
  predicate MentionsBestEffort(body: string) {
    exists i :: 0 <= i <= |body| - 11 && BestEffortAt(body, i)
  }

  predicate BestEffortAt(body: string, i: int)
    requires 0 <= i <= |body| - 11
  {
    && (forall k :: 0 <= k < 11 ==> Lower(body[i + k]) == "best-effort"[k])
    && (i > 0 ==> !IsWordChar(body[i - 1]))
    && (i + 11 < |body| ==> !IsWordChar(body[i + 11]))
  }

  function Newlines(t: string): nat {
    if t == [] then 0 else (if t[0] == '\n' then 1 else 0) + Newlines(t[1..])
  }

  function LineOf(src: string, offset: nat): nat
    requires offset <= |src|
  {
    Newlines(src[..offset]) + 1
  }

  function Decimal(n: nat): string {
    if n < 10 then [('0' as int + n) as char] else Decimal(n / 10) + [('0' as int + n % 10) as char]
  }

  function NameOf(m: Catch): string { if m.binder.NoBinder? then "_silentE_" else m.binder.name }

  function NewHead(m: Catch): string {
    m.indent + ("} catch (" + (NameOf(m) + ") {"))
  }

  function Marker(m: Catch): string { if MentionsBestEffort(m.body) then " /* best-effort */" else "" }

  function ReportCall(m: Catch, base: string, line: nat): string {
    var pad := if m.indent == [] then "  " else m.indent;
    "\n" + (m.indent + (pad + ("reportSilentFailure(" + (NameOf(m) + (", '" + (base + (":" + (Decimal(line) + ("');\n" + m.indent)))))))))
  }

  function Replacement(m: Catch, base: string, line: nat): string {
    NewHead(m) + (Marker(m) + (ReportCall(m, base, line) + "}"))
  }

  /** The text from offset `i` on, rewritten. */
  function Rewritten(content: string, base: string, i: nat): string
    requires i <= |content|
    decreases |content| - i
  {
    if i == |content| then [] else
      var found := MatchHere(content[i..]);
      if found.None? then [content[i]] + Rewritten(content, base, i + 1) else
        MatchFits(content, i);
        var m := found.value;
        (if IsEffectivelyEmpty(m.body) then Replacement(m, base, LineOf(content, i)) else CatchText(m))
          + Rewritten(content, base, i + |CatchText(m)|)
  }

  lemma MatchFits(content: string, i: nat)
    requires i <= |content| && MatchHere(content[i..]).Some?
    ensures var n := |CatchText(MatchHere(content[i..]).value)|; 0 < n && i + n <= |content|
    ensures var m := MatchHere(content[i..]).value; content[i..i + |CatchText(m)|] == CatchText(m)
    ensures ValidCatch(MatchHere(content[i..]).value)
  {
    hide IsSpace, IsBlank, All, MatchHere;
    MatchSound(content[i..]);
  }

  /** How many matches from offset `i` on are replaced. */
  function Edits(content: string, i: nat): nat
    requires i <= |content|
    decreases |content| - i
  {
    if i == |content| then 0 else
      var found := MatchHere(content[i..]);
      if found.None? then Edits(content, i + 1) else
        MatchFits(content, i);
        (if IsEffectivelyEmpty(found.value.body) then 1 else 0) + Edits(content, i + |CatchText(found.value)|)
  }

  /** The global replace with its edit counter. */
  method RewriteCatches(content: string, base: string) returns (out: string, edits: nat)
    ensures out == Rewritten(content, base, 0)
    ensures edits == Edits(content, 0)
  {
    hide MatchHere, IsEffectivelyEmpty, Replacement, CatchText, LineOf, ValidCatch;
    out, edits := [], 0;
    var i := 0;
    while i < |content|
      invariant i <= |content|
      invariant out + Rewritten(content, base, i) == Rewritten(content, base, 0)
      invariant edits + Edits(content, i) == Edits(content, 0)
    {
      ghost var ahead := Rewritten(content, base, i);
      var found := MatchHere(content[i..]);
      if found.None? {
        Assoc(out, [content[i]], Rewritten(content, base, i + 1));
        out := out + [content[i]];
        i := i + 1;
      } else {
        var m := found.value;
        MatchFits(content, i);
        var piece := CatchText(m);
        if IsEffectivelyEmpty(m.body) {
          piece := Replacement(m, base, LineOf(content, i));
          edits := edits + 1;
        }
        Assoc(out, piece, Rewritten(content, base, i + |CatchText(m)|));
        out := out + piece;
        i := i + |CatchText(m)|;
      }
    }
  }
}
