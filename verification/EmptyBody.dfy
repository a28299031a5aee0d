/**
 `isEffectivelyEmpty` (scripts/apply-besteffort-fixes.ts): whether a catch body is only comments
 and white space, decided by removing block comments, then line comments, then white space.
 */
module EmptyBody {
  import opened Sequences
  import opened JsText
  import opened Balance

  // ---------------------------------------------------------------------------------------
  // isEffectivelyEmpty
  // ---------------------------------------------------------------------------------------

  predicate StartsWith(t: string, a: char, b: char) { |t| > 1 && t[0] == a && t[1] == b }

  /** Whether the text holds the close of a block comment. */
  predicate HasClose(t: string) { t != [] && (StartsWith(t, '*', '/') || HasClose(t[1..])) }

  /** Remove every shortest block comment, left to right. */
  function StripBlocks(t: string): string
    decreases |t|
  {
    if t == [] then []
    else if StartsWith(t, '/', '*') && HasClose(t[2..]) then StripBlocks(t[2 + BlockEnd(t[2..])..])
    else [t[0]] + StripBlocks(t[1..])
  }

  /** Up to and excluding the next newline. */
  function UntilNewline(t: string): (n: nat)
    ensures n <= |t|
  {
    if t == [] || t[0] == '\n' then 0 else 1 + UntilNewline(t[1..])
  }

  /** Remove every line comment, keeping its newline. */
  function StripLines(t: string): string
    decreases |t|
  {
    if t == [] then []
    else if StartsWith(t, '/', '/') then StripLines(t[2 + UntilNewline(t[2..])..])
    else [t[0]] + StripLines(t[1..])
  }

  predicate IsEffectivelyEmpty(body: string) { All(StripLines(StripBlocks(body)), IsSpace) }

  /** What the function is for: white space and complete comments only, as the lexer reads it. */
  predicate IsBlankToken(t: Token) {
    match t
    case CodeChar(c) => IsSpace(c)
    case LineComment(_) => true
    case BlockComment(text) => HasClose(text[if |text| > 1 then 2 else 0..])
    case Literal(_) => false
  }

  predicate OnlyCommentsAndSpace(body: string) {
    body == [] || (IsBlankToken(FirstToken(body)) && OnlyCommentsAndSpace(body[TokenLength(body)..]))
  }

  predicate StartsBlock(t: string) { StartsWith(t, '/', '*') && HasClose(t[2..]) }

  /** A block comment is opened and not closed again, as the removal of block comments reads the text. */
  predicate LeavesOpen(t: string)
    decreases |t|
  {
    t != [] &&
    if !StartsWith(t, '/', '*') then LeavesOpen(t[1..])
    else !HasClose(t[2..]) || LeavesOpen(t[2 + BlockEnd(t[2..])..])
  }

  /** Removing block comments leaves a line comment one, and takes nothing from behind it. */
  predicate Harmless(comment: string) { StartsWith(StripBlocks(comment), '/', '/') && !LeavesOpen(comment) }

  predicate EndsLine(t: string) { t != [] && t[|t| - 1] == '\n' }

  /** Before the first code, no opening in a line comment is closed behind the comment. */
  predicate NothingSwallowed(body: string) {
    body == [] ||
    var token, rest := FirstToken(body), body[TokenLength(body)..];
    (IsBlankToken(token) ==>
       && (token.LineComment? ==> !LeavesOpen(token.text) || !HasClose(rest))
       && NothingSwallowed(rest))
  }

  /** Before the first code, removing block comments leaves every line comment one. */
  predicate CommentsStay(body: string) {
    body == [] ||
    var token, rest := FirstToken(body), body[TokenLength(body)..];
    (IsBlankToken(token) ==>
       && (token.LineComment? ==> StartsWith(StripBlocks(token.text), '/', '/'))
       && CommentsStay(rest))
  }

  predicate CommentsHarmless(body: string) { NothingSwallowed(body) && CommentsStay(body) }

  lemma {:induction false} HasClosePrefix(t: string)
    ensures HasClose(t) <==> HasClose(t[..BlockEnd(t)])
    ensures HasClose(t) ==> BlockEnd(t) >= 2
    decreases |t|
  {
    if t != [] && !StartsWith(t, '*', '/') {
      HasClosePrefix(t[1..]);
      var n := BlockEnd(t[1..]);
      assert t[..1 + n][1..] == t[1..][..n];
      if StartsWith(t[..1 + n], '*', '/') { assert t[1] == '/'; }
    } else if t != [] {
      assert StartsWith(t[..2], '*', '/');
    }
  }

  /** A close is still the first one when more text follows. */
  lemma {:induction false} ClosePrefix(u: string, rest: string)
    requires HasClose(u)
    ensures HasClose(u + rest) && BlockEnd(u + rest) == BlockEnd(u) && (u + rest)[BlockEnd(u)..] == u[BlockEnd(u)..] + rest
  {
    var t := u + rest;
    assert t[0] == u[0] && t[1..] == u[1..] + rest;
    if !StartsWith(u, '*', '/') { ClosePrefix(u[1..], rest); }
  }

  /** A text that does not close, and does not end in a star, is skipped. */
  lemma {:induction false} CloseLater(v: string, rest: string)
    requires !HasClose(v) && (v != [] ==> v[|v| - 1] != '*')
    ensures HasClose(v + rest) == HasClose(rest)
    ensures BlockEnd(v + rest) == |v| + BlockEnd(rest) && (v + rest)[|v| + BlockEnd(rest)..] == rest[BlockEnd(rest)..]
  {
    var t := v + rest;
    if v == [] {
      assert t == rest;
    } else {
      assert t[0] == v[0] && t[1..] == v[1..] + rest;
      CloseLater(v[1..], rest);
    }
  }

  predicate NotStar(c: char) { c != '*' }

  /** A text without stars closes no block comment. */
  lemma {:induction false} SkipToStar(a: string, t: string)
    requires All(a, NotStar)
    ensures HasClose(a + t) == HasClose(t) && BlockEnd(a + t) == |a| + BlockEnd(t) && (a + t)[|a|..] == t
  {
    if a == [] {
      assert a + t == t;
    } else {
      assert (a + t)[1..] == a[1..] + t;
      SkipToStar(a[1..], t);
    }
  }

  lemma StripStep(t: string)
    requires t != []
    ensures StripBlocks(t) == if StartsBlock(t) then StripBlocks(t[2 + BlockEnd(t[2..])..]) else [t[0]] + StripBlocks(t[1..])
    ensures LeavesOpen(t) ==
              if StartsBlock(t) then LeavesOpen(t[2 + BlockEnd(t[2..])..]) else StartsWith(t, '/', '*') || LeavesOpen(t[1..])
  {
    hide HasClose, BlockEnd;
  }

  /** What removing block comments makes of `t` when something follows that keeps `t` apart from it. */
  /** The first block of a line is that of the whole text, unless the line leaves it open. */
  lemma FirstBlock(a: string, b: string)
    requires EndsLine(a) && (!LeavesOpen(a) || !HasClose(b))
    ensures StartsBlock(a + b) <==> StartsBlock(a)
    ensures StartsBlock(a) ==>
              var t, n := a + b, 2 + BlockEnd(a[2..]);
              2 + BlockEnd(t[2..]) == n <= |a| && t[n..] == a[n..] + b && (a[n..] != [] ==> EndsLine(a[n..]))
  {
    hide HasClose, BlockEnd, LeavesOpen, StripBlocks;
    StripStep(a);
    var t, u := a + b, a[if |a| > 1 then 2 else 1..];
    if StartsWith(a, '/', '*') {
      assert t[2..] == u + b;
      if HasClose(u) {
        ClosePrefix(u, b);
        assert a[2 + BlockEnd(u)..] == u[BlockEnd(u)..];
      } else {
        CloseLater(u, b);
      }
    }
  }

  lemma {:induction false} StripConcat(a: string, b: string)
    requires (!LeavesOpen(a) || !HasClose(b)) && (a != [] ==> EndsLine(a))
    ensures StripBlocks(a + b) == StripBlocks(a) + StripBlocks(b)
    decreases |a|
  {
    hide HasClose, BlockEnd, StripBlocks, LeavesOpen;
    var t := a + b;
    if a == [] {
      NothingStripped();
      assert t == b;
      return;
    }
    StripStep(a);
    StripStep(t);
    FirstBlock(a, b);
    hide StartsBlock;
    if StartsBlock(a) {
      StripConcat(a[2 + BlockEnd(a[2..])..], b);
    } else {
      assert t[1..] == a[1..] + b;
      StripConcat(a[1..], b);
      Assoc([a[0]], StripBlocks(a[1..]), StripBlocks(b));
    }
  }

  /** What is left before the opening that is not closed. */
  function BeforeOpen(t: string): string
    requires LeavesOpen(t)
    decreases |t|
  {
    if !StartsWith(t, '/', '*') then [t[0]] + BeforeOpen(t[1..])
    else if HasClose(t[2..]) then BeforeOpen(t[2 + BlockEnd(t[2..])..])
    else []
  }

  /** Text behind an opening left open is swallowed up to its first close. */
  lemma {:induction false} OpenSwallows(x: string, r: string)
    requires LeavesOpen(x) && EndsLine(x) && HasClose(r)
    ensures StripBlocks(x + r) == BeforeOpen(x) + StripBlocks(r[BlockEnd(r)..])
    decreases |x|
  {
    hide HasClose, BlockEnd;
    var t, s := x + r, StripBlocks(r[BlockEnd(r)..]);
    if !StartsWith(x, '/', '*') {
      assert t[1..] == x[1..] + r;
      OpenSwallows(x[1..], r);
      assert StripBlocks(t) == [t[0]] + StripBlocks(t[1..]);
      assert [x[0]] + (BeforeOpen(x[1..]) + s) == [x[0]] + BeforeOpen(x[1..]) + s;
    } else {
      var v := x[2..];
      assert t[2..] == v + r;
      if HasClose(v) {
        var n := BlockEnd(v);
        ClosePrefix(v, r);
        assert t[2 + n..] == x[2 + n..] + r;
        OpenSwallows(x[2 + n..], r);
      } else {
        CloseLater(v, r);
        assert t[2 + BlockEnd(t[2..])..] == r[BlockEnd(r)..];
        assert [] + s == s;
      }
    }
  }

  lemma {:induction false} StripLinesSkips(a: string, b: string)
    requires forall i :: 0 <= i < |a| ==> a[i] != '\n'
    requires b == [] || b[0] == '\n'
    ensures UntilNewline(a + b) == |a|
    decreases |a|
  {
    if a == [] {
      assert a + b == b;
    } else {
      assert (a + b)[1..] == a[1..] + b;
      StripLinesSkips(a[1..], b);
    }
  }

  lemma {:induction false} LineEndShape(u: string)
    ensures forall i :: 0 <= i < LineEnd(u) - 1 ==> u[i] != '\n'
    ensures LineEnd(u) < |u| ==> LineEnd(u) > 0 && u[LineEnd(u) - 1] == '\n'
    decreases |u|
  {
    if u != [] && u[0] != '\n' {
      LineEndShape(u[1..]);
      forall i | 0 <= i < LineEnd(u) - 1 ensures u[i] != '\n' { assert i > 0 ==> u[i] == u[1..][i - 1]; }
    }
  }

  lemma AllCons(c: char, x: string, p: char -> bool)
    ensures All([c] + x, p) <==> p(c) && All(x, p)
  {
    var t := [c] + x;
    assert t[0] == c;
    if All(t, p) { forall i | 0 <= i < |x| ensures p(x[i]) { assert t[i + 1] == x[i]; } }
  }

  /** A character that starts no comment survives both removals. */
  lemma {:induction false} KeptCharacter(t: string)
    requires t != [] && !StartsWith(t, '/', '/')
    requires !(StartsWith(t, '/', '*') && HasClose(t[2..]))
    ensures IsEffectivelyEmpty(t) <==> IsSpace(t[0]) && IsEffectivelyEmpty(t[1..])
  {
    hide IsSpace, HasClose, All;
    var rest := StripBlocks(t[1..]);
    assert StripBlocks(t) == [t[0]] + rest;
    assert !StartsWith([t[0]] + rest, '/', '/') by {
      if t[0] == '/' && rest != [] { FirstKept(t[1..]); }
    }
    assert ([t[0]] + rest)[1..] == rest;
    assert StripLines([t[0]] + rest) == [t[0]] + StripLines(rest);
    AllCons(t[0], StripLines(rest), IsSpace);
  }

  lemma {:induction false} FirstKept(u: string)
    requires u != [] && u[0] != '/'
    ensures StripBlocks(u) != [] && StripBlocks(u)[0] == u[0]
  {
  }

  lemma {:induction false} ClosedBlockVanishes(t: string)
    requires StartsWith(t, '/', '*') && HasClose(t[2..])
    ensures IsEffectivelyEmpty(t) <==> IsEffectivelyEmpty(t[TokenLength(t)..])
  {
  }

  /** A line comment is its slashes, a text without newline, and a newline unless the input ends. */
  lemma LineParts(t: string) returns (x: string, closed: bool)
    requires StartsWith(t, '/', '/')
    ensures forall i :: 0 <= i < |x| ==> x[i] != '\n'
    ensures t[..TokenLength(t)] == ['/', '/'] + x + if closed then ['\n'] else []
    ensures !closed ==> t[TokenLength(t)..] == []
  {
    var n, u := TokenLength(t), t[2..];
    LineEndShape(u);
    closed := n > 2 && u[n - 3] == '\n';
    x := u[..if closed then n - 3 else n - 2];
  }

  predicate NoNewline(t: string) { forall i :: 0 <= i < |t| ==> t[i] != '\n' }

  lemma {:induction false} CloseInLine(u: string)
    requires HasClose(u + ['\n'])
    ensures HasClose(u)
  {
    var t := u + ['\n'];
    assert u == [] ==> t[1..] == [];
    if u != [] && !StartsWith(t, '*', '/') {
      assert t[1..] == u[1..] + ['\n'];
      CloseInLine(u[1..]);
    }
  }

  /** A closed block comment at the start of a line lies within the line. */
  lemma BlockInLine(w: string)
    requires NoNewline(w)
    ensures StartsBlock(w + ['\n']) <==> StartsBlock(w)
    ensures StartsBlock(w) ==>
              var t, n := w + ['\n'], 2 + BlockEnd(w[2..]);
              2 + BlockEnd(t[2..]) == n && t[n..] == w[n..] + ['\n']
  {
    hide HasClose, BlockEnd;
    var t := w + ['\n'];
    if |w| >= 2 {
      assert t[2..] == w[2..] + ['\n'];
      if HasClose(t[2..]) { CloseInLine(w[2..]); }
      if HasClose(w[2..]) { ClosePrefix(w[2..], ['\n']); }
    }
  }

  lemma NewlineAlone()
    ensures StripBlocks(['\n']) == ['\n'] && !LeavesOpen(['\n'])
  {
    assert ['\n'][1..] == [];
  }

  /** Removing block comments keeps the newline of a line, and only that one. */
  lemma {:induction false} LineStripped(w: string)
    requires NoNewline(w)
    ensures StripBlocks(w + ['\n']) == StripBlocks(w) + ['\n'] && NoNewline(StripBlocks(w))
    decreases |w|
  {
    hide HasClose, BlockEnd;
    var t := w + ['\n'];
    if w == [] {
      NewlineAlone();
      NothingStripped();
      assert t == ['\n'];
    } else {
      BlockInLine(w);
      if StartsBlock(w) {
        LineStripped(w[2 + BlockEnd(w[2..])..]);
      } else {
        assert t[1..] == w[1..] + ['\n'];
        LineStripped(w[1..]);
        assert StripBlocks(w) == [w[0]] + StripBlocks(w[1..]);
        assert StripBlocks(t) == [t[0]] + StripBlocks(t[1..]);
      }
    }
  }

  /** A line of which removing block comments makes a line comment is removed altogether. */
  lemma StrippedLine(y: string, s: string)
    requires StartsWith(y, '/', '/') && NoNewline(y)
    ensures StripLines(y + (['\n'] + s)) == ['\n'] + StripLines(s)
    ensures StripLines(y) == []
  {
    hide StripLines;
    assert y == ['/', '/'] + y[2..];
    LineThenRest(y[2..], s);
    assert y + (['\n'] + s) == ['/', '/'] + (y[2..] + (['\n'] + s));
    LastLine(y[2..]);
  }

  /** Otherwise its first slash stays. */
  lemma SlashStays(y: string)
    requires y != [] && y[0] == '/' && !StartsWith(y, '/', '/')
    ensures !All(StripLines(y), IsSpace)
  {
    SlashIsNotSpace();
    assert StripLines(y)[0] == '/';
  }

  /** A line comment that swallows nothing: it does not matter, or it breaks and its first slash stays. */
  lemma LineVerdict(w: string, r: string)
    requires StartsWith(w, '/', '/') && NoNewline(w) && (!LeavesOpen(w + ['\n']) || !HasClose(r))
    ensures IsEffectivelyEmpty(w + ['\n'] + r) <==>
              StartsWith(StripBlocks(w + ['\n']), '/', '/') && IsEffectivelyEmpty(r)
  {
    hide IsSpace, All, StripLines, StripBlocks, LeavesOpen, HasClose;
    var y, s := StripBlocks(w), StripBlocks(r);
    StripConcat(w + ['\n'], r);
    LineStripped(w);
    FirstSlashKept(w);
    assert y + ['\n'] + s == y + (['\n'] + s);
    assert (y + ['\n'])[..|y|] == y;
    if StartsWith(y, '/', '/') {
      StrippedLine(y, s);
      AllCons('\n', StripLines(s), IsSpace);
      NewlineIsSpace();
    } else {
      SlashStays(y + (['\n'] + s));
    }
  }

  /** A last line comment counts as empty exactly when removing block comments leaves it one. */
  lemma LastCommentExact(w: string)
    requires StartsWith(w, '/', '/') && NoNewline(w)
    ensures OnlyCommentsAndSpace(w)
    ensures IsEffectivelyEmpty(w) == OnlyCommentsAndSpace(w) <==> StartsWith(StripBlocks(w), '/', '/')
  {
    hide IsSpace, All, StripLines, StripBlocks;
    LineStripped(w);
    FirstSlashKept(w);
    WholeLine(w, []);
    if StartsWith(StripBlocks(w), '/', '/') {
      StrippedLine(StripBlocks(w), []);
      EmptyAll();
    } else {
      SlashStays(StripBlocks(w));
    }
  }

  lemma EmptyAll()
    ensures All([], IsSpace)
  {
  }

  lemma FirstSlashKept(w: string)
    requires StartsWith(w, '/', '/')
    ensures StripBlocks(w) == ['/'] + StripBlocks(w[1..])
  {
  }

  lemma {:induction false} LineEndOf(w: string, r: string)
    requires NoNewline(w)
    ensures LineEnd(w) == |w| && LineEnd(w + (['\n'] + r)) == |w| + 1
  {
    var t := w + (['\n'] + r);
    if w == [] {
      assert t[0] == '\n';
    } else {
      assert t[1..] == w[1..] + (['\n'] + r);
      LineEndOf(w[1..], r);
    }
  }

  /** The lexer reads a line comment as one token. */
  lemma WholeLine(w: string, r: string)
    requires StartsWith(w, '/', '/') && NoNewline(w)
    ensures TokenLength(w) == |w| && FirstToken(w) == LineComment(w)
    ensures var t := w + ['\n'] + r;
            && TokenLength(t) == |w| + 1 && FirstToken(t) == LineComment(w + ['\n']) && t[|w| + 1..] == r
            && (OnlyCommentsAndSpace(t) <==> OnlyCommentsAndSpace(r))
  {
    hide LineEnd;
    var t := w + ['\n'] + r;
    LineEndOf(w[2..], r);
    assert t[2..] == w[2..] + (['\n'] + r);
    assert t[..|w| + 1] == w + ['\n'] && w[..|w|] == w;
  }

  lemma NothingStripped()
    ensures StripBlocks([]) == [] && StripLines([]) == []
  {
  }

  lemma NewlineIsSpace()
    ensures IsSpace('\n')
  {
  }

  lemma {:induction false} LineThenRest(x: string, s: string)
    requires forall i :: 0 <= i < |x| ==> x[i] != '\n'
    ensures StripLines(['/', '/'] + (x + (['\n'] + s))) == ['\n'] + StripLines(s)
  {
    var tail := ['\n'] + s;
    var t := ['/', '/'] + (x + tail);
    assert t[2..] == x + tail;
    StripLinesSkips(x, tail);
    assert t[2 + |x|..] == tail;
    assert tail[1..] == s;
  }

  lemma {:induction false} LastLine(x: string)
    requires forall i :: 0 <= i < |x| ==> x[i] != '\n'
    ensures StripLines(['/', '/'] + x) == []
  {
    var t := ['/', '/'] + x;
    assert t[2..] == x && x + [] == x;
    StripLinesSkips(x, []);
    assert t[2 + |x|..] == [];
  }

  /**
   When nothing is swallowed, the three removals accept exactly comments and white space whose line
   comments all stay comments.
   */
  lemma {:induction false} EmptyVerdict(body: string)
    requires NothingSwallowed(body)
    ensures IsEffectivelyEmpty(body) <==> OnlyCommentsAndSpace(body) && CommentsStay(body)
    decreases |body|
  {
    hide IsSpace, StripBlocks, StripLines, HasClose, BlockEnd, LineEnd, LeavesOpen;
    if body == [] {
      NothingStripped();
      EmptyAll();
    } else if StartsWith(body, '/', '/') {
      EmptyVerdict(body[TokenLength(body)..]);
      FirstLine(body);
    } else if StartsWith(body, '/', '*') {
      BlockTokenClosed(body);
      if HasClose(body[2..]) {
        ClosedBlockVanishes(body);
        EmptyVerdict(body[TokenLength(body)..]);
      } else {
        KeptCharacter(body);
        SlashIsNotSpace();
      }
    } else {
      KeptCharacter(body);
      QuotesAreNotSpace();
      if IsSpace(body[0]) { EmptyVerdict(body[1..]); }
    }
  }

  lemma FirstLine(body: string)
    requires StartsWith(body, '/', '/') && NothingSwallowed(body)
    ensures IsEffectivelyEmpty(body) <==>
              StartsWith(StripBlocks(FirstToken(body).text), '/', '/') && IsEffectivelyEmpty(body[TokenLength(body)..])
  {
    hide IsSpace, All, StripBlocks, StripLines, LeavesOpen, LineEnd, HasClose;
    var n := TokenLength(body);
    var x, closed := LineParts(body);
    var w := ['/', '/'] + x;
    if closed {
      assert body == w + ['\n'] + body[n..];
      LineVerdict(w, body[n..]);
    } else {
      assert body == w && body[n..] == [] && FirstToken(body) == LineComment(w);
      LastCommentExact(w);
      NothingStripped();
      EmptyAll();
    }
  }

  /** So the answer is right exactly when the body holds code or its line comments stay comments. */
  lemma EffectivelyEmptyIsExact(body: string)
    requires NothingSwallowed(body)
    ensures IsEffectivelyEmpty(body) == OnlyCommentsAndSpace(body) <==>
              (OnlyCommentsAndSpace(body) ==> CommentsStay(body))
  {
    hide IsEffectivelyEmpty, OnlyCommentsAndSpace, CommentsStay, NothingSwallowed;
    EmptyVerdict(body);
  }

  /** The verdict on a line followed by `r` is right. */
  predicate Right(line: string, r: string) {
    IsEffectivelyEmpty(line + ['\n'] + r) <==> OnlyCommentsAndSpace(line + ['\n'] + r)
  }

  /**
   For one line comment, ended by its newline: the verdict is right whatever harmless text follows
   exactly when the comment is harmless itself.
   */
  lemma HarmlessExact(w: string)
    requires StartsWith(w, '/', '/') && NoNewline(w)
    ensures Harmless(w + ['\n']) <==> forall r :: CommentsHarmless(r) ==> Right(w, r)
  {
    hide StripBlocks, LeavesOpen, HasClose, IsEffectivelyEmpty, OnlyCommentsAndSpace, NothingSwallowed, CommentsStay;
    if Harmless(w + ['\n']) {
      forall r | CommentsHarmless(r) ensures Right(w, r) {
        WholeLine(w, r);
        LineVerdict(w, r);
        EmptyVerdict(r);
      }
    } else {
      var r := HarmfulWitness(w);
      assert CommentsHarmless(r);
      assert !Right(w, r);
    }
  }

  /** A harmful comment, and what may follow it to make the verdict wrong. */
  lemma HarmfulWitness(w: string) returns (r: string)
    requires StartsWith(w, '/', '/') && NoNewline(w) && !Harmless(w + ['\n'])
    ensures CommentsHarmless(r) && !Right(w, r)
  {
    hide IsSpace, All, StripLines, StripBlocks, HasClose, BlockEnd, LeavesOpen, BeforeOpen, OnlyCommentsAndSpace,
         CommentsHarmless;
    var x := w + ['\n'];
    if !LeavesOpen(x) {
      r := [];
      NothingFollows();
      assert x + r == x;
      WholeLine(w, r);
      LineStripped(w);
      FirstSlashKept(x);
      SlashStays(StripBlocks(x));
    } else {
      var b := BeforeOpen(x);
      BeforeOpenShape(w);
      if StartsWith(b, '/', '/') {
        r := "f*/";
        CodeFollows();
        OpenSwallows(x, r);
        assert b + [] == b;
        StrippedLine(b, []);
        EmptyAll();
      } else {
        r := "/*/ */";
        CommentFollows();
        OpenSwallows(x, r);
        SlashStays(b + " */");
      }
      WholeLine(w, r);
    }
  }

  lemma NothingFollows()
    ensures CommentsHarmless([]) && OnlyCommentsAndSpace([])
  {
  }

  lemma CodeFollows()
    ensures CommentsHarmless("f*/") && !OnlyCommentsAndSpace("f*/")
    ensures HasClose("f*/") && StripBlocks("f*/"[BlockEnd("f*/")..]) == []
  {
    var r := "f*/";
    assert r[1..] == "*/" && r[1..][1..] == "/" && r[1..][1..][1..] == [];
    assert BlockEnd(r) == 3;
  }

  lemma CommentFollows()
    ensures CommentsHarmless("/*/ */") && OnlyCommentsAndSpace("/*/ */")
    ensures HasClose("/*/ */") && StripBlocks("/*/ */"[BlockEnd("/*/ */")..]) == " */"
  {
    var r, u := "/*/ */", "/ */";
    assert u[1..] == " */" && u[1..][1..] == "*/" && r[2..] == u && r[1..] == "*/ */";
    assert BlockEnd(u) == 4 && HasClose(u) && BlockEnd(r) == 3;
    BlockTokenClosed(r);
    assert TokenLength(r) == 6 && r[6..] == [];
    assert "*/"[1..] == "/" && "/"[1..] == [];
    assert StripBlocks(" */") == " */";
  }

  lemma BeforeOpenShape(w: string)
    requires StartsWith(w, '/', '/') && NoNewline(w) && LeavesOpen(w + ['\n'])
    ensures var b := BeforeOpen(w + ['\n']); b != [] && b[0] == '/' && NoNewline(b)
  {
    hide HasClose, BlockEnd;
    BeforeOpenInLine(w);
  }

  lemma {:induction false} BeforeOpenInLine(w: string)
    requires NoNewline(w) && LeavesOpen(w + ['\n'])
    ensures NoNewline(BeforeOpen(w + ['\n']))
    decreases |w|
  {
    hide HasClose, BlockEnd;
    var t := w + ['\n'];
    NewlineAlone();
    assert w == [] ==> t == ['\n'];
    BlockInLine(w);
    if !StartsWith(t, '/', '*') {
      assert t[1..] == w[1..] + ['\n'];
      BeforeOpenInLine(w[1..]);
    } else if HasClose(t[2..]) {
      BeforeOpenInLine(w[2 + BlockEnd(w[2..])..]);
    }
  }

  lemma SlashIsNotSpace()
    ensures !IsSpace('/')
  {
  }

  lemma QuotesAreNotSpace()
    ensures forall c :: IsQuote(c) ==> !IsSpace(c)
  {
  }

  lemma BlockTokenClosed(t: string)
    requires StartsWith(t, '/', '*')
    ensures IsBlankToken(FirstToken(t)) <==> HasClose(t[2..])
  {
    var text := FirstToken(t).text;
    assert text[2..] == t[2..][..BlockEnd(t[2..])];
    HasClosePrefix(t[2..]);
  }

  /** Code between an opening inside a line comment and the next close counts as nothing. */
  lemma SwallowedCode(r: string)
    requires HasClose(r) && BlockEnd(r) == |r|
    ensures IsEffectivelyEmpty("// /*\n" + r)
  {
    hide HasClose, BlockEnd, IsSpace, StripLines;
    OpensInComment();
    OpenSwallows("// /*\n", r);
    NothingStripped();
    assert "// " + [] == "// ";
    StrippedLine("// ", []);
    EmptyAll();
  }

  lemma OpensInComment()
    ensures LeavesOpen("// /*\n") && BeforeOpen("// /*\n") == "// "
  {
    var t := "// /*\n";
    assert t[1..] == "/ /*\n" && t[1..][1..] == " /*\n" && t[1..][1..][1..] == "/*\n";
    assert "/*\n"[2..] == "\n" && "\n"[1..] == [];
    assert BeforeOpen("/*\n") == [];
    assert BeforeOpen(" /*\n") == " ";
    assert BeforeOpen("/ /*\n") == "/ ";
  }

  /**
   Harmful comments mislead both ways: the first body calls `f` and counts as empty, the second is
   a line comment and does not.
   */
  lemma EffectivelyEmptyMisjudges()
    ensures IsEffectivelyEmpty("// /*\n" + "f()/**/") && !OnlyCommentsAndSpace("// /*\n" + "f()/**/")
    ensures !IsEffectivelyEmpty("//**/") && OnlyCommentsAndSpace("//**/")
  {
    hide IsEffectivelyEmpty, OnlyCommentsAndSpace, StripBlocks, HasClose, BlockEnd;
    CallFollows();
    CodeIsKept();
    SwallowedCode("f()/**/");
    SlashOnly();
    LastCommentExact("//**/");
  }

  lemma CodeIsKept()
    ensures OnlyCommentsAndSpace("// /*\n" + "f()/**/") <==> OnlyCommentsAndSpace("f()/**/")
  {
    hide OnlyCommentsAndSpace;
    WholeLine("// /*", "f()/**/");
    assert "// /*" + ['\n'] + "f()/**/" == "// /*\n" + "f()/**/";
  }

  lemma CallFollows()
    ensures HasClose("f()/**/") && BlockEnd("f()/**/") == 7 && !OnlyCommentsAndSpace("f()/**/")
  {
    assert !OnlyCommentsAndSpace("f()/**/") by { assert FirstToken("f()/**/") == CodeChar('f'); }
    hide OnlyCommentsAndSpace;
    SkipToStar("f()/", "**/");
    assert "f()/" + "**/" == "f()/**/";
    assert "**/"[1..] == "*/";
    assert BlockEnd("**/") == 3;
  }

  lemma SlashOnly()
    ensures StripBlocks("//**/") == "/"
  {
    var t := "//**/";
    assert t[1..] == "/**/" && t[1..][2..] == "*/" && t[1..][4..] == [];
    assert StripBlocks("/**/") == [];
  }
}
