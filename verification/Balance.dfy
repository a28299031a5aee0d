/**
 `isBalanced` (scripts/apply-besteffort-fixes.ts): a one-pass bracket counter with one character
 of lookahead that steps over strings, templates and comments.

 It is related to two other readings of the same text: a recursive lexer that cuts the text into
 tokens, and a finite automaton without lookahead, whose runs compose over concatenation.
 */
module Balance {
  import opened Wrappers

  function Delta(c: char): int {
    if c == '(' || c == '[' || c == '{' then 1
    else if c == ')' || c == ']' || c == '}' then -1
    else 0
  }

  predicate IsQuote(c: char) { c == '"' || c == '\'' || c == '`' }

  /** The brackets that count, and the quotes that open a string or template. */
  lemma BracketTable()
    ensures forall c :: Delta(c) == 1 <==> c in "([{"
    ensures forall c :: Delta(c) == -1 <==> c in ")]}"
    ensures forall c :: Delta(c) == 0 <==> c !in "([{)]}"
    ensures forall c :: IsQuote(c) <==> c in "\"'`"
  {
    var open, close, quotes, both := "([{", ")]}", "\"'`", "([{)]}";
    assert open[0] == '(' && open[1] == '[' && open[2] == '{';
    assert close[0] == ')' && close[1] == ']' && close[2] == '}';
    assert both[0] == '(' && both[1] == '[' && both[2] == '{' && both[3] == ')' && both[4] == ']' && both[5] == '}';
    assert quotes[0] == '"' && quotes[1] == '\'' && quotes[2] == '`';
  }

  // ---------------------------------------------------------------------------------------
  // The lexer
  // ---------------------------------------------------------------------------------------

  datatype Token =
    | CodeChar(c: char)
    | LineComment(text: string)
    | BlockComment(text: string)
    | Literal(text: string)

  /** Length of the rest of a line comment, its newline included. */
  function LineEnd(s: string): (n: nat)
    ensures n <= |s|
  {
    if s == [] then 0 else if s[0] == '\n' then 1 else 1 + LineEnd(s[1..])
  }

  /** Length of the rest of a block comment, its close included. */
  function BlockEnd(s: string): (n: nat)
    ensures n <= |s|
  {
    if s == [] then 0
    else if |s| > 1 && s[0] == '*' && s[1] == '/' then 2
    else 1 + BlockEnd(s[1..])
  }

  /** Length of the rest of a string or template, its closing quote included. */
  function QuoteEnd(s: string, quote: char): (n: nat)
    ensures n <= |s|
  {
    if s == [] then 0
    else if s[0] == '\\' then (if |s| > 1 then 2 + QuoteEnd(s[2..], quote) else 1)
    else if s[0] == quote then 1
    else 1 + QuoteEnd(s[1..], quote)
  }

  function TokenLength(s: string): (n: nat)
    requires s != []
    ensures 1 <= n <= |s|
  {
    if |s| > 1 && s[0] == '/' && s[1] == '/' then 2 + LineEnd(s[2..])
    else if |s| > 1 && s[0] == '/' && s[1] == '*' then 2 + BlockEnd(s[2..])
    else if IsQuote(s[0]) then 1 + QuoteEnd(s[1..], s[0])
    else 1
  }

  function FirstToken(s: string): (t: Token)
    requires s != []
  {
    var text := s[..TokenLength(s)];
    if |s| > 1 && s[0] == '/' && s[1] == '/' then LineComment(text)
    else if |s| > 1 && s[0] == '/' && s[1] == '*' then BlockComment(text)
    else if IsQuote(s[0]) then Literal(text)
    else CodeChar(s[0])
  }

  function Lex(s: string): seq<Token> {
    if s == [] then [] else [FirstToken(s)] + Lex(s[TokenLength(s)..])
  }

  function Source(t: Token): string { if t.CodeChar? then [t.c] else t.text }

  function Sources(ts: seq<Token>): string {
    if ts == [] then [] else Source(ts[0]) + Sources(ts[1..])
  }

  /** The bracket deltas of the code characters, summed. */
  function Depth(ts: seq<Token>): int {
    if ts == [] then 0 else (if ts[0].CodeChar? then Delta(ts[0].c) else 0) + Depth(ts[1..])
  }

  /** The tokens partition the text. */
  lemma {:induction false} LexPartitions(s: string)
    ensures Sources(Lex(s)) == s
    decreases |s|
  {
    if s != [] {
      var n := TokenLength(s);
      LexPartitions(s[n..]);
      assert Lex(s)[1..] == Lex(s[n..]);
      assert s == s[..n] + s[n..];
      assert FirstToken(s).CodeChar? ==> s[..n] == [s[0]];
    }
  }

  // ---------------------------------------------------------------------------------------
  // The loop
  // ---------------------------------------------------------------------------------------

  // What is left to count when the scanner stands before `t`, by mode.

  function CodeAhead(t: string): int { Depth(Lex(t)) }

  function LineAhead(t: string): int { Depth(Lex(t[LineEnd(t)..])) }

  function BlockAhead(t: string): int { Depth(Lex(t[BlockEnd(t)..])) }

  function QuoteAhead(t: string, quote: char): int { Depth(Lex(t[QuoteEnd(t, quote)..])) }

  lemma LineStep(t: string)
    requires t != []
    ensures LineAhead(t) == if t[0] == '\n' then CodeAhead(t[1..]) else LineAhead(t[1..])
  {
  }

  lemma BlockStep(t: string)
    requires t != []
    ensures BlockAhead(t) ==
              if |t| > 1 && t[0] == '*' && t[1] == '/' then CodeAhead(t[2..]) else BlockAhead(t[1..])
  {
  }

  lemma QuoteStep(t: string, quote: char)
    requires t != []
    ensures QuoteAhead(t, quote) ==
              if t[0] == '\\' then QuoteAhead(if |t| > 1 then t[2..] else [], quote)
              else if t[0] == quote then CodeAhead(t[1..])
              else QuoteAhead(t[1..], quote)
  {
  }

  lemma CodeStep(t: string)
    requires t != []
    ensures CodeAhead(t) ==
              if |t| > 1 && t[0] == '/' && t[1] == '/' then LineAhead(t[2..])
              else if |t| > 1 && t[0] == '/' && t[1] == '*' then BlockAhead(t[2..])
              else if IsQuote(t[0]) then QuoteAhead(t[1..], t[0])
              else Delta(t[0]) + CodeAhead(t[1..])
  {
  }

  ghost function Ahead(t: string, inStr: Option<char>, inTpl: bool, inLineCmt: bool, inBlkCmt: bool): int {
    if inLineCmt then LineAhead(t)
    else if inBlkCmt then BlockAhead(t)
    else if inStr.Some? then QuoteAhead(t, inStr.value)
    else if inTpl then QuoteAhead(t, '`')
    else CodeAhead(t)
  }

  function Suffix(s: string, i: nat): string { if i <= |s| then s[i..] else [] }

  lemma SuffixStep(s: string, i: nat)
    requires i < |s|
    ensures var t := Suffix(s, i);
            && t != [] && t[0] == s[i]
            && (|t| > 1 <==> i + 1 < |s|) && (|t| > 1 ==> t[1] == s[i + 1])
            && Suffix(s, i + 1) == t[1..]
            && Suffix(s, i + 2) == if |t| > 1 then t[2..] else []
  {
  }

  /** For every text, the one-pass loop answers whether the lexer's bracket sum is zero. */
  method IsBalanced(s: string) returns (balanced: bool)
    ensures balanced <==> Depth(Lex(s)) == 0
  {
    hide CodeAhead, LineAhead, BlockAhead, QuoteAhead, Suffix;
    var depth := 0;
    var inStr: Option<char> := None;
    var inTpl, inLineCmt, inBlkCmt := false, false, false;
    var i := 0;
    WholeText(s);
    while i < |s|
      invariant 0 <= i <= |s| + 1
      invariant depth + Ahead(Suffix(s, i), inStr, inTpl, inLineCmt, inBlkCmt) == Depth(Lex(s))
      invariant inLineCmt || inBlkCmt ==> inStr.None? && !inTpl
      invariant !(inLineCmt && inBlkCmt) && !(inStr.Some? && inTpl)
    {
      var ch := s[i];
      var next := if i + 1 < |s| then Some(s[i + 1]) else None;
      ghost var t := Suffix(s, i);
      SuffixStep(s, i);
      if inLineCmt {
        LineStep(t);
        if ch == '\n' { inLineCmt := false; }
      } else if inBlkCmt {
        BlockStep(t);
        if ch == '*' && next == Some('/') {
          inBlkCmt := false;
          i := i + 1;
        }
      } else if inStr.Some? {
        QuoteStep(t, inStr.value);
        if ch == '\\' {
          i := i + 1;
        } else if ch == inStr.value {
          inStr := None;
        }
      } else if inTpl {
        QuoteStep(t, '`');
        if ch == '\\' {
          i := i + 1;
        } else if ch == '`' {
          inTpl := false;
        }
      } else {
        CodeStep(t);
        if ch == '/' && next == Some('/') {
          inLineCmt := true;
          i := i + 1;
        } else if ch == '/' && next == Some('*') {
          inBlkCmt := true;
          i := i + 1;
        } else if ch == '"' || ch == '\'' {
          inStr := Some(ch);
        } else if ch == '`' {
          inTpl := true;
        } else if ch == '(' || ch == '[' || ch == '{' {
          depth := depth + 1;
        } else if ch == ')' || ch == ']' || ch == '}' {
          depth := depth - 1;
        }
      }
      i := i + 1;
    }
    NothingAhead(s, i, inStr, inTpl, inLineCmt, inBlkCmt);
    balanced := depth == 0;
  }

  lemma WholeText(s: string)
    ensures CodeAhead(Suffix(s, 0)) == Depth(Lex(s))
  {
  }

  lemma NothingAhead(s: string, i: nat, inStr: Option<char>, inTpl: bool, inLineCmt: bool, inBlkCmt: bool)
    requires i >= |s|
    ensures Ahead(Suffix(s, i), inStr, inTpl, inLineCmt, inBlkCmt) == 0
  {
  }

  // ---------------------------------------------------------------------------------------
  // The automaton
  // ---------------------------------------------------------------------------------------

  /**
   `Slash` and `Star` hold back the character the loop looks ahead for; `Escaped` is a string
   whose next character is skipped.
   */
  datatype State = Normal | Slash | Line | Block | Star | Quoted(quote: char) | Escaped(quote: char)

  datatype Config = Config(state: State, depth: int)

  function FromCode(c: char): State {
    if c == '/' then Slash else if IsQuote(c) then Quoted(c) else Normal
  }

  function Next(st: State, c: char): State {
    match st
    case Normal => FromCode(c)
    case Slash => if c == '/' then Line else if c == '*' then Block else FromCode(c)
    case Line => if c == '\n' then Normal else Line
    case Block => if c == '*' then Star else Block
    case Star => if c == '/' then Normal else if c == '*' then Star else Block
    case Quoted(q) => if c == '\\' then Escaped(q) else if c == q then Normal else st
    case Escaped(q) => Quoted(q)
  }

  predicate InCode(st: State) { st.Normal? || st.Slash? }

  function Advance(k: Config, c: char): Config {
    Config(Next(k.state, c), k.depth + if InCode(k.state) then Delta(c) else 0)
  }

  function Run(k: Config, s: string): Config
    decreases |s|
  {
    if s == [] then k else Run(Advance(k, s[0]), s[1..])
  }

  /** Runs compose: without lookahead nothing straddles the seam. */
  lemma {:induction false} RunConcat(k: Config, a: string, b: string)
    ensures Run(k, a + b) == Run(Run(k, a), b)
    decreases |a|
  {
    if a == [] {
      assert a + b == b;
    } else {
      assert (a + b)[0] == a[0] && (a + b)[1..] == a[1..] + b;
      RunConcat(Advance(k, a[0]), a[1..], b);
    }
  }

  lemma {:induction false} RunTwo(k: Config, t: string)
    requires |t| > 1
    ensures Run(k, t) == Run(Advance(Advance(k, t[0]), t[1]), t[2..])
  {
  }

  /** A slash held back, or a star, changes nothing unless the next character completes the pair. */
  lemma {:induction false} HeldBack(d: int, t: string)
    requires t == [] || (t[0] != '/' && t[0] != '*')
    ensures Run(Config(Slash, d), t).depth == Run(Config(Normal, d), t).depth
  {
  }

  lemma {:induction false} StarHeldBack(d: int, t: string)
    requires t == [] || t[0] != '/'
    ensures Run(Config(Star, d), t).depth == Run(Config(Block, d), t).depth
  {
  }

  ghost function AheadOf(st: State, t: string): int
    requires st.Normal? || st.Line? || st.Block? || st.Quoted?
  {
    match st
    case Normal => CodeAhead(t)
    case Line => LineAhead(t)
    case Block => BlockAhead(t)
    case Quoted(q) => QuoteAhead(t, q)
  }

  lemma EmptyAhead(st: State)
    requires st.Normal? || st.Line? || st.Block? || st.Quoted?
    ensures AheadOf(st, []) == 0
  {
  }

  /** From every resting state the automaton adds up exactly what the lexer counts. */
  lemma {:induction false} RunCounts(st: State, d: int, t: string)
    requires st.Normal? || st.Line? || st.Block? || st.Quoted?
    ensures Run(Config(st, d), t).depth == d + AheadOf(st, t)
    decreases |t|
  {
    hide CodeAhead, LineAhead, BlockAhead, QuoteAhead;
    if t == [] {
      EmptyAhead(st);
    } else {
      match st
      case Normal =>
        CodeStep(t);
        if |t| > 1 && t[0] == '/' && (t[1] == '/' || t[1] == '*') {
          RunTwo(Config(st, d), t);
          RunCounts(if t[1] == '/' then Line else Block, d, t[2..]);
        } else if t[0] == '/' {
          HeldBack(d, t[1..]);
          RunCounts(Normal, d, t[1..]);
        } else {
          RunCounts(FromCode(t[0]), d + Delta(t[0]), t[1..]);
        }
      case Line =>
        LineStep(t);
        RunCounts(Next(st, t[0]), d, t[1..]);
      case Block =>
        BlockStep(t);
        if |t| > 1 && t[0] == '*' && t[1] == '/' {
          RunTwo(Config(st, d), t);
          RunCounts(Normal, d, t[2..]);
        } else {
          if t[0] == '*' { StarHeldBack(d, t[1..]); }
          RunCounts(Block, d, t[1..]);
        }
      case Quoted(q) =>
        QuoteStep(t, q);
        if t[0] == '\\' {
          if |t| > 1 {
            RunTwo(Config(st, d), t);
            RunCounts(st, d, t[2..]);
          } else {
            EmptyAhead(st);
          }
        } else {
          RunCounts(Next(st, t[0]), d, t[1..]);
        }
    }
  }

  /** The text is balanced exactly when the automaton ends at depth zero. */
  lemma BalancedByAutomaton(s: string)
    ensures Run(Config(Normal, 0), s).depth == Depth(Lex(s))
  {
    RunCounts(Normal, 0, s);
  }
}
