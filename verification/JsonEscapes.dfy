/**
 Which string escapes the canonical text holds (scripts/action-operations-proof.ts): of all texts in
 the grammar that read back as the same string, the printer writes the shortest, in lower-case hex.
 */
module JsonEscapes {
  import opened CanonicalJson

  /** Surrogates stand in pairs only. */
  predicate SurrogatesPaired(t: Text) {
    t == [] ||
    if IsHighSurrogate(t[0]) then |t| > 1 && IsLowSurrogate(t[1]) && SurrogatesPaired(t[2..])
    else !IsLowSurrogate(t[0]) && SurrogatesPaired(t[1..])
  }

  /** No escape is written with the digits A to F. */
  predicate LowerHex(t: Text)
    decreases |t|
  {
    t == [] ||
    if t[0] != BACKSLASH || |t| == 1 then LowerHex(t[1..])
    else if t[1] != 0x75 || |t| < 6 then LowerHex(t[2..])
    else (forall i :: 2 <= i < 6 ==> !(0x41 <= t[i] <= 0x46)) && LowerHex(t[6..])
  }

  /** The text, before its closing quote, reads as `s`. */
  predicate Spells(t: Text, s: Text) { ParseBody(t + [QUOTE]) == Parsed(s, []) }

  /** The first unit spelled, by a unit of its own, a two-character escape or a hex escape. */
  lemma FirstSpelled(t: Text, s: Text) returns (n: nat)
    requires Spells(t, s) && t != []
    ensures s != [] && n <= |t| && Spells(t[n..], s[1..])
    ensures n == 1 || n == 2 || n == 6
    ensures n == 1 ==> t[0] == s[0] >= 0x20 && t[0] != QUOTE && t[0] != BACKSLASH
    ensures n == 2 ==> t[0] == BACKSLASH && t[1] != 0x75 && s[0] == Unescaped(t[1]) >= 0
    ensures n == 6 ==> t[0] == BACKSLASH && t[1] == 0x75 && s[0] == HexQuad(t[2], t[3], t[4], t[5]) >= 0
  {
    hide HexQuad;
    var u := t + [QUOTE];
    assert u[0] == t[0] && ParseBody([]) == Fail;
    n := if t[0] != BACKSLASH then 1 else if u[1] != 0x75 then 2 else 6;
    if n == 6 && |t| == 5 { QuoteIsNoHex(u); }
    assert u[n..] != [];
    assert u[n..] == t[n..] + [QUOTE];
  }

  lemma QuoteIsNoHex(u: Text)
    requires |u| >= 6 && u[5] == QUOTE
    ensures HexQuad(u[2], u[3], u[4], u[5]) < 0
  {
  }

  lemma {:induction false} PairedRest(t: Text, n: nat)
    requires n <= |t| && SurrogatesPaired(t)
    requires forall i :: 0 <= i < n ==> !IsHighSurrogate(t[i]) && !IsLowSurrogate(t[i])
    ensures SurrogatesPaired(t[n..])
    decreases n
  {
    if n == 0 {
      assert t[0..] == t;
    } else {
      PairedRest(t[1..], n - 1);
      assert t[1..][n - 1..] == t[n..];
    }
  }

  /** An escape is at least as long as what the printer writes for the same unit, and in lower case it is that. */
  lemma EscapeOfUnit(t: Text, c: CodeUnit)
    requires |t| == 2 && t[0] == BACKSLASH && t[1] != 0x75 && c == Unescaped(t[1]) >= 0
    ensures !IsHighSurrogate(c) && !IsLowSurrogate(c)
    ensures |EscapeUnit(c)| <= 2 && (|EscapeUnit(c)| == 2 ==> EscapeUnit(c) == t)
  {
  }

  lemma HexOfUnit(t: Text, c: CodeUnit)
    requires |t| == 6 && t[0] == BACKSLASH && t[1] == 0x75 && c == HexQuad(t[2], t[3], t[4], t[5]) >= 0
    ensures 0 <= c < 0x1_0000 && |EscapeUnit(c)| <= 6
    ensures |EscapeUnit(c)| == 6 && (forall i :: 2 <= i < 6 ==> !(0x41 <= t[i] <= 0x46)) ==> EscapeUnit(c) == t
  {
    hide HexDigit;
    if forall i :: 2 <= i < 6 ==> !(0x41 <= t[i] <= 0x46) {
      LowerDigit(t[2]);
      LowerDigit(t[3]);
      LowerDigit(t[4]);
      LowerDigit(t[5]);
      hide HexValue;
      QuadNibbles(HexValue(t[2]), HexValue(t[3]), HexValue(t[4]), HexValue(t[5]));
    }
  }

  lemma LowerDigit(d: CodeUnit)
    requires HexValue(d) >= 0 && !(0x41 <= d <= 0x46)
    ensures 0 <= HexValue(d) < 16 && HexDigit(HexValue(d)) == d
  {
  }

  lemma QuadNibbles(a: int, b: int, c: int, d: int)
    requires 0 <= a < 16 && 0 <= b < 16 && 0 <= c < 16 && 0 <= d < 16
    ensures var n := a * 4096 + b * 256 + c * 16 + d;
            n / 4096 == a && n / 256 % 16 == b && n / 16 % 16 == c && n % 16 == d
  {
    var high := a * 16 + b;
    var upper := high * 16 + c;
    Nibbles(upper * 16 + d);
    LastNibble(upper, d);
    LastNibble(high, c);
    LastNibble(a, b);
  }

  lemma LastNibble(q: nat, r: nat)
    requires r < 16
    ensures (q * 16 + r) / 16 == q && (q * 16 + r) % 16 == r
  {
  }

  /** Only what must be escaped is: every other unit is its own text. */
  lemma RawUnit(c: CodeUnit)
    requires c >= 0x20 && c != QUOTE && c != BACKSLASH && !IsHighSurrogate(c) && !IsLowSurrogate(c)
    ensures EscapeUnit(c) == [c]
  {
  }

  lemma EscapeStep(s: Text)
    requires s != []
    ensures Escape(s) ==
              if |s| > 1 && IsHighSurrogate(s[0]) && IsLowSurrogate(s[1]) then [s[0], s[1]] + Escape(s[2..])
              else EscapeUnit(s[0]) + Escape(s[1..])
  {
  }

  lemma NothingEscaped()
    ensures Escape([]) == [] && SurrogatesPaired([]) && LowerHex([])
  {
  }

  lemma LowerStep(t: Text, n: nat)
    requires LowerHex(t) && n <= |t| && t != []
    requires (n == 1 && t[0] != BACKSLASH) || (n == 2 && t[0] == BACKSLASH && t[1] != 0x75) ||
             (n == 6 && t[0] == BACKSLASH && t[1] == 0x75)
    ensures LowerHex(t[n..]) && (n == 6 ==> forall i :: 2 <= i < 6 ==> !(0x41 <= t[i] <= 0x46))
  {
  }

  lemma PairedStep(t: Text)
    requires SurrogatesPaired(t) && t != []
    ensures !IsLowSurrogate(t[0])
    ensures IsHighSurrogate(t[0]) ==> |t| > 1 && IsLowSurrogate(t[1]) && SurrogatesPaired(t[2..])
  {
  }

  lemma {:induction false} PairedPrefix(a: Text, b: Text)
    requires SurrogatesPaired(b) && forall i :: 0 <= i < |a| ==> !IsHighSurrogate(a[i]) && !IsLowSurrogate(a[i])
    ensures SurrogatesPaired(a + b)
  {
    if a == [] {
      assert a + b == b;
    } else {
      PairedPrefix(a[1..], b);
      assert (a + b)[1..] == a[1..] + b;
    }
  }

  lemma UnitQualifies(c: CodeUnit, rest: Text)
    requires 0 <= c < 0x1_0000 && SurrogatesPaired(rest) && LowerHex(rest)
    ensures SurrogatesPaired(EscapeUnit(c) + rest) && LowerHex(EscapeUnit(c) + rest)
  {
    hide SurrogatesPaired, HexDigit;
    UnitUnits(c);
    PairedPrefix(EscapeUnit(c), rest);
    var t := EscapeUnit(c) + rest;
    var n := |EscapeUnit(c)|;
    assert t[n..] == rest;
  }

  lemma PairQualifies(high: CodeUnit, low: CodeUnit, rest: Text)
    requires IsHighSurrogate(high) && IsLowSurrogate(low) && SurrogatesPaired(rest) && LowerHex(rest)
    ensures SurrogatesPaired([high, low] + rest) && LowerHex([high, low] + rest)
  {
    var t := [high, low] + rest;
    assert t[1..] == [low] + rest && t[2..] == rest && t[1..][1..] == rest;
    assert LowerHex(t[1..]);
  }

  lemma UnitUnits(c: CodeUnit)
    requires 0 <= c < 0x1_0000
    ensures var u := EscapeUnit(c);
            && (forall i :: 0 <= i < |u| ==> !IsHighSurrogate(u[i]) && !IsLowSurrogate(u[i]))
            && (|u| == 1 ==> u[0] != BACKSLASH) && (|u| == 2 ==> u[0] == BACKSLASH && u[1] != 0x75)
            && (|u| == 6 ==> forall i :: 2 <= i < 6 ==> !(0x41 <= u[i] <= 0x46))
            && (|u| == 1 || |u| == 2 || |u| == 6)
  {
  }

  /** What the printer writes is itself such a text. */
  lemma {:induction false} EscapeQualifies(s: Text)
    requires ValidText(s)
    ensures SurrogatesPaired(Escape(s)) && LowerHex(Escape(s)) && Spells(Escape(s), s)
    decreases |s|
  {
    hide EscapeUnit, ParseBody, Escape, SurrogatesPaired, LowerHex;
    EscapeRoundTrip(s, []);
    assert Escape(s) + ([QUOTE] + []) == Escape(s) + [QUOTE];
    if s == [] {
      NothingEscaped();
    } else {
      EscapeStep(s);
      if |s| > 1 && IsHighSurrogate(s[0]) && IsLowSurrogate(s[1]) {
        EscapeQualifies(s[2..]);
        PairQualifies(s[0], s[1], Escape(s[2..]));
      } else {
        EscapeQualifies(s[1..]);
        UnitQualifies(s[0], Escape(s[1..]));
      }
    }
  }

  /**
   Of all texts with paired surrogates that spell `s` the printer's is the shortest, and of the
   shortest the only one in lower-case hex.
   */
  lemma {:induction false} EscapeShortest(t: Text, s: Text)
    requires Spells(t, s) && SurrogatesPaired(t)
    ensures |t| >= |Escape(s)|
    ensures |t| == |Escape(s)| && LowerHex(t) ==> t == Escape(s)
    decreases |t|
  {
    hide EscapeUnit, Escape, Unescaped, HexQuad, Spells, LowerHex, SurrogatesPaired;
    if t == [] {
      NothingSpelled(s);
      NothingEscaped();
      return;
    }
    var n := FirstSpelled(t, s);
    EscapeStep(s);
    PairedStep(t);
    if n == 1 && IsHighSurrogate(t[0]) {
      var m := FirstSpelled(t[1..], s[1..]);
      assert t[1..][0] == t[1] && t[1..][1..] == t[2..] && s[1..][1..] == s[2..];
      EscapeShortest(t[2..], s[2..]);
      if LowerHex(t) { LowerStep(t, 1); LowerStep(t[1..], 1); }
      assert t == [t[0], t[1]] + t[2..];
      return;
    }
    var c := s[0];
    if n == 1 { RawUnit(c); } else if n == 2 { EscapeOfUnit(t[..2], c); AsciiEscape(t[1]); } else { HexOfUnit(t[..6], c); AsciiHex(t); }
    PairedRest(t, n);
    EscapeShortest(t[n..], s[1..]);
    if LowerHex(t) { LowerStep(t, n); }
    assert t == t[..n] + t[n..];
    if |s| > 1 && IsHighSurrogate(c) && IsLowSurrogate(s[1]) {
      EscapeStep(s[1..]);
      LowEscaped(s[1]);
      assert s[1..][1..] == s[2..];
    } else if n == 1 {
      assert t[..1] == [c];
    }
  }

  lemma AsciiEscape(c: CodeUnit)
    requires Unescaped(c) >= 0
    ensures !IsHighSurrogate(c) && !IsLowSurrogate(c)
  {
  }

  lemma AsciiHex(t: Text)
    requires |t| >= 6 && t[0] == BACKSLASH && t[1] == 0x75 && HexQuad(t[2], t[3], t[4], t[5]) >= 0
    ensures forall i :: 0 <= i < 6 ==> !IsHighSurrogate(t[i]) && !IsLowSurrogate(t[i])
  {
  }

  lemma LowEscaped(c: CodeUnit)
    requires IsLowSurrogate(c)
    ensures |EscapeUnit(c)| == 6 && !IsHighSurrogate(c)
  {
  }

  lemma NothingSpelled(s: Text)
    requires Spells([], s)
    ensures s == []
  {
    assert [] + [QUOTE] == [QUOTE];
  }

  /** A text without quotes, backslashes, controls and surrogates is its own escape. */
  lemma {:induction false} PlainTextKept(s: Text)
    requires forall i :: 0 <= i < |s| ==>
               s[i] >= 0x20 && s[i] != QUOTE && s[i] != BACKSLASH && !IsHighSurrogate(s[i]) && !IsLowSurrogate(s[i])
    ensures Escape(s) == s
    decreases |s|
  {
    hide EscapeUnit;
    if s != [] {
      RawUnit(s[0]);
      PlainTextKept(s[1..]);
      assert s == [s[0]] + s[1..];
    }
  }

  // ---------------------------------------------------------------------------------------
  // Texts, character by character
  // ---------------------------------------------------------------------------------------

  function Units(s: string): Text { seq(|s|, i requires 0 <= i < |s| => s[i] as int) }

  /** The two-character escapes, and the form of a hex escape. */
  lemma EscapeTable()
    ensures EscapeUnit(0x22) == Units("\\\"") && EscapeUnit(0x5C) == Units("\\\\")
    ensures EscapeUnit(0x08) == Units("\\b") && EscapeUnit(0x0C) == Units("\\f") && EscapeUnit(0x0A) == Units("\\n")
    ensures EscapeUnit(0x0D) == Units("\\r") && EscapeUnit(0x09) == Units("\\t")
    ensures EscapeUnit(0x1F) == Units("\\u001f") && EscapeUnit(0xDBFF) == Units("\\udbff")
  {
  }

  /** Surrogates are told by their upper six bits, 110110 for a high and 110111 for a low one. */
  lemma SurrogateTable(c: CodeUnit)
    requires 0 <= c < 0x1_0000
    ensures IsHighSurrogate(c) <==> c / 0x400 == 0x36
    ensures IsLowSurrogate(c) <==> c / 0x400 == 0x37
  {
  }

  /** The punctuation and the words. */
  lemma TokenTable()
    ensures Units("\"\\,:[]{}") == [QUOTE, BACKSLASH, COMMA, COLON, LBRACK, RBRACK, LBRACE, RBRACE]
    ensures Units("null") == NULL && Units("true") == TRUE && Units("false") == FALSE
  {
  }

  /** The characters of a number. */
  lemma NumberTable(c: CodeUnit)
    ensures IsNumberUnit(c) <==> c in Units("0123456789-+.eE")
  {
    var t, s := Units("0123456789-+.eE"), "0123456789-+.eE";
    assert s[10] == '-' && s[11] == '+' && s[12] == '.' && s[13] == 'e' && s[14] == 'E';
    assert t[10] == 0x2D && t[11] == 0x2B && t[12] == 0x2E && t[13] == 0x65 && t[14] == 0x45;
    if 0x30 <= c <= 0x39 { assert t[c - 0x30] == c; }
  }

  /** The hex digits a reader takes, in either case, and what they are worth. */
  lemma HexTable(c: CodeUnit)
    ensures forall n :: 0 <= n < 16 ==>
              HexValue(Units("0123456789abcdef")[n]) == n && HexValue(Units("0123456789ABCDEF")[n]) == n
    ensures HexValue(c) >= 0 ==> c in Units("0123456789abcdef") || c in Units("0123456789ABCDEF")
  {
    var s, t := "0123456789abcdef", "0123456789ABCDEF";
    var n := HexValue(c);
    forall i | 0 <= i < 16
      ensures s[i] as int == (if i < 10 then 0x30 + i else 0x57 + i) && t[i] as int == (if i < 10 then 0x30 + i else 0x37 + i)
    {
      assert s[10] == 'a' && s[11] == 'b' && s[12] == 'c' && s[13] == 'd' && s[14] == 'e' && s[15] == 'f';
      assert t[10] == 'A' && t[11] == 'B' && t[12] == 'C' && t[13] == 'D' && t[14] == 'E' && t[15] == 'F';
    }
    if n >= 0 { assert Units(s)[n] == c || Units(t)[n] == c; }
  }

  /** The two-character escapes a reader takes: eight, of which the printer writes seven. */
  lemma ReaderTable(c: CodeUnit)
    ensures Unescaped(c) >= 0 <==> c in Units("\"\\/bfnrt")
    ensures Unescaped('/' as int) == '/' as int
  {
    var s := "\"\\/bfnrt";
    var t := Units(s);
    assert t[0] == 0x22 && t[1] == 0x5C && t[2] == 0x2F && t[3] == 0x62 && t[4] == 0x66 && t[5] == 0x6E && t[6] == 0x72 && t[7] == 0x74;
  }
}
