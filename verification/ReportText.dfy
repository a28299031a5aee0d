/**
 What an edit of `rewriteCatches` writes (scripts/apply-besteffort-fixes.ts): the line it reports,
 read back from the digits, and the whole replacement on examples.
 */
module ReportText {
  import opened Sequences
  import opened JsText
  import opened EmptyBody
  import opened CatchRewrite

  // ---------------------------------------------------------------------------------------
  // The line number
  // ---------------------------------------------------------------------------------------

  predicate IsDigit(c: char) { '0' <= c <= '9' }

  /** The number some digits denote, read from the left. */
  function NumberOf(s: string): int {
    if s == [] then 0 else NumberOf(s[..|s| - 1]) * 10 + (s[|s| - 1] as int - '0' as int)
  }

  /** A numeral as people write it. */
  predicate IsNumeral(s: string) { s != [] && All(s, IsDigit) && (|s| > 1 ==> s[0] != '0') }

  /** The digits written for a number are its numeral. */
  lemma {:induction false} DecimalIsNumeral(n: nat)
    ensures IsNumeral(Decimal(n)) && NumberOf(Decimal(n)) == n
    ensures n > 0 ==> Decimal(n)[0] != '0'
  {
    var s := Decimal(n);
    if n < 10 {
      assert s[..0] == [];
    } else {
      DecimalIsNumeral(n / 10);
      assert s[..|s| - 1] == Decimal(n / 10);
    }
  }

  function NewlinesBefore(src: string, offset: nat): set<int>
    requires offset <= |src|
  {
    set k | 0 <= k < offset && src[k] == '\n'
  }

  /** Lines are counted from one. */
  lemma {:induction false} LineCounts(src: string, offset: nat)
    requires offset <= |src|
    ensures LineOf(src, offset) == |NewlinesBefore(src, offset)| + 1
  {
    if offset > 0 {
      LineCounts(src, offset - 1);
      NewlinesSnoc(src[..offset - 1], src[offset - 1]);
      assert src[..offset] == src[..offset - 1] + [src[offset - 1]];
      assert NewlinesBefore(src, offset) ==
               NewlinesBefore(src, offset - 1) + if src[offset - 1] == '\n' then {offset - 1} else {};
    } else {
      assert NewlinesBefore(src, 0) == {};
    }
  }

  lemma {:induction false} NewlinesSnoc(t: string, c: char)
    ensures Newlines(t + [c]) == Newlines(t) + if c == '\n' then 1 else 0
    decreases |t|
  {
    var u := t + [c];
    if t == [] {
      assert u == [c];
    } else {
      assert u[1..] == t[1..] + [c];
      NewlinesSnoc(t[1..], c);
    }
  }

  /**
   Every edit reports its place: between the colon after the file name and the closing quote stands
   the numeral of the line in which the match begins.
   */
  lemma EditReportsLine(content: string, base: string, i: nat) returns (front: string, number: string)
    requires i <= |content| && MatchHere(content[i..]).Some? && IsEffectivelyEmpty(MatchHere(content[i..]).value.body)
    ensures var m := MatchHere(content[i..]).value;
            front + base + ":" + number + "');\n" + m.indent + "}" <= Rewritten(content, base, i)
    ensures IsNumeral(number) && NumberOf(number) == |NewlinesBefore(content, i)| + 1
  {
    hide MatchHere, IsEffectivelyEmpty, CatchText, ValidCatch, Decimal, NewHead, Marker, NameOf;
    MatchFits(content, i);
    var m, line := MatchHere(content[i..]).value, LineOf(content, i);
    var pad := if m.indent == [] then "  " else m.indent;
    LineCounts(content, i);
    DecimalIsNumeral(line);
    number := Decimal(line);
    front := NewHead(m) + (Marker(m) + ("\n" + (m.indent + (pad + ("reportSilentFailure(" + (NameOf(m) + ", '"))))));
    hide Replacement;
    ReplacementSplits(m, base, line);
  }

  lemma ReplacementSplits(m: Catch, base: string, line: nat)
    ensures var pad := if m.indent == [] then "  " else m.indent;
            var front := NewHead(m) + (Marker(m) + ("\n" + (m.indent + (pad + ("reportSilentFailure(" + (NameOf(m) + ", '"))))));
            front + base + ":" + Decimal(line) + "');\n" + m.indent + "}" == Replacement(m, base, line)
  {
    hide NewHead, Marker, Decimal, NameOf, ReportCall;
    var pad := if m.indent == [] then "  " else m.indent;
    var call := "\n" + (m.indent + (pad + ("reportSilentFailure(" + (NameOf(m) + ", '"))));
    ReportSplits(m, base, line);
    Assoc(NewHead(m), Marker(m), call);
  }

  lemma ReportSplits(m: Catch, base: string, line: nat)
    ensures var pad := if m.indent == [] then "  " else m.indent;
            var tail := base + ":" + Decimal(line) + "');\n" + m.indent;
            ReportCall(m, base, line) == "\n" + (m.indent + (pad + ("reportSilentFailure(" + (NameOf(m) + ", '")))) + tail
  {
    hide Decimal, NameOf;
  }

  // ---------------------------------------------------------------------------------------
  // Examples
  // ---------------------------------------------------------------------------------------

  lemma DocumentedExample()
    ensures "reportSilentFailure(" + ("e" + (", '" + ("file" + (":" + ("12" + ("');\n" + "  ")))))) ==
              "reportSilentFailure(e, 'file:12');\n  "
  {
    assert "file" + (":" + ("12" + ("');\n" + "  "))) == "file:12');\n  ";
    assert "e" + (", '" + "file:12');\n  ") == "e, 'file:12');\n  ";
  }

  lemma BareExample()
    ensures "reportSilentFailure(" + ("_silentE_" + (", '" + ("file" + (":" + ("3" + ("');\n" + "")))))) ==
              "reportSilentFailure(_silentE_, 'file:3');\n"
  {
    assert "file" + (":" + ("3" + ("');\n" + ""))) == "file:3');\n";
    assert "_silentE_" + (", '" + "file:3');\n") == "_silentE_, 'file:3');\n";
  }

  /** A bound error, an indented block and a documented intent. */
  lemma DocumentedEdit()
    ensures var m := Catch("  ", " ", " ", Binder("", "e", ""), " ", "/* Best-Effort */");
            Replacement(m, "file", 12) ==
              "  } catch (e) {" + (" /* best-effort */" + ("\n    " + "reportSilentFailure(e, 'file:12');\n  " + "}"))
  {
    hide Decimal, MentionsBestEffort;
    var m := Catch("  ", " ", " ", Binder("", "e", ""), " ", "/* Best-Effort */");
    IntentFound();
    Twelve();
    DocumentedExample();
    var r := "reportSilentFailure(e, 'file:12');\n  ";
    assert "\n" + ("  " + ("  " + r)) == "\n    " + r;
    assert NewHead(m) == "  } catch (e) {";
    hide NewHead;
    assert ReportCall(m, "file", 12) == "\n" + ("  " + ("  " + r));
  }

  lemma Twelve()
    ensures Decimal(12) == "12" && Decimal(3) == "3"
  {
    assert Decimal(1) == "1";
  }

  const BARE := Catch("", "\n", "", NoBinder, "", "")

  /** No binding, no indentation and an empty body. */
  lemma BareEdit()
    ensures Replacement(BARE, "file", 3) ==
              "} catch (_silentE_) {" + ("\n  " + "reportSilentFailure(_silentE_, 'file:3');\n" + "}")
  {
    hide NewHead, Marker, ReportCall;
    BareHead();
    BareCall();
  }

  lemma BareHead()
    ensures NewHead(BARE) == "} catch (_silentE_) {" && Marker(BARE) == ""
  {
    assert !MentionsBestEffort("") by { NoIntent(""); }
  }

  lemma BareCall()
    ensures ReportCall(BARE, "file", 3) == "\n  " + "reportSilentFailure(_silentE_, 'file:3');\n"
  {
    hide Decimal;
    Twelve();
    BareExample();
    var r := "reportSilentFailure(_silentE_, 'file:3');\n";
    assert "\n" + ("" + ("  " + r)) == "\n  " + r;
  }

  lemma NoIntent(body: string)
    requires forall i :: 0 <= i <= |body| - 11 ==> !BestEffortAt(body, i)
    ensures !MentionsBestEffort(body)
  {
  }

  lemma IntentFound()
    ensures MentionsBestEffort("/* Best-Effort */")
  {
    assert BestEffortAt("/* Best-Effort */", 3);
  }

  /** The intent is a word of its own. */
  lemma IntentIsWord()
    ensures MentionsBestEffort("best-effort") && MentionsBestEffort("/* Best-Effort */")
    ensures !MentionsBestEffort("abest-effort") && !MentionsBestEffort("best-efforts") && !MentionsBestEffort("best effort")
  {
    hide MentionsBestEffort;
    IntentFound();
    IntentAlone();
    IntentPrefixed();
    IntentSuffixed();
  }

  /** The word, in any case, letter by letter. */
  predicate IsIntent(word: string) {
    |word| == 11 && forall k :: 0 <= k < 11 ==> word[k] == "best-effort"[k] || word[k] == "BEST-EFFORT"[k]
  }

  lemma AnyCase(c: char, k: nat)
    requires k < 11
    ensures Lower(c) == "best-effort"[k] <==> c == "best-effort"[k] || c == "BEST-EFFORT"[k]
  {
    var small, big := "best-effort", "BEST-EFFORT";
    assert small[0] == 'b' && small[1] == 'e' && small[2] == 's' && small[3] == 't' && small[4] == '-' && small[5] == 'e';
    assert small[6] == 'f' && small[7] == 'f' && small[8] == 'o' && small[9] == 'r' && small[10] == 't';
    assert big[0] == 'B' && big[1] == 'E' && big[2] == 'S' && big[3] == 'T' && big[4] == '-' && big[5] == 'E';
    assert big[6] == 'F' && big[7] == 'F' && big[8] == 'O' && big[9] == 'R' && big[10] == 'T';
  }

  lemma IntentHere(body: string, i: nat)
    requires i + 11 <= |body|
    ensures (forall k :: 0 <= k < 11 ==> Lower(body[i + k]) == "best-effort"[k]) <==> IsIntent(body[i..i + 11])
  {
    hide Lower;
    var word := body[i..i + 11];
    forall k | 0 <= k < 11 ensures Lower(body[i + k]) == "best-effort"[k] <==> word[k] == "best-effort"[k] || word[k] == "BEST-EFFORT"[k] {
      AnyCase(word[k], k);
    }
  }

  /** The word stands at this offset, between no word characters. */
  predicate IntentAt(body: string, i: nat) {
    && i + 11 <= |body| && IsIntent(body[i..i + 11])
    && (i == 0 || !IsWordChar(body[i - 1])) && (i + 11 == |body| || !IsWordChar(body[i + 11]))
  }

  /** The intent is mentioned exactly where the word stands, in any case, on its own. */
  lemma IntentExact(body: string)
    ensures MentionsBestEffort(body) <==> exists i: nat :: IntentAt(body, i)
  {
    forall i | 0 <= i <= |body| - 11 ensures BestEffortAt(body, i) <==> IntentAt(body, i) { IntentHere(body, i); }
    assert forall i: nat :: IntentAt(body, i) ==> i <= |body| - 11;
    hide BestEffortAt;
    if i :| 0 <= i <= |body| - 11 && BestEffortAt(body, i) { assert IntentAt(body, i); }
    if i: nat :| IntentAt(body, i) { assert BestEffortAt(body, i); }
  }

  lemma IntentAlone()
    ensures MentionsBestEffort("best-effort") && !MentionsBestEffort("best effort")
  {
    assert BestEffortAt("best-effort", 0);
    var s := "best effort";
    assert Lower(s[4]) == ' ' && "best-effort"[4] == '-';
    assert !BestEffortAt(s, 0);
    NoIntent(s);
  }

  lemma IntentPrefixed()
    ensures !MentionsBestEffort("abest-effort")
  {
    var s := "abest-effort";
    assert s[0] == 'a' && Lower('a') == 'a';
    assert !BestEffortAt(s, 0) && !BestEffortAt(s, 1);
    NoIntent(s);
  }

  lemma IntentSuffixed()
    ensures !MentionsBestEffort("best-efforts")
  {
    var s := "best-efforts";
    assert s[1] == 'e' && s[11] == 's';
    assert !BestEffortAt(s, 0) && !BestEffortAt(s, 1);
    NoIntent(s);
  }

  /** Where the character classes of the pattern end. */
  lemma ClassBounds()
    ensures IsNameStart('a') && IsNameStart('z') && IsNameStart('A') && IsNameStart('Z') && IsNameStart('_') && IsNameStart('$')
    ensures !IsNameStart('0') && !IsNameStart('@') && !IsNameStart('[') && !IsNameStart('`') && !IsNameStart('{')
    ensures IsNameChar('0') && IsNameChar('9') && !IsNameChar('/') && !IsNameChar(':') && !IsNameChar('-')
    ensures forall c :: IsNameStart(c) ==> IsNameChar(c)
    ensures forall c :: IsBlank(c) <==> c in " \t"
    ensures CATCH == "catch"
  {
    assert " \t"[0] == ' ' && " \t"[1] == '\t';
  }

  lemma SpaceTable()
    ensures forall c :: c in "\t\n\r \U{0B}\U{0C}\U{A0}\U{1680}\U{2000}\U{200A}\U{2028}\U{2029}\U{202F}\U{205F}\U{3000}\U{FEFF}" ==> IsSpace(c)
    ensures forall c :: c in "\U{08}\U{0E}\U{1F}!\U{85}\U{9F}\U{A1}\U{167F}\U{1FFF}\U{200B}\U{2027}\U{202A}\U{2060}\U{3001}" ==> !IsSpace(c)
  {
  }
}
