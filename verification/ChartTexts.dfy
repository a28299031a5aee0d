/**
 The texts of the chart digest, spelled out (scripts/chart-content-digest.ts): the annotation line,
 the file name it is looked for in, the prefix of the hashed bytes, and UTF-8 byte by byte.
 */
module ChartTexts {
  import opened Utf8
  import opened ChartAnnotation
  import opened ChartPreimage
  import opened ChartDigest

  // ---------------------------------------------------------------------------------------
  // UTF-8
  // ---------------------------------------------------------------------------------------

  predicate IsContinuation(b: int) { 0x80 <= b <= 0xBF }

  /** The well-formed byte sequences of table 3-7 of the Unicode Standard. */
  predicate WellFormed(b: Bytes) {
    match |b|
    case 1 => 0 <= b[0] <= 0x7F
    case 2 => 0xC2 <= b[0] <= 0xDF && IsContinuation(b[1])
    case 3 =>
      && 0xE0 <= b[0] <= 0xEF && IsContinuation(b[1]) && IsContinuation(b[2])
      && (b[0] == 0xE0 ==> b[1] >= 0xA0) && (b[0] == 0xED ==> b[1] <= 0x9F)
    case 4 =>
      && 0xF0 <= b[0] <= 0xF4 && IsContinuation(b[1]) && IsContinuation(b[2]) && IsContinuation(b[3])
      && (b[0] == 0xF0 ==> b[1] >= 0x90) && (b[0] == 0xF4 ==> b[1] <= 0x8F)
    case _ => false
  }

  lemma Bits(n: nat)
    ensures n == n / 64 * 64 + n % 64 && n / 64 == n / 4096 * 64 + n / 64 % 64 && n / 4096 == n / 262144 * 64 + n / 4096 % 64
  {
    Sextets(n);
  }

  /** The bytes of a scalar value are well formed. */
  lemma ScalarWellFormed(n: int)
    requires IsScalar(n)
    ensures WellFormed(EncodeScalar(n))
  {
    Bits(n);
  }

  lemma Sextet(q: nat, r: nat)
    requires r < 64
    ensures (q * 64 + r) / 64 == q && (q * 64 + r) % 64 == r
  {
  }

  lemma TwoBytes(b: Bytes) returns (n: int)
    requires WellFormed(b) && |b| == 2
    ensures IsScalar(n) && EncodeScalar(n) == b
  {
    var q, r := b[0] - 0xC0, b[1] - 0x80;
    n := q * 64 + r;
    Sextet(q, r);
  }

  lemma ThreeBytes(b: Bytes) returns (n: int)
    requires WellFormed(b) && |b| == 3
    ensures IsScalar(n) && EncodeScalar(n) == b
  {
    var p, q, r := b[0] - 0xE0, b[1] - 0x80, b[2] - 0x80;
    n := (p * 64 + q) * 64 + r;
    Sextet(p * 64 + q, r);
    Sextet(p, q);
    Sextets(n);
  }

  lemma FourBytes(b: Bytes) returns (n: int)
    requires WellFormed(b) && |b| == 4
    ensures IsScalar(n) && EncodeScalar(n) == b
  {
    var o, p, q, r := b[0] - 0xF0, b[1] - 0x80, b[2] - 0x80, b[3] - 0x80;
    n := ((o * 64 + p) * 64 + q) * 64 + r;
    Sextet((o * 64 + p) * 64 + q, r);
    Sextet(o * 64 + p, q);
    Sextet(o, p);
    Sextets(n);
  }

  /** And every well-formed sequence is the bytes of a scalar value. */
  lemma WellFormedScalar(b: Bytes) returns (n: int)
    requires WellFormed(b)
    ensures IsScalar(n) && EncodeScalar(n) == b
  {
    if |b| == 1 { n := b[0]; }
    else if |b| == 2 { n := TwoBytes(b); }
    else if |b| == 3 { n := ThreeBytes(b); }
    else { n := FourBytes(b); }
  }

  // ---------------------------------------------------------------------------------------
  // The annotation line
  // ---------------------------------------------------------------------------------------

  predicate EndsLine(c: char) { c in "\n\r\U{2028}\U{2029}" }

  predicate LowerHex(w: string) { forall k :: 0 <= k < |w| ==> w[k] in "0123456789abcdef" }

  /** The text with `before` in front, behind it the line with these digits, and `after`. */
  ghost predicate HasLine(text: string, before: string, digits: string, after: string) {
    && text == before + ("  commander.io/content-sha256: " + (digits + after)) && |digits| == 64 && LowerHex(digits)
    && (before != "" ==> EndsLine(before[|before| - 1])) && (after != "" ==> EndsLine(after[0]))
  }

  lemma Characters(c: char)
    ensures IsHex(c) <==> c in "0123456789abcdef"
    ensures IsTerminator(c) <==> EndsLine(c)
  {
    var digits, ends := "0123456789abcdef", "\n\r\U{2028}\U{2029}";
    if '0' <= c <= '9' { assert digits[c as int - '0' as int] == c; }
    if 'a' <= c <= 'f' { assert digits[10 + c as int - 'a' as int] == c; }
    assert ends[0] == '\n' && ends[1] == '\r' && ends[2] as int == 0x2028 && ends[3] as int == 0x2029;
    if c as int == 0x2028 { assert c == ends[2]; }
    if c as int == 0x2029 { assert c == ends[3]; }
  }

  lemma LabelExact(text: string, i: nat)
    ensures LabelAt(text, i) <==> i + 31 <= |text| && text[i..i + 31] == "  commander.io/content-sha256: "
  {
    if i + 31 <= |text| {
      var lead := text[i..i + 31];
      assert forall k :: 0 <= k < 31 ==> lead[k] == text[i + k];
    }
  }

  lemma RunExact(text: string, p: nat)
    requires p + 64 <= |text|
    ensures HexRunAt(text, p) <==> LowerHex(text[p..p + 64])
  {
    var w := text[p..p + 64];
    forall k | 0 <= k < 64 ensures IsHex(text[p + k]) <==> w[k] in "0123456789abcdef" { Characters(w[k]); }
    if LowerHex(w) {
      forall k | p <= k < p + DIGITS ensures IsHex(text[k]) { assert w[k - p] in "0123456789abcdef"; }
    }
  }

  /** The pattern matches exactly where such a line stands. */
  lemma LineExact(text: string, i: nat)
    ensures MatchAt(text, i) <==>
              i + 95 <= |text| && HasLine(text, text[..i], text[i + 31..i + 95], text[i + 95..])
  {
    hide LabelAt, HexRunAt, IsTerminator, EndsLine, LowerHex;
    LabelExact(text, i);
    if i + 95 <= |text| {
      RunExact(text, i + 31);
      LeadExact(text, i, "  commander.io/content-sha256: ");
      Characters(if i > 0 then text[i - 1] else ' ');
      Characters(if i + 95 < |text| then text[i + 95] else ' ');
    } else {
      TooShort(text, i);
    }
  }

  lemma LeadExact(text: string, i: nat, lead: string)
    requires i + 95 <= |text| && |lead| == 31
    ensures text == text[..i] + (lead + (text[i + 31..i + 95] + text[i + 95..])) <==> text[i..i + 31] == lead
  {
    var rest := text[i + 31..i + 95] + text[i + 95..];
    assert text == text[..i] + (text[i..i + 31] + rest);
    assert (text[..i] + (lead + rest))[i..i + 31] == lead;
  }

  lemma TooShort(text: string, i: nat)
    requires i + 95 > |text|
    ensures !MatchAt(text, i)
  {
  }

  // ---------------------------------------------------------------------------------------
  // Names and prefix
  // ---------------------------------------------------------------------------------------

  lemma Spells(b: Bytes, t: string)
    requires |b| == |t| && forall i :: 0 <= i < |t| ==> b[i] == t[i] as int && b[i] < 0x80
    ensures Encode(t) == b
  {
    EncodeAscii(t);
    hide Encode;
  }

  lemma Spelled()
    ensures CHART_YAML == Encode("Chart.yaml") && [SLASH] + CHART_YAML == Encode("/Chart.yaml")
    ensures PREFIX == Encode("commander.chart-content/v1") + [0]
  {
    hide Encode, EncodeScalar;
    NameSpelled();
    PrefixSpelled();
  }

  lemma NameSpelled()
    ensures CHART_YAML == Encode("Chart.yaml") && [SLASH] + CHART_YAML == Encode("/Chart.yaml")
  {
    hide Encode, EncodeScalar;
    Spells(CHART_YAML, "Chart.yaml");
    Spells([SLASH] + CHART_YAML, "/Chart.yaml");
  }

  lemma PrefixSpelled()
    ensures PREFIX == Encode("commander.chart-content/v1") + [0]
  {
    hide Encode, EncodeScalar;
    Spells(PREFIX[..26], "commander.chart-content/v1");
    assert PREFIX == PREFIX[..26] + [0];
  }

  /** Masked are exactly the files named Chart.yaml, at any depth. */
  lemma ChartPathExact(path: Bytes)
    ensures IsChartPath(path) <==>
              path == Encode("Chart.yaml") || exists directory: Bytes :: path == directory + Encode("/Chart.yaml")
  {
    Spelled();
    hide Encode;
    var tail := Encode("/Chart.yaml");
    if |path| > 10 && path[|path| - 11] == SLASH && path[|path| - 10..] == CHART_YAML {
      assert path == path[..|path| - 11] + ([SLASH] + CHART_YAML);
    }
    if directory: Bytes :| path == directory + tail { Behind(directory, tail); }
  }

  lemma Behind(directory: Bytes, tail: Bytes)
    requires tail == [SLASH] + CHART_YAML
    ensures IsChartPath(directory + tail)
  {
    var path := directory + tail;
    assert path[|path| - 11..] == tail;
    assert path[|path| - 10..] == tail[1..] == CHART_YAML;
  }

  /** Everything hashed starts with the versioned prefix and a zero byte. */
  lemma PreimageStarts(entries: seq<Entry>)
    ensures Preimage(entries).Ok? ==> Encode("commander.chart-content/v1") + [0] <= Preimage(entries).value
  {
    hide HashedFiles, Encode;
    Spelled();
  }
}
