/**
 The digest annotation of a Chart.yaml text (scripts/chart-content-digest.ts): the one line
 `  commander.io/content-sha256: <64 hex digits>`, how it is found, masked and replaced.
 */
module ChartAnnotation {
  import opened Wrappers

  const LABEL := "  commander.io/content-sha256: "
  const LABEL_LENGTH := 31
  const DIGITS := 64
  const LINE_LENGTH := 95

  predicate IsHex(c: char) { '0' <= c <= '9' || 'a' <= c <= 'f' }

  /** What `^` and `$` see as the end of a line under the `m` flag. */
  predicate IsTerminator(c: char) {
    c == '\n' || c == '\r' || c as int == 0x2028 || c as int == 0x2029
  }

  predicate IsDigest(w: string) { |w| == DIGITS && forall k :: 0 <= k < DIGITS ==> IsHex(w[k]) }

  predicate HexRunAt(text: string, p: int) {
    0 <= p && p + DIGITS <= |text| && forall k :: p <= k < p + DIGITS ==> IsHex(text[k])
  }

  predicate LabelAt(text: string, i: int) {
    0 <= i && i + LABEL_LENGTH <= |text| && forall k :: 0 <= k < LABEL_LENGTH ==> text[i + k] == LABEL[k]
  }

  /** The annotation pattern matches at offset `i`. */
  predicate MatchAt(text: string, i: int) {
    && LabelAt(text, i)
    && HexRunAt(text, i + LABEL_LENGTH)
    && (i == 0 || IsTerminator(text[i - 1]))
    && (i + LINE_LENGTH == |text| || IsTerminator(text[i + LINE_LENGTH]))
  }

  lemma LabelLength()
    ensures |LABEL| == LABEL_LENGTH
    ensures LABEL[LABEL_LENGTH - 1] == ' '
    ensures forall k :: 0 <= k < LABEL_LENGTH ==> !IsTerminator(LABEL[k])
  {
  }

  /** `matchAll`: left to right, resuming after each match. */
  function Matches(text: string, i: nat): seq<nat>
    decreases |text| - i
  {
    if i >= |text| then []
    else if MatchAt(text, i) then [i] + Matches(text, i + LINE_LENGTH)
    else Matches(text, i + 1)
  }

  /** Two matches do not overlap, so resuming after a match misses none. */
  lemma MatchesDisjoint(text: string, i: int, j: int)
    requires MatchAt(text, i) && MatchAt(text, j) && i < j
    ensures i + LINE_LENGTH < j
  {
  }

  lemma {:induction false} MatchesAll(text: string, i: nat, j: nat)
    ensures j in Matches(text, i) <==> i <= j && MatchAt(text, j)
    decreases |text| - i
  {
    hide MatchAt;
    if i >= |text| {
      MatchInside(text, j);
    } else if MatchAt(text, i) {
      MatchesAll(text, i + LINE_LENGTH, j);
      if MatchAt(text, j) && i < j { MatchesDisjoint(text, i, j); }
    } else {
      MatchesAll(text, i + 1, j);
    }
  }

  lemma MatchInside(text: string, j: nat)
    ensures MatchAt(text, j) ==> j + LINE_LENGTH <= |text|
  {
  }

  /** The offset of the annotation line, when there is exactly one and no carriage return. */
  function Find(text: string): Option<nat> {
    var found := Matches(text, 0);
    if '\r' in text || |found| != 1 then None else Some(found[0])
  }

  /** One match and no other. */
  lemma FindExact(text: string, i: nat)
    ensures Find(text) == Some(i) <==>
              '\r' !in text && MatchAt(text, i) && forall j: nat :: MatchAt(text, j) ==> j == i
  {
    hide MatchAt, Matches;
    var found := Matches(text, 0);
    if Find(text) == Some(i) {
      assert found == [i];
      MatchesAll(text, 0, i);
      forall j: nat | MatchAt(text, j) ensures j == i { MatchesAll(text, 0, j); }
    }
    if MatchAt(text, i) && forall j: nat :: MatchAt(text, j) ==> j == i {
      MatchesAll(text, 0, i);
      MatchesIncrease(text, 0);
      forall k | 0 <= k < |found| ensures found[k] == i {
        MatchesAll(text, 0, found[k]);
        assert found[k] in found;
      }
      OnlyOne(found, i);
    }
  }

  lemma OnlyOne(s: seq<nat>, i: nat)
    requires i in s && forall k :: 0 <= k < |s| ==> s[k] == i
    requires forall a, b :: 0 <= a < b < |s| ==> s[a] < s[b]
    ensures s == [i]
  {
    assert s[0] == i && s[|s| - 1] == i;
  }

  lemma {:induction false} MatchesIncrease(text: string, i: nat)
    ensures forall a, b :: 0 <= a < b < |Matches(text, i)| ==> Matches(text, i)[a] < Matches(text, i)[b]
    ensures forall a :: 0 <= a < |Matches(text, i)| ==> i <= Matches(text, i)[a]
    decreases |text| - i
  {
    hide MatchAt;
    if i < |text| {
      MatchesIncrease(text, if MatchAt(text, i) then i + LINE_LENGTH else i + 1);
    }
  }

  // ---------------------------------------------------------------------------------------
  // Replacing 64 hex digits
  // ---------------------------------------------------------------------------------------

  function Overwrite(text: string, p: nat, w: string): (r: string)
    requires p + DIGITS <= |text| && |w| == DIGITS
    ensures |r| == |text|
    ensures forall k :: 0 <= k < |text| ==> r[k] == if p <= k < p + DIGITS then w[k - p] else text[k]
  {
    text[..p] + w + text[p + DIGITS..]
  }

  lemma OutsideRun(text: string, p: nat, k: nat)
    requires HexRunAt(text, p) && k < |text| && !IsHex(text[k])
    ensures k < p || p + DIGITS <= k
  {
  }

  /** A run of 64 hex digits meets an annotation line only as its value. */
  lemma RunIsValueOrOutside(text: string, p: nat, j: nat)
    requires HexRunAt(text, p) && MatchAt(text, j)
    ensures p == j + LABEL_LENGTH || p + DIGITS < j || p > j + LINE_LENGTH
  {
    LabelLength();
    assert text[j + (LABEL_LENGTH - 1)] == ' ';
    OutsideRun(text, p, j + LABEL_LENGTH - 1);
    if j > 0 { OutsideRun(text, p, j - 1); }
    if j + LINE_LENGTH < |text| { OutsideRun(text, p, j + LINE_LENGTH); }
  }

  lemma OverwriteKeepsMatch(text: string, p: nat, w: string, j: nat)
    requires HexRunAt(text, p) && IsDigest(w) && MatchAt(text, j)
    ensures MatchAt(Overwrite(text, p, w), j)
  {
    RunIsValueOrOutside(text, p, j);
    var r := Overwrite(text, p, w);
    forall k | 0 <= k < LABEL_LENGTH ensures r[j + k] == LABEL[k] { assert text[j + k] == LABEL[k]; }
    forall k | j + LABEL_LENGTH <= k < j + LINE_LENGTH ensures IsHex(r[k]) {}
  }

  lemma Overwritten(text: string, p: nat, w: string)
    requires p + DIGITS <= |text| && |w| == DIGITS
    ensures Overwrite(text, p, w)[p..p + DIGITS] == w
  {
  }

  lemma OverwriteBack(text: string, p: nat, w: string)
    requires HexRunAt(text, p) && IsDigest(w)
    ensures HexRunAt(Overwrite(text, p, w), p)
    ensures Overwrite(Overwrite(text, p, w), p, text[p..p + DIGITS]) == text
  {
  }

  /** Exchanging 64 hex digits for 64 others moves no annotation. */
  lemma OverwriteKeepsFind(text: string, p: nat, w: string)
    requires HexRunAt(text, p) && IsDigest(w)
    ensures Find(Overwrite(text, p, w)) == Find(text)
  {
    hide MatchAt, Find;
    var r := Overwrite(text, p, w);
    OverwriteBack(text, p, w);
    forall j: nat ensures MatchAt(r, j) <==> MatchAt(text, j) {
      if MatchAt(text, j) { OverwriteKeepsMatch(text, p, w, j); }
      if MatchAt(r, j) { OverwriteKeepsMatch(r, p, text[p..p + DIGITS], j); }
    }
    HexIsNoReturn(text, p, w);
    if Find(text).Some? { FindExact(text, Find(text).value); FindExact(r, Find(text).value); }
    if Find(r).Some? { FindExact(r, Find(r).value); FindExact(text, Find(r).value); }
  }

  lemma HexIsNoReturn(text: string, p: nat, w: string)
    requires HexRunAt(text, p) && IsDigest(w)
    ensures '\r' in Overwrite(text, p, w) <==> '\r' in text
  {
  }

  // ---------------------------------------------------------------------------------------
  // Masking and stamping a text
  // ---------------------------------------------------------------------------------------

  lemma FoundLine(text: string)
    requires Find(text).Some?
    ensures MatchAt(text, Find(text).value)
  {
    FindExact(text, Find(text).value);
  }

  function ValueOffset(text: string): (v: nat)
    requires Find(text).Some?
    ensures v == Find(text).value + LABEL_LENGTH && v + DIGITS <= |text|
  {
    FoundLine(text);
    Find(text).value + LABEL_LENGTH
  }

  function ValueAt(text: string): (w: string)
    requires Find(text).Some?
    ensures IsDigest(w) && HexRunAt(text, Find(text).value + LABEL_LENGTH)
    ensures w == text[Find(text).value + LABEL_LENGTH..Find(text).value + LINE_LENGTH]
  {
    FoundLine(text);
    text[Find(text).value + LABEL_LENGTH..Find(text).value + LINE_LENGTH]
  }

  /** The text with the annotation's 64 digits exchanged. */
  function WithValue(text: string, w: string): (r: string)
    requires Find(text).Some? && IsDigest(w)
    ensures Find(r) == Find(text) && ValueAt(r) == w
  {
    var v := Find(text).value + LABEL_LENGTH;
    FoundLine(text);
    OverwriteKeepsFind(text, v, w);
    Overwritten(text, v, w);
    Overwrite(text, v, w)
  }

  function Zeros(): string { seq(DIGITS, _ => '0') }

  lemma ZerosAreDigest()
    ensures IsDigest(Zeros())
  {
  }

  function Mask(text: string): string
    requires Find(text).Some?
  {
    ZerosAreDigest();
    WithValue(text, Zeros())
  }

  lemma WithValueTwice(text: string, w: string, x: string)
    requires Find(text).Some? && IsDigest(w) && IsDigest(x)
    ensures WithValue(WithValue(text, w), x) == WithValue(text, x)
    ensures WithValue(text, ValueAt(text)) == text
  {
  }

  /** Masking is idempotent. */
  lemma MaskIdempotent(text: string)
    requires Find(text).Some?
    ensures Mask(Mask(text)) == Mask(text)
  {
  }

  /** Two texts mask alike exactly when they differ at most in the annotation's digits. */
  lemma MaskAlike(a: string, b: string)
    requires Find(a).Some? && Find(b).Some?
    ensures Mask(a) == Mask(b) <==> b == WithValue(a, ValueAt(b))
  {
    hide Find, WithValue;
    ZerosAreDigest();
    if b == WithValue(a, ValueAt(b)) { WithValueTwice(a, ValueAt(b), Zeros()); }
    if Mask(a) == Mask(b) {
      WithValueTwice(a, Zeros(), ValueAt(b));
      WithValueTwice(b, Zeros(), ValueAt(b));
    }
  }

  /** Offset of the first occurrence of `w`, or `|text|`. */
  function FirstOccurrence(text: string, w: string): (p: nat)
    ensures p <= |text|
    decreases |text|
  {
    if text == [] || w <= text then 0 else 1 + FirstOccurrence(text[1..], w)
  }

  lemma {:induction false} FirstOccurrenceIsFirst(text: string, w: string, q: nat)
    requires q <= |text| && w != [] && w <= text[q..]
    ensures FirstOccurrence(text, w) <= q && w <= text[FirstOccurrence(text, w)..]
    decreases |text|
  {
    if text != [] && !(w <= text) {
      assert q > 0 && text[1..][q - 1..] == text[q..];
      FirstOccurrenceIsFirst(text[1..], w, q - 1);
      var p := FirstOccurrence(text[1..], w);
      assert text[1..][p..] == text[1 + p..];
    }
  }

  /** `text.replace(value, digest)`: the first occurrence of the old value is replaced. */
  function Restamp(text: string, digest: string): (r: string)
    requires Find(text).Some? && IsDigest(digest)
    ensures Find(r) == Find(text)
  {
    var p := ValueOccurs(text);
    OverwriteKeepsFind(text, p, digest);
    Overwrite(text, p, digest)
  }

  function ValueOccurs(text: string): (p: nat)
    requires Find(text).Some?
    ensures p == FirstOccurrence(text, ValueAt(text))
    ensures p <= Find(text).value + LABEL_LENGTH && HexRunAt(text, p)
    ensures text[p..p + DIGITS] == ValueAt(text)
  {
    ValueOccursFirst(text);
    FirstOccurrence(text, ValueAt(text))
  }

  lemma ValueOccursFirst(text: string)
    requires Find(text).Some?
    ensures var p := FirstOccurrence(text, ValueAt(text));
            p <= Find(text).value + LABEL_LENGTH && HexRunAt(text, p) && text[p..p + DIGITS] == ValueAt(text)
  {
    hide Find, FirstOccurrence;
    var w := ValueAt(text);
    var v := Find(text).value + LABEL_LENGTH;
    assert text[v..][..DIGITS] == w;
    FirstOccurrenceIsFirst(text, w, v);
    var p := FirstOccurrence(text, w);
    forall k | p <= k < p + DIGITS ensures IsHex(text[k]) { assert text[k] == w[k - p]; }
  }

  /** The value a caller can compare: does the old digest first occur in its annotation? */
  predicate FirstOccursInAnnotation(text: string)
    requires Find(text).Some?
  {
    FirstOccurrence(text, ValueAt(text)) == Find(text).value + LABEL_LENGTH
  }

  /** Stamping writes the annotation exactly when the old value does not occur before it. */
  lemma RestampWritesValue(text: string, digest: string)
    requires Find(text).Some? && IsDigest(digest)
    ensures ValueAt(Restamp(text, digest)) == digest
       <==> FirstOccursInAnnotation(text) || ValueAt(text) == digest
    ensures ValueAt(Restamp(text, digest)) == digest ==> Restamp(text, digest) == WithValue(text, digest)
  {
    hide Find, FirstOccurrence;
    var p, v := ValueOccurs(text), Find(text).value + LABEL_LENGTH;
    FindExact(text, Find(text).value);
    RunIsValueOrOutside(text, p, Find(text).value);
    if p != v {
      var r := Restamp(text, digest);
      assert r[v..v + DIGITS] == text[v..v + DIGITS];
      if ValueAt(text) == digest { assert r == text; WithValueTwice(text, digest, digest); }
    }
  }

  /**
   A text whose old value also stands on an earlier line: the first occurrence is replaced and
   the annotation keeps its old value.
   */
  lemma EarlierOccurrenceMisleads(digest: string)
    requires IsDigest(digest) && digest != Zeros()
    ensures var text := Zeros() + "\n" + LABEL + Zeros();
            Find(text).Some? && ValueAt(Restamp(text, digest)) != digest
  {
    hide Find;
    LabelLength();
    var text := Zeros() + "\n" + LABEL + Zeros();
    assert MatchAt(text, 65) by {
      forall k | 0 <= k < LABEL_LENGTH ensures text[65 + k] == LABEL[k] {}
      assert text[64] == '\n';
    }
    forall j: nat | MatchAt(text, j) ensures j == 65 {
      if j < 65 { MatchesDisjoint(text, j, 65); }
      if j > 65 { MatchesDisjoint(text, 65, j); }
    }
    NoReturnInSample();
    FindExact(text, 65);
    assert text[0..] == text && text[..DIGITS] == Zeros();
    assert ValueAt(text) == Zeros();
    FirstOccurrenceIsFirst(text, Zeros(), 0);
    RestampWritesValue(text, digest);
  }

  lemma NoReturnInSample()
    ensures '\r' !in Zeros() + "\n" + LABEL + Zeros()
  {
  }
}
