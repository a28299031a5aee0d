/** The `stamp` and `verify` commands (scripts/chart-content-digest.ts). */
module ChartStamp {
  import opened Wrappers
  import opened Ordering
  import opened Utf8
  import opened ChartAnnotation
  import opened ChartPreimage
  import opened ChartDigest

  /** Index of the chart's own Chart.yaml, a regular file at the root. */
  function RootChart(entries: seq<Entry>): (r: Option<nat>)
    ensures r.Some? ==> r.value < |entries| && entries[r.value].File? && entries[r.value].name == CHART_YAML
  {
    if entries == [] then None
    else if entries[0].File? && entries[0].name == CHART_YAML then Some(0)
    else
      var r := RootChart(entries[1..]);
      if r.None? then None else Some(r.value + 1)
  }

  /** `chartAnnotation`: the text of Chart.yaml, which carries exactly one annotation. */
  function Annotated(entries: seq<Entry>): (r: Result<string, Error>)
    ensures r.Ok? ==> Find(r.value).Some?
  {
    var k := RootChart(entries);
    if k.None? then Err(NoChartFile)
    else if ChartText(entries[k.value].content).None? then Err(AnnotationInvalid)
    else Ok(ChartText(entries[k.value].content).value)
  }

  function WithChartText(entries: seq<Entry>, text: string): seq<Entry>
    requires RootChart(entries).Some?
  {
    entries[RootChart(entries).value := File(CHART_YAML, Encode(text))]
  }

  function Verified(entries: seq<Entry>, sha: Bytes -> string): Result<string, Error> {
    var text := Annotated(entries);
    if text.Err? then Err(text.error) else
      var computed := Digest(entries, sha);
      if computed.Err? then Err(computed.error)
      else if ValueAt(text.value) != computed.value then Err(DigestMismatch)
      else computed
  }

  /** A hash renders as 64 lower-case hex digits. */
  ghost predicate RendersDigests(sha: Bytes -> string) { forall b: Bytes :: IsDigest(sha(b)) }

  function Stamped(entries: seq<Entry>, sha: Bytes -> string): Result<(seq<Entry>, string), Error>
    requires RendersDigests(sha)
  {
    var text := Annotated(entries);
    if text.Err? then Err(text.error) else
      var digest := Digest(entries, sha);
      if digest.Err? then Err(digest.error)
      else Ok((WithChartText(entries, Restamp(text.value, digest.value)), digest.value))
  }

  /** The directory on disk, which `stamp` rewrites. */
  class Chart {
    var entries: seq<Entry>

    constructor (initial: seq<Entry>)
      ensures entries == initial
    {
      entries := initial;
    }

    method Verify(sha: Bytes -> string) returns (r: Result<string, Error>)
      ensures r == Verified(entries, sha)
    {
      hide Digest, Annotated;
      var text := Annotated(entries);
      if text.Err? { return Err(text.error); }
      var computed := ComputeChartContentDigest(entries, sha);
      if computed.Ok? && ValueAt(text.value) != computed.value { return Err(DigestMismatch); }
      r := computed;
    }

    /** Rewrites Chart.yaml on success and nothing on failure. */
    method Stamp(sha: Bytes -> string) returns (r: Result<string, Error>)
      requires RendersDigests(sha)
      modifies this
      ensures match Stamped(old(entries), sha)
              case Ok((after, digest)) => r == Ok(digest) && entries == after
              case Err(error) => r == Err(error) && entries == old(entries)
    {
      hide Digest, Annotated, Restamp;
      var text := Annotated(entries);
      if text.Err? { return Err(text.error); }
      RootOfAnnotated(entries);
      var digest := ComputeChartContentDigest(entries, sha);
      if digest.Ok? {
        DigestRenders(entries, sha);
        entries := WithChartText(entries, Restamp(text.value, digest.value));
      }
      r := digest;
    }
  }

  lemma RootOfAnnotated(entries: seq<Entry>)
    requires Annotated(entries).Ok?
    ensures RootChart(entries).Some?
    ensures entries[RootChart(entries).value].content == Encode(Annotated(entries).value)
  {
    hide RootChart, Find;
    EncodeDecode(entries[RootChart(entries).value].content);
  }

  lemma DigestRenders(entries: seq<Entry>, sha: Bytes -> string)
    requires RendersDigests(sha) && Digest(entries, sha).Ok?
    ensures IsDigest(Digest(entries, sha).value)
  {
  }

  // ---------------------------------------------------------------------------------------
  // Replacing Chart.yaml by a text that masks alike
  // ---------------------------------------------------------------------------------------

  ghost predicate Alike(f: ChartFile, g: ChartFile) { f.path == g.path && MaskedFile(f) == MaskedFile(g) }

  ghost predicate AllAlike(a: seq<ChartFile>, b: seq<ChartFile>) {
    |a| == |b| && forall i :: 0 <= i < |a| ==> Alike(a[i], b[i])
  }

  lemma {:induction false} InsertAlike(f: ChartFile, g: ChartFile, a: seq<ChartFile>, b: seq<ChartFile>)
    requires Alike(f, g) && AllAlike(a, b)
    ensures AllAlike(Insert(f, a, PathOf), Insert(g, b, PathOf))
    decreases |a|
  {
    hide Less, MaskedFile;
    if a != [] { InsertAlike(f, g, a[1..], b[1..]); }
  }

  lemma {:induction false} SortAlike(a: seq<ChartFile>, b: seq<ChartFile>)
    requires AllAlike(a, b)
    ensures AllAlike(Sort(a, PathOf), Sort(b, PathOf))
    decreases |a|
  {
    hide MaskedFile;
    if a != [] {
      SortAlike(a[1..], b[1..]);
      InsertAlike(a[0], b[0], Sort(a[1..], PathOf), Sort(b[1..], PathOf));
    }
  }

  lemma {:induction false} MaskedAlike(a: seq<ChartFile>, b: seq<ChartFile>)
    requires AllAlike(a, b)
    ensures MaskedFiles(a) == MaskedFiles(b)
    decreases |a|
  {
    hide MaskedFile;
    if a != [] { MaskedAlike(a[1..], b[1..]); }
  }

  lemma {:induction false} CollectAlike(prefix: Bytes, entries: seq<Entry>, k: nat, content: Bytes)
    requires k < |entries| && entries[k].File?
    requires Alike(ChartFile(prefix + entries[k].name, entries[k].content), ChartFile(prefix + entries[k].name, content))
    ensures var changed := entries[k := File(entries[k].name, content)];
            Collect(prefix, entries).Err? == Collect(prefix, changed).Err? &&
            (if Collect(prefix, entries).Err? then Collect(prefix, entries) == Collect(prefix, changed)
             else AllAlike(Collect(prefix, entries).value, Collect(prefix, changed).value))
    decreases |entries|
  {
    hide MaskedFile;
    var changed := entries[k := File(entries[k].name, content)];
    if k == 0 {
      assert changed[1..] == entries[1..];
    } else {
      assert changed[0] == entries[0] && changed[1..] == entries[1..][k - 1 := File(entries[k].name, content)];
      CollectAlike(prefix, entries[1..], k - 1, content);
    }
  }

  lemma HashedAlike(entries: seq<Entry>, changed: seq<Entry>)
    requires Collect([], entries).Err? == Collect([], changed).Err?
    requires if Collect([], entries).Err? then Collect([], entries) == Collect([], changed)
             else AllAlike(Collect([], entries).value, Collect([], changed).value)
    ensures HashedFiles(entries) == HashedFiles(changed)
  {
    hide Collect, GoodPath, MaskedFile, MaskedFiles;
    if Collect([], entries).Ok? {
      var f, g := Collect([], entries).value, Collect([], changed).value;
      SortAlike(f, g);
      MaskedAlike(Sort(f, PathOf), Sort(g, PathOf));
      forall i | 0 <= i < |f| ensures f[i].path == g[i].path { assert Alike(f[i], g[i]); }
      assert (exists i :: 0 <= i < |f| && !GoodPath(f[i].path)) <==> (exists i :: 0 <= i < |g| && !GoodPath(g[i].path));
    }
  }

  /** Exchanging the annotation digits of Chart.yaml does not change the pre-image. */
  lemma DigestIgnoresValue(entries: seq<Entry>, w: string, sha: Bytes -> string)
    requires Annotated(entries).Ok? && IsDigest(w)
    ensures var changed := WithChartText(entries, WithValue(Annotated(entries).value, w));
            Digest(changed, sha) == Digest(entries, sha) && Preimage(changed) == Preimage(entries)
  {
    hide Collect, HashedFiles, Find, Records, RootChart;
    var text := Annotated(entries).value;
    var k := RootChart(entries).value;
    RootOfAnnotated(entries);
    var content := Encode(WithValue(text, w));
    RootTextAlike(text, w);
    assert [] + CHART_YAML == CHART_YAML;
    assert entries[k].name == CHART_YAML;
    CollectAlike([], entries, k, content);
    HashedAlike(entries, entries[k := File(CHART_YAML, content)]);
  }

  lemma RootTextAlike(text: string, w: string)
    requires Find(text).Some? && IsDigest(w)
    ensures Alike(ChartFile(CHART_YAML, Encode(text)), ChartFile(CHART_YAML, Encode(WithValue(text, w))))
    ensures ChartText(Encode(WithValue(text, w))) == Some(WithValue(text, w))
  {
    hide Find;
    ZerosAreDigest();
    WithValueTwice(text, w, Zeros());
    DecodeEncode(text);
    DecodeEncode(WithValue(text, w));
  }

  lemma {:induction false} RootStays(entries: seq<Entry>, text: string)
    requires RootChart(entries).Some?
    ensures RootChart(WithChartText(entries, text)) == RootChart(entries)
    decreases |entries|
  {
    var changed := WithChartText(entries, text);
    if !(entries[0].File? && entries[0].name == CHART_YAML) {
      RootStays(entries[1..], text);
      assert changed[1..] == WithChartText(entries[1..], text);
    }
  }

  lemma AnnotatedAfter(entries: seq<Entry>, text: string)
    requires RootChart(entries).Some? && Find(text).Some?
    ensures Annotated(WithChartText(entries, text)) == Ok(text)
  {
    hide Find, RootChart;
    RootStays(entries, text);
    DecodeEncode(text);
  }

  // ---------------------------------------------------------------------------------------
  // Stamp, then verify
  // ---------------------------------------------------------------------------------------

  /**
   Stamp followed by verify succeeds with the stamped digest exactly when the old value does not
   occur before the annotation, or was that digest already.
   */
  lemma StampThenVerify(entries: seq<Entry>, sha: Bytes -> string)
    requires RendersDigests(sha) && Stamped(entries, sha).Ok?
    ensures var (after, digest) := Stamped(entries, sha).value;
            var text := Annotated(entries).value;
            Verified(after, sha) == Ok(digest) <==> FirstOccursInAnnotation(text) || ValueAt(text) == digest
  {
    hide Digest, Find, FirstOccurrence, RootChart, Annotated;
    var (after, digest) := Stamped(entries, sha).value;
    var text := Annotated(entries).value;
    RootOfAnnotated(entries);
    DigestRenders(entries, sha);
    var next := Restamp(text, digest);
    AnnotatedAfter(entries, next);
    RestampWritesValue(text, digest);
    if ValueAt(next) == digest { DigestIgnoresValue(entries, digest, sha); }
  }

  /** And then a second stamp changes nothing. */
  lemma StampTwice(entries: seq<Entry>, sha: Bytes -> string)
    requires RendersDigests(sha) && Stamped(entries, sha).Ok?
    requires var text := Annotated(entries).value;
             FirstOccursInAnnotation(text) || ValueAt(text) == Stamped(entries, sha).value.1
    ensures Stamped(Stamped(entries, sha).value.0, sha) == Stamped(entries, sha)
  {
    hide Digest, Find, FirstOccurrence, RootChart, Annotated, Restamp;
    var (after, digest) := Stamped(entries, sha).value;
    var text := Annotated(entries).value;
    RootOfAnnotated(entries);
    DigestRenders(entries, sha);
    var next := Restamp(text, digest);
    AnnotatedAfter(entries, next);
    RestampWritesValue(text, digest);
    DigestIgnoresValue(entries, digest, sha);
    RestampSame(next);
    RootStays(entries, next);
    assert WithChartText(after, next) == after;
  }

  lemma RestampSame(text: string)
    requires Find(text).Some?
    ensures Restamp(text, ValueAt(text)) == text
  {
  }
}
