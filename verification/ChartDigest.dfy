/**
 The chart digest over a directory tree, and its stamp and verify commands
 (scripts/chart-content-digest.ts). SHA-256 is the uninterpreted function `sha`, of which only the
 shape of its output is known.
 */
module ChartDigest {
  import opened Wrappers
  import opened Ordering
  import opened Utf8
  import opened ChartPreimage

  /** A directory entry; `Special` is a symbolic link, device or socket. */
  datatype Entry =
    | File(name: Bytes, content: Bytes)
    | Directory(name: Bytes, entries: seq<Entry>)
    | Special(name: Bytes)

  const BACKSLASH := 0x5C
  const DOT := 0x2E

  /** "commander.chart-content/v1\0" */
  const PREFIX: Bytes := [
    0x63, 0x6F, 0x6D, 0x6D, 0x61, 0x6E, 0x64, 0x65, 0x72, 0x2E, 0x63, 0x68, 0x61, 0x72, 0x74, 0x2D, 0x63, 0x6F,
    0x6E, 0x74, 0x65, 0x6E, 0x74, 0x2F, 0x76, 0x31, 0x00]

  // ---------------------------------------------------------------------------------------
  // Collecting files
  // ---------------------------------------------------------------------------------------

  function Both(a: Result<seq<ChartFile>, Error>, b: Result<seq<ChartFile>, Error>): Result<seq<ChartFile>, Error> {
    if a.Err? then a else if b.Err? then b else Ok(a.value + b.value)
  }

  /** `collectFiles`: every regular file below a directory, in listing order. */
  function Collect(prefix: Bytes, entries: seq<Entry>): Result<seq<ChartFile>, Error>
    decreases entries
  {
    if entries == [] then Ok([]) else Both(CollectEntry(prefix, entries[0]), Collect(prefix, entries[1..]))
  }

  function CollectEntry(prefix: Bytes, e: Entry): Result<seq<ChartFile>, Error>
    decreases e
  {
    match e
    case File(name, content) => Ok([ChartFile(prefix + name, content)])
    case Directory(name, entries) => Collect(prefix + name + [SLASH], entries)
    case Special(_) => Err(PathInvalid)
  }

  lemma BothAssoc(a: seq<ChartFile>, b: Result<seq<ChartFile>, Error>, c: Result<seq<ChartFile>, Error>)
    ensures Both(Ok(a), Both(b, c)) ==
              if b.Err? then b else if c.Err? then c else Ok(a + b.value + c.value)
  {
    if b.Ok? && c.Ok? { assert a + (b.value + c.value) == a + b.value + c.value; }
  }

  /** With `files` found so far and `rest` still to visit, the outcome is `r`. */
  ghost predicate Continues(files: seq<ChartFile>, prefix: Bytes, rest: seq<Entry>, r: Result<seq<ChartFile>, Error>) {
    Both(Ok(files), Collect(prefix, rest)) == r
  }

  lemma ContinueOne(files: seq<ChartFile>, prefix: Bytes, rest: seq<Entry>, r: Result<seq<ChartFile>, Error>)
    requires rest != [] && Continues(files, prefix, rest, r)
    ensures var found := CollectEntry(prefix, rest[0]);
            if found.Err? then r == found else Continues(files + found.value, prefix, rest[1..], r)
  {
    BothAssoc(files, CollectEntry(prefix, rest[0]), Collect(prefix, rest[1..]));
  }

  lemma ContinueEnd(files: seq<ChartFile>, prefix: Bytes, r: Result<seq<ChartFile>, Error>)
    ensures Continues(files, prefix, [], r) <==> r == Ok(files)
  {
    assert files + [] == files;
  }

  lemma ContinueStart(prefix: Bytes, entries: seq<Entry>)
    ensures Continues([], prefix, entries[0..], Collect(prefix, entries))
  {
    assert entries[0..] == entries;
    NothingBefore(Collect(prefix, entries));
  }

  /** The source's loop, pushing onto `files`. */
  method CollectFiles(prefix: Bytes, entries: seq<Entry>) returns (r: Result<seq<ChartFile>, Error>)
    ensures r == Collect(prefix, entries)
    decreases entries
  {
    hide Continues;
    ghost var outcome := Collect(prefix, entries);
    var files: seq<ChartFile> := [];
    ContinueStart(prefix, entries);
    for i := 0 to |entries|
      invariant Continues(files, prefix, entries[i..], outcome)
    {
      var found: Result<seq<ChartFile>, Error>;
      match entries[i] {
        case File(name, content) => found := Ok([ChartFile(prefix + name, content)]);
        case Directory(name, below) => found := CollectFiles(prefix + name + [SLASH], below);
        case Special(_) => found := Err(PathInvalid);
      }
      ContinueOne(files, prefix, entries[i..], outcome);
      assert entries[i..][0] == entries[i] && entries[i..][1..] == entries[i + 1..];
      if found.Err? { return found; }
      files := files + found.value;
    }
    assert entries[|entries|..] == [];
    ContinueEnd(files, prefix, outcome);
    r := Ok(files);
  }

  lemma NothingBefore(b: Result<seq<ChartFile>, Error>)
    ensures Both(Ok([]), b) == b
  {
    if b.Ok? { assert [] + b.value == b.value; }
  }

  /** The components of a path. */
  function Parts(path: Bytes): (r: seq<Bytes>)
    ensures r != []
  {
    if path == [] then [[]]
    else if path[0] == SLASH then [[]] + Parts(path[1..])
    else
      var rest := Parts(path[1..]);
      [[path[0]] + rest[0]] + rest[1..]
  }

  /** `normalizedRelativePath` accepts the path. */
  predicate GoodPath(path: Bytes) {
    && BACKSLASH !in path
    && forall i :: 0 <= i < |Parts(path)| ==> var part := Parts(path)[i]; part != [] && part != [DOT] && part != [DOT, DOT]
  }

  // ---------------------------------------------------------------------------------------
  // The digest
  // ---------------------------------------------------------------------------------------

  /** The files to hash, in order and masked, or the error that refuses the chart. */
  function HashedFiles(entries: seq<Entry>): Result<seq<ChartFile>, Error> {
    var found := Collect([], entries);
    if found.Err? then found
    else if exists i :: 0 <= i < |found.value| && !GoodPath(found.value[i].path) then Err(PathInvalid)
    else if forall i :: 0 <= i < |found.value| ==> found.value[i].path != CHART_YAML then Err(AnnotationInvalid)
    else MaskedFiles(Sort(found.value, PathOf))
  }

  function Preimage(entries: seq<Entry>): Result<Bytes, Error> {
    var files := HashedFiles(entries);
    if files.Err? then Err(files.error) else Ok(PREFIX + Records(files.value))
  }

  function Digest(entries: seq<Entry>, sha: Bytes -> string): Result<string, Error> {
    var bytes := Preimage(entries);
    if bytes.Err? then Err(bytes.error) else Ok(sha(bytes.value))
  }

  /** `computeChartContentDigest`, feeding the hash record by record. */
  method ComputeChartContentDigest(entries: seq<Entry>, sha: Bytes -> string) returns (r: Result<string, Error>)
    ensures r == Digest(entries, sha)
  {
    hide GoodPath, MaskedBytes, Record;
    var found := CollectFiles([], entries);
    if found.Err? { return Err(found.error); }
    if exists i :: 0 <= i < |found.value| && !GoodPath(found.value[i].path) { return Err(PathInvalid); }
    if forall i :: 0 <= i < |found.value| ==> found.value[i].path != CHART_YAML { return Err(AnnotationInvalid); }
    var files := Sort(found.value, PathOf);
    var fed := PREFIX;
    WholeSuffix(files);
    for i := 0 to |files|
      invariant FeedRest(fed, files[i..]) == Preimage(entries)
    {
      var content := ChartBytesForDigest(files[i].path, files[i].content);
      assert files[i..][1..] == files[i + 1..];
      if content.Err? { return Err(content.error); }
      if |files[i].path| > MAX_PATH_LENGTH { return Err(PathTooLong); }
      if |content.value| > MAX_CONTENT_LENGTH { return Err(LengthInvalid); }
      var record := Record(ChartFile(files[i].path, content.value));
      FeedOne(fed, files[i..], record);
      fed := fed + record;
    }
    FeedNone(fed);
    assert files[|files|..] == [];
    r := Ok(sha(fed));
  }

  ghost function FeedRest(fed: Bytes, files: seq<ChartFile>): Result<Bytes, Error> {
    var masked := MaskedFiles(files);
    if masked.Err? then Err(masked.error) else Ok(fed + Records(masked.value))
  }

  lemma WholeSuffix(files: seq<ChartFile>)
    ensures files[0..] == files
  {
  }

  lemma FeedNone(fed: Bytes)
    ensures FeedRest(fed, []) == Ok(fed)
  {
    assert fed + [] == fed;
  }

  lemma FeedOne(fed: Bytes, files: seq<ChartFile>, record: Bytes)
    requires files != [] && MaskedFile(files[0]).Ok? && record == Record(MaskedFile(files[0]).value)
    ensures FeedRest(fed, files) == FeedRest(fed + record, files[1..])
  {
    hide Record, MaskedFile;
    var first, rest := MaskedFile(files[0]).value, MaskedFiles(files[1..]);
    if rest.Ok? {
      assert ([first] + rest.value)[1..] == rest.value;
      assert fed + (record + Records(rest.value)) == fed + record + Records(rest.value);
    }
  }

  // ---------------------------------------------------------------------------------------
  // What the pre-image determines
  // ---------------------------------------------------------------------------------------

  /** The pre-image can be read back: it is nothing but the ordered list of masked files. */
  lemma PreimageParses(entries: seq<Entry>)
    requires Preimage(entries).Ok?
    ensures HashedFiles(entries).Ok?
    ensures PREFIX <= Preimage(entries).value
    ensures ParseRecords(Preimage(entries).value[|PREFIX|..]) == Some(HashedFiles(entries).value)
  {
    hide MaskedFiles, Records, ParseRecords, GoodPath;
    var files := HashedFiles(entries).value;
    MaskedFilesSized(Sort(Collect([], entries).value, PathOf));
    RecordsRoundTrip(files);
    assert (PREFIX + Records(files))[|PREFIX|..] == Records(files);
  }

  /** Equal pre-images mean equal ordered lists of path and masked content. */
  lemma PreimageInjective(a: seq<Entry>, b: seq<Entry>)
    ensures Preimage(a).Ok? && Preimage(b).Ok? ==> (Preimage(a) == Preimage(b) <==> HashedFiles(a) == HashedFiles(b))
  {
    hide HashedFiles;
    if Preimage(a).Ok? && Preimage(b).Ok? {
      PreimageParses(a);
      PreimageParses(b);
    }
  }
}
