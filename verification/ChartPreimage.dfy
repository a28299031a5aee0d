/**
 The byte string the chart digest hashes (scripts/chart-content-digest.ts): a prefix, then for
 every file in path order its path length, path, content length and masked content.
 */
module ChartPreimage {
  import opened Wrappers
  import opened Utf8
  import opened ChartAnnotation

  datatype Error = PathInvalid | AnnotationInvalid | LengthInvalid | PathTooLong | DigestMismatch | NoChartFile

  datatype ChartFile = ChartFile(path: Bytes, content: Bytes)

  function PathOf(f: ChartFile): seq<int> { f.path }

  const SLASH := 0x2F

  /** "Chart.yaml" */
  const CHART_YAML: Bytes := [0x43, 0x68, 0x61, 0x72, 0x74, 0x2E, 0x79, 0x61, 0x6D, 0x6C]

  const MAX_PATH_LENGTH := 0xFFFF_FFFF

  /** `Number.MAX_SAFE_INTEGER` */
  const MAX_CONTENT_LENGTH := 0x1F_FFFF_FFFF_FFFF

  // ---------------------------------------------------------------------------------------
  // Masked content
  // ---------------------------------------------------------------------------------------

  predicate IsChartPath(path: Bytes) {
    path == CHART_YAML || (|path| > 10 && path[|path| - 11] == SLASH && path[|path| - 10..] == CHART_YAML)
  }

  /** The annotated text of a Chart.yaml, if its bytes are one. */
  function ChartText(bytes: Bytes): Option<string> {
    var text := Decode(bytes);
    if text.None? || Find(text.value).None? then None else text
  }

  function MaskedBytes(path: Bytes, bytes: Bytes): Result<Bytes, Error> {
    if !IsChartPath(path) then Ok(bytes)
    else if ChartText(bytes).None? then Err(AnnotationInvalid)
    else Ok(Encode(Mask(ChartText(bytes).value)))
  }

  lemma EncodeAround(text: string, p: nat)
    requires p + DIGITS <= |text| && HexRunAt(text, p)
    ensures var head, run, tail := Encode(text[..p]), Encode(text[p..p + DIGITS]), Encode(text[p + DIGITS..]);
            Encode(text) == head + run + tail && |run| == DIGITS
  {
    var run := text[p..p + DIGITS];
    assert text == text[..p] + run + text[p + DIGITS..];
    EncodeConcat(text[..p] + run, text[p + DIGITS..]);
    EncodeConcat(text[..p], run);
    HexIsAscii();
    EncodeAscii(run);
  }

  lemma HexIsAscii()
    ensures forall c :: IsHex(c) ==> c as int < 0x80
  {
  }

  lemma EncodedZeros()
    ensures Encode(Zeros()) == seq(DIGITS, _ => 0x30)
  {
    ZerosAreDigest();
    HexIsAscii();
    EncodeAscii(Zeros());
  }

  /** Filling 64 bytes with '0' at the byte offset of the value is masking the text. */
  lemma MaskAtByteOffset(text: string)
    requires Find(text).Some?
    ensures var offset := |Encode(text[..ValueOffset(text)])|;
            var bytes := Encode(text);
            offset + DIGITS <= |bytes| &&
            Encode(Mask(text)) == bytes[..offset] + seq(DIGITS, _ => 0x30) + bytes[offset + DIGITS..]
  {
    hide Find, Encode;
    var v := Find(text).value + LABEL_LENGTH;
    FoundLine(text);
    ZerosAreDigest();
    var masked := Mask(text);
    assert HexRunAt(masked, v) by { FoundLine(masked); }
    EncodeAround(text, v);
    EncodeAround(masked, v);
    assert masked[..v] == text[..v] && masked[v..v + DIGITS] == Zeros() && masked[v + DIGITS..] == text[v + DIGITS..];
    EncodedZeros();
  }

  /** `next.fill(0x30, offset, offset + 64)` on a copy of the bytes. */
  method FillZeros(bytes: Bytes, offset: nat) returns (r: Bytes)
    requires offset + DIGITS <= |bytes|
    ensures r == bytes[..offset] + seq(DIGITS, _ => 0x30) + bytes[offset + DIGITS..]
  {
    var next := new int[|bytes|](i requires 0 <= i < |bytes| => bytes[i]);
    for k := 0 to DIGITS
      invariant forall i :: 0 <= i < |bytes| ==>
        next[i] == if offset <= i < offset + k then 0x30 else bytes[i]
    {
      next[offset + k] := 0x30;
    }
    r := next[..];
  }

  /** `chartBytesForDigest`. */
  method ChartBytesForDigest(path: Bytes, bytes: Bytes) returns (r: Result<Bytes, Error>)
    ensures r == MaskedBytes(path, bytes)
  {
    hide Encode, Decode, Find, Mask, IsChartPath;
    if !IsChartPath(path) {
      return Ok(bytes);
    }
    var text := Decode(bytes);
    if text.None? || Find(text.value).None? {
      return Err(AnnotationInvalid);
    }
    var offset := |Encode(text.value[..ValueOffset(text.value)])|;
    EncodeDecode(bytes);
    MaskAtByteOffset(text.value);
    var next := FillZeros(bytes, offset);
    r := Ok(next);
  }

  // ---------------------------------------------------------------------------------------
  // Big-endian lengths
  // ---------------------------------------------------------------------------------------

  function BigEndian(n: nat, k: nat): (b: Bytes)
    ensures |b| == k
  {
    if k == 0 then [] else BigEndian(n / 256, k - 1) + [n % 256]
  }

  function FromBigEndian(b: Bytes): int {
    if b == [] then 0 else FromBigEndian(b[..|b| - 1]) * 256 + b[|b| - 1]
  }

  function Pow256(k: nat): nat { if k == 0 then 1 else 256 * Pow256(k - 1) }

  lemma {:induction false} BigEndianRoundTrip(n: nat, k: nat)
    requires n < Pow256(k)
    ensures FromBigEndian(BigEndian(n, k)) == n
  {
    if k > 0 {
      assert n / 256 < Pow256(k - 1);
      BigEndianRoundTrip(n / 256, k - 1);
      assert BigEndian(n, k)[..k - 1] == BigEndian(n / 256, k - 1);
    }
  }

  lemma LengthsFit()
    ensures MAX_PATH_LENGTH < Pow256(4) && MAX_CONTENT_LENGTH < Pow256(8)
  {
  }

  // ---------------------------------------------------------------------------------------
  // Records
  // ---------------------------------------------------------------------------------------

  function Record(f: ChartFile): Bytes {
    BigEndian(|f.path|, 4) + (f.path + (BigEndian(|f.content|, 8) + f.content))
  }

  /** One file, masked, or the first error its feeding raises. */
  function MaskedFile(f: ChartFile): Result<ChartFile, Error> {
    var content := MaskedBytes(f.path, f.content);
    if content.Err? then Err(content.error)
    else if |f.path| > MAX_PATH_LENGTH then Err(PathTooLong)
    else if |content.value| > MAX_CONTENT_LENGTH then Err(LengthInvalid)
    else Ok(ChartFile(f.path, content.value))
  }

  function MaskedFiles(files: seq<ChartFile>): Result<seq<ChartFile>, Error> {
    if files == [] then Ok([]) else
      var first := MaskedFile(files[0]);
      if first.Err? then Err(first.error) else
        var rest := MaskedFiles(files[1..]);
        if rest.Err? then Err(rest.error) else Ok([first.value] + rest.value)
  }

  function Records(files: seq<ChartFile>): Bytes {
    if files == [] then [] else Record(files[0]) + Records(files[1..])
  }

  predicate Sized(f: ChartFile) { |f.path| <= MAX_PATH_LENGTH && |f.content| <= MAX_CONTENT_LENGTH }

  /** A reader of records. */
  function ParseRecords(b: Bytes): Option<seq<ChartFile>>
    decreases |b|
  {
    if b == [] then Some([])
    else if |b| < 4 then None
    else
      var n := FromBigEndian(b[..4]);
      if n < 0 || |b| < 12 + n then None else
        var m := FromBigEndian(b[4 + n..12 + n]);
        if m < 0 || |b| < 12 + n + m then None else
          var rest := ParseRecords(b[12 + n + m..]);
          if rest.None? then None
          else Some([ChartFile(b[4..4 + n], b[12 + n..12 + n + m])] + rest.value)
  }

  lemma RecordSlices(f: ChartFile, rest: Bytes)
    requires Sized(f)
    ensures var b := Record(f) + rest;
            var n, m := |f.path|, |f.content|;
            && |b| == 12 + n + m + |rest|
            && b[..4] == BigEndian(n, 4) && b[4..4 + n] == f.path
            && b[4 + n..12 + n] == BigEndian(m, 8) && b[12 + n..12 + n + m] == f.content
            && b[12 + n + m..] == rest
  {
  }

  lemma {:induction false} ParseRecord(f: ChartFile, rest: Bytes)
    requires Sized(f) && ParseRecords(rest).Some?
    ensures ParseRecords(Record(f) + rest) == Some([f] + ParseRecords(rest).value)
  {
    hide Record, FromBigEndian, BigEndian;
    RecordSlices(f, rest);
    LengthsFit();
    BigEndianRoundTrip(|f.path|, 4);
    BigEndianRoundTrip(|f.content|, 8);
  }

  /** The records can be read back. */
  lemma {:induction false} RecordsRoundTrip(files: seq<ChartFile>)
    requires forall f :: f in files ==> Sized(f)
    ensures ParseRecords(Records(files)) == Some(files)
  {
    hide Record, ParseRecords, Sized;
    if files == [] {
      NothingToParse();
    } else {
      RecordsRoundTrip(files[1..]);
      ParseRecord(files[0], Records(files[1..]));
      assert files == [files[0]] + files[1..];
    }
  }

  lemma NothingToParse()
    ensures ParseRecords([]) == Some([])
  {
  }

  lemma {:induction false} MaskedFilesSized(files: seq<ChartFile>)
    requires MaskedFiles(files).Ok?
    ensures var r := MaskedFiles(files).value;
            && |r| == |files|
            && (forall f :: f in r ==> Sized(f))
            && (forall i :: 0 <= i < |files| ==> MaskedFile(files[i]) == Ok(r[i]) && r[i].path == files[i].path)
  {
    hide MaskedBytes;
    if files != [] { MaskedFilesSized(files[1..]); }
  }
}
