/**
 What the chart digest binds, told by walking the directory tree path by path
 (scripts/chart-content-digest.ts): neither the walk that collects files nor their sorting occurs.
 */
module ChartTree {
  import opened Wrappers
  import opened Ordering
  import opened Utf8
  import opened ChartAnnotation
  import opened ChartPreimage
  import opened ChartDigest
  import opened ChartListing

  /** The tree holds a regular file with this content under this path. */
  ghost predicate HasFile(entries: seq<Entry>, path: Bytes, content: Bytes) {
    exists i :: 0 <= i < |entries| && EntryHas(entries[i], path, content)
  }

  ghost predicate EntryHas(e: Entry, path: Bytes, content: Bytes) {
    match e
    case File(name, c) => path == name && content == c
    case Directory(name, entries) => name + [SLASH] <= path && HasFile(entries, path[|name| + 1..], content)
    case Special(_) => false
  }

  /** Every file of `a` is one of `b`, up to what masking makes of its content. */
  ghost predicate Within(a: seq<Entry>, b: seq<Entry>) {
    forall path, c :: HasFile(a, path, c) ==> exists d :: HasFile(b, path, d) && MaskedBytes(path, c) == MaskedBytes(path, d)
  }

  lemma PrefixShared(prefix: Bytes, a: Bytes, b: Bytes)
    ensures prefix + a <= prefix + b <==> a <= b
  {
    assert a == (prefix + a)[|prefix|..] && b == (prefix + b)[|prefix|..];
    if prefix + a <= prefix + b {
      assert b[..|a|] == (prefix + b)[|prefix|..|prefix| + |a|] == (prefix + a)[|prefix|..];
    }
  }

  lemma {:induction false} EntryCollected(prefix: Bytes, e: Entry, path: Bytes, content: Bytes)
    requires CollectEntry(prefix, e).Ok?
    ensures ChartFile(prefix + path, content) in CollectEntry(prefix, e).value <==> EntryHas(e, path, content)
    decreases e, 1
  {
    var f := ChartFile(prefix + path, content);
    match e
    case File(name, c) =>
      assert (prefix + path)[|prefix|..] == path && (prefix + name)[|prefix|..] == name;
    case Directory(name, entries) =>
      var below := name + [SLASH];
      assert prefix + name + [SLASH] == prefix + below;
      PrefixShared(prefix, below, path);
      if below <= path {
        assert prefix + path == prefix + below + path[|below|..];
        TreeCollected(prefix + below, entries, path[|below|..], content);
      } else if f in Collect(prefix + below, entries).value {
        PrefixKept(prefix + below, entries, f);
      }
    case Special(_) =>
  }

  /** The collected files are exactly those of the tree. */
  lemma {:induction false} TreeCollected(prefix: Bytes, entries: seq<Entry>, path: Bytes, content: Bytes)
    requires Collect(prefix, entries).Ok?
    ensures ChartFile(prefix + path, content) in Collect(prefix, entries).value <==> HasFile(entries, path, content)
    decreases entries, 0
  {
    hide CollectEntry, Collect;
    var f := ChartFile(prefix + path, content);
    CollectMembers(prefix, entries, f);
    CollectError(prefix, entries);
    forall i | 0 <= i < |entries|
      ensures CollectEntry(prefix, entries[i]).Ok?
      ensures f in CollectEntry(prefix, entries[i]).value <==> EntryHas(entries[i], path, content)
    {
      EntryCollected(prefix, entries[i], path, content);
    }
  }

  lemma {:induction false} MaskedMembers(files: seq<ChartFile>, path: Bytes, masked: Bytes)
    requires MaskedFiles(files).Ok?
    ensures ChartFile(path, masked) in MaskedFiles(files).value <==>
              exists c :: ChartFile(path, c) in files && MaskedBytes(path, c) == Ok(masked)
    decreases |files|
  {
    hide MaskedBytes;
    if files != [] {
      MaskedMembers(files[1..], path, masked);
      assert files == [files[0]] + files[1..];
      assert forall f :: f in files <==> f == files[0] || f in files[1..];
    }
  }

  /** The hashed files, as members of the tree. */
  lemma HashedMembers(entries: seq<Entry>, path: Bytes, masked: Bytes)
    requires HashedFiles(entries).Ok?
    ensures ChartFile(path, masked) in HashedFiles(entries).value <==>
              exists c :: HasFile(entries, path, c) && MaskedBytes(path, c) == Ok(masked)
  {
    hide Collect, MaskedFiles, MaskedBytes, GoodPath, HasFile;
    var found := Collect([], entries).value;
    MaskedMembers(Sort(found, PathOf), path, masked);
    forall c ensures ChartFile(path, c) in found <==> HasFile(entries, path, c) {
      TreeCollected([], entries, path, c);
      assert [] + path == path;
    }
  }

  lemma {:induction false} AllMasked(files: seq<ChartFile>, f: ChartFile)
    requires MaskedFiles(files).Ok? && f in files
    ensures MaskedBytes(f.path, f.content).Ok?
    decreases |files|
  {
    hide MaskedBytes;
    if f != files[0] { AllMasked(files[1..], f); }
  }

  /** Every file of a digested tree can be masked. */
  lemma FileMasked(entries: seq<Entry>, path: Bytes, content: Bytes)
    requires HashedFiles(entries).Ok? && HasFile(entries, path, content)
    ensures MaskedBytes(path, content).Ok?
    ensures ChartFile(path, MaskedBytes(path, content).value) in HashedFiles(entries).value
  {
    hide Collect, MaskedFiles, MaskedBytes, GoodPath, HasFile;
    TreeCollected([], entries, path, content);
    assert [] + path == path;
    AllMasked(Sort(Collect([], entries).value, PathOf), ChartFile(path, content));
    HashedMembers(entries, path, MaskedBytes(path, content).value);
  }

  lemma WithinExact(a: seq<Entry>, b: seq<Entry>)
    requires HashedFiles(a).Ok? && HashedFiles(b).Ok?
    ensures Within(a, b) <==> forall f :: f in HashedFiles(a).value ==> f in HashedFiles(b).value
  {
    hide HashedFiles, MaskedBytes, HasFile;
    if Within(a, b) {
      forall f | f in HashedFiles(a).value ensures f in HashedFiles(b).value {
        HashedMembers(a, f.path, f.content);
        HashedMembers(b, f.path, f.content);
        assert f == ChartFile(f.path, f.content);
      }
    }
    if forall f :: f in HashedFiles(a).value ==> f in HashedFiles(b).value {
      forall path, c | HasFile(a, path, c)
        ensures exists d :: HasFile(b, path, d) && MaskedBytes(path, c) == MaskedBytes(path, d)
      {
        FileMasked(a, path, c);
        HashedMembers(b, path, MaskedBytes(path, c).value);
      }
    }
  }

  /**
   Two charts have the same pre-image exactly when their trees hold files under the same paths with
   contents that mask alike: listing order and empty directories do not matter, and nothing else is free.
   */
  lemma PreimageBindsTree(a: seq<Entry>, b: seq<Entry>)
    requires FileSystem(a) && FileSystem(b) && Preimage(a).Ok? && Preimage(b).Ok?
    ensures Preimage(a) == Preimage(b) <==> Within(a, b) && Within(b, a)
  {
    hide HashedFiles, FileSystem, Records, Within;
    assert HashedFiles(a).Ok? && HashedFiles(b).Ok?;
    PreimageBindsFileSet(a, b);
    WithinExact(a, b);
    WithinExact(b, a);
  }

  /** Contents mask alike exactly when they are equal or two chart texts that differ in the annotation's digits. */
  lemma ContentsAlike(path: Bytes, c: Bytes, d: Bytes)
    requires MaskedBytes(path, c).Ok? && MaskedBytes(path, d).Ok?
    ensures MaskedBytes(path, c) == MaskedBytes(path, d) <==>
              if !IsChartPath(path) then c == d
              else ChartText(d).value == WithValue(ChartText(c).value, ValueAt(ChartText(d).value))
  {
    hide Find, WithValue, ValueAt, Decode, Encode, IsChartPath;
    if IsChartPath(path) {
      var s, t := ChartText(c).value, ChartText(d).value;
      MaskAlike(s, t);
      hide Mask;
      DecodesExactly(Encode(Mask(s)), Mask(s));
      DecodesExactly(Encode(Mask(s)), Mask(t));
    }
  }
}
