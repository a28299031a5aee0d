/**
 When the chart digest refuses a directory (scripts/chart-content-digest.ts), told by the tree alone:
 neither the walk nor the normalisation of paths occurs.
 */
module ChartRefusal {
  import opened Wrappers
  import opened Ordering
  import opened Utf8
  import opened ChartAnnotation
  import opened ChartPreimage
  import opened ChartDigest
  import opened ChartListing
  import opened ChartTree

  /** A component no normalised path may hold. */
  predicate BadName(name: Bytes) {
    name == [] || name == ['.' as int] || name == ['.' as int, '.' as int] || '\\' as int in name
  }

  /** A symbolic link, device or socket is reached. */
  ghost predicate HasSpecial(entries: seq<Entry>) {
    exists i :: 0 <= i < |entries| && SpecialIn(entries[i])
  }

  ghost predicate SpecialIn(e: Entry) {
    match e
    case Special(_) => true
    case Directory(_, entries) => HasSpecial(entries)
    case File(_, _) => false
  }

  ghost predicate HoldsFile(entries: seq<Entry>) { exists path, content :: HasFile(entries, path, content) }

  /** A file lies under a bad component, its own name included. */
  ghost predicate HasBadFile(entries: seq<Entry>) {
    exists i :: 0 <= i < |entries| && BadIn(entries[i])
  }

  ghost predicate BadIn(e: Entry) {
    match e
    case File(name, _) => BadName(name)
    case Directory(name, entries) => HasBadFile(entries) || (BadName(name) && HoldsFile(entries))
    case Special(_) => false
  }

  /** A file the digest cannot take: a Chart.yaml without its one annotation, or a length out of range. */
  predicate Unhashable(path: Bytes, content: Bytes) {
    (IsChartPath(path) && ChartText(content).None?) || |path| > 0xFFFF_FFFF || |content| > 0x1F_FFFF_FFFF_FFFF
  }

  lemma {:induction false} OnePart(name: Bytes)
    requires SLASH !in name
    ensures Parts(name) == [name]
  {
    if name != [] {
      OnePart(name[1..]);
      assert [name[0]] + name[1..] == name;
    }
  }

  lemma {:induction false} JoinedParts(name: Bytes, rest: Bytes)
    requires SLASH !in name
    ensures Parts(name + [SLASH] + rest) == [name] + Parts(rest)
  {
    var path := name + [SLASH] + rest;
    if name == [] {
      assert path[0] == SLASH && path[1..] == rest;
    } else {
      JoinedParts(name[1..], rest);
      assert path[0] == name[0] && path[1..] == name[1..] + [SLASH] + rest;
      assert [name[0]] + name[1..] == name;
    }
  }

  lemma GoodName(name: Bytes)
    requires SLASH !in name
    ensures GoodPath(name) <==> !BadName(name)
  {
    OnePart(name);
    assert Parts(name)[0] == name;
  }

  lemma GoodJoined(name: Bytes, rest: Bytes)
    requires SLASH !in name
    ensures GoodPath(name + [SLASH] + rest) <==> !BadName(name) && GoodPath(rest)
  {
    hide Parts;
    JoinedParts(name, rest);
    var path := name + [SLASH] + rest;
    var all, below := Parts(path), Parts(rest);
    assert all[0] == name;
    assert forall i :: 0 <= i < |below| ==> all[i + 1] == below[i];
    assert BACKSLASH in path <==> BACKSLASH in name || BACKSLASH in rest;
    assert forall i :: 0 < i < |all| ==> all[i] == below[i - 1];
  }

  lemma {:induction false} CollectRefuses(prefix: Bytes, entries: seq<Entry>)
    ensures Collect(prefix, entries).Err? <==> HasSpecial(entries)
    decreases entries, 0
  {
    hide CollectEntry;
    CollectError(prefix, entries);
    forall i | 0 <= i < |entries| ensures CollectEntry(prefix, entries[i]).Err? <==> SpecialIn(entries[i]) {
      EntryRefuses(prefix, entries[i]);
    }
  }

  lemma {:induction false} EntryRefuses(prefix: Bytes, e: Entry)
    ensures CollectEntry(prefix, e).Err? <==> SpecialIn(e)
    decreases e, 1
  {
    if e.Directory? { CollectRefuses(prefix + e.name + [SLASH], e.entries); }
  }

  /** A file with a path that is refused. */
  ghost predicate RefusedAt(entries: seq<Entry>, path: Bytes, content: Bytes) {
    HasFile(entries, path, content) && !GoodPath(path)
  }

  ghost predicate RefusedIn(e: Entry, path: Bytes, content: Bytes) { EntryHas(e, path, content) && !GoodPath(path) }

  /** There is one exactly when some file lies under a bad component. */
  lemma {:induction false} BadExact(entries: seq<Entry>)
    requires FileSystem(entries)
    ensures HasBadFile(entries) <==> exists path, content :: RefusedAt(entries, path, content)
    decreases entries, 0
  {
    hide GoodPath, BadIn, EntryHas;
    forall i | 0 <= i < |entries| ensures BadIn(entries[i]) <==> exists path, content :: RefusedIn(entries[i], path, content) {
      EntryBadExact(entries[i]);
    }
    if path, content :| RefusedAt(entries, path, content) {
      var i :| 0 <= i < |entries| && EntryHas(entries[i], path, content);
      assert RefusedIn(entries[i], path, content);
      assert BadIn(entries[i]);
    }
    if HasBadFile(entries) {
      var i :| 0 <= i < |entries| && BadIn(entries[i]);
      var path, content :| RefusedIn(entries[i], path, content);
      assert RefusedAt(entries, path, content);
    }
  }

  lemma {:induction false} EntryBadExact(e: Entry)
    requires SLASH !in e.name && (e.Directory? ==> FileSystem(e.entries))
    ensures BadIn(e) <==> exists path, content :: RefusedIn(e, path, content)
    decreases e, 1
  {
    hide GoodPath, HasFile, HasBadFile, RefusedAt;
    match e
    case File(name, c) =>
      GoodName(name);
      assert EntryHas(e, name, c);
      assert RefusedIn(e, name, c) <==> BadName(name);
    case Special(_) =>
    case Directory(name, entries) =>
      BadExact(entries);
      DirectoryBadExact(e);
  }

  lemma DirectoryBadExact(e: Entry)
    requires e.Directory? && SLASH !in e.name
    requires HasBadFile(e.entries) <==> exists path, content :: RefusedAt(e.entries, path, content)
    ensures BadIn(e) <==> exists path, content :: RefusedIn(e, path, content)
  {
    hide GoodPath, HasFile, HasBadFile, BadName;
    var name, entries := e.name, e.entries;
    if path, content :| RefusedIn(e, path, content) {
      var rest := path[|name| + 1..];
      assert path == name + [SLASH] + rest;
      GoodJoined(name, rest);
      assert HasFile(entries, rest, content);
      assert GoodPath(rest) || RefusedAt(entries, rest, content);
      assert HoldsFile(entries);
      assert BadIn(e);
    }
    if HasBadFile(entries) {
      var rest, content :| RefusedAt(entries, rest, content);
      BelowRefused(e, rest, content);
    } else if BadIn(e) {
      var rest, content :| HasFile(entries, rest, content);
      BelowRefused(e, rest, content);
    }
  }

  lemma BelowRefused(e: Entry, rest: Bytes, content: Bytes)
    requires e.Directory? && SLASH !in e.name && HasFile(e.entries, rest, content) && (BadName(e.name) || !GoodPath(rest))
    ensures RefusedIn(e, e.name + [SLASH] + rest, content)
  {
    hide GoodPath, HasFile, BadName;
    var path := e.name + [SLASH] + rest;
    GoodJoined(e.name, rest);
    assert path[|e.name| + 1..] == rest;
  }

  lemma MaskedLength(path: Bytes, content: Bytes)
    requires MaskedBytes(path, content).Ok?
    ensures |MaskedBytes(path, content).value| == |content|
  {
    hide Find, Decode, Encode, Mask, IsChartPath;
    if IsChartPath(path) {
      var text := ChartText(content).value;
      DecodesExactly(content, text);
      MaskAtByteOffset(text);
      var bytes, offset := Encode(text), |Encode(text[..ValueOffset(text)])|;
      assert |Encode(Mask(text))| == offset + DIGITS + |bytes[offset + DIGITS..]|;
    }
  }

  lemma MaskRefuses(f: ChartFile)
    ensures MaskedFile(f).Err? <==> Unhashable(f.path, f.content)
    ensures MaskedFile(f).Err? ==> MaskedFile(f).error != PathInvalid
  {
    hide IsChartPath, ChartText, Mask, Encode;
    if MaskedBytes(f.path, f.content).Ok? { MaskedLength(f.path, f.content); }
  }

  lemma {:induction false} MasksRefuse(files: seq<ChartFile>)
    ensures MaskedFiles(files).Err? <==> exists f :: f in files && Unhashable(f.path, f.content)
    ensures MaskedFiles(files).Err? ==> MaskedFiles(files).error != PathInvalid
    decreases |files|
  {
    hide MaskedFile, Unhashable;
    if files != [] {
      MaskRefuses(files[0]);
      MasksRefuse(files[1..]);
      assert files == [files[0]] + files[1..];
      assert forall f :: f in files <==> f == files[0] || f in files[1..];
    }
  }

  /**
   The digest of a directory is refused exactly when a special entry is reached, a file lies under a
   bad component, there is no root Chart.yaml, or some file cannot be hashed; and the path is to
   blame exactly in the first two cases.
   */
  lemma RefusedExactly(entries: seq<Entry>)
    requires FileSystem(entries)
    ensures Preimage(entries).Err? <==>
              || HasSpecial(entries) || HasBadFile(entries)
              || !(exists content :: HasFile(entries, CHART_YAML, content))
              || (exists path, content :: HasFile(entries, path, content) && Unhashable(path, content))
    ensures Preimage(entries) == Err(PathInvalid) <==> HasSpecial(entries) || HasBadFile(entries)
  {
    hide Collect, GoodPath, HasSpecial, HasBadFile, HasFile, Unhashable, FileSystem, Records, HashedFiles,
         SomeBadPath, SomeRoot, SomeUnhashable, Lists;
    CollectRefuses([], entries);
    CollectError([], entries);
    HashedRefuses(entries);
    if Collect([], entries).Ok? {
      var found := Collect([], entries).value;
      FoundFiles(entries);
      PathsExact(entries, found);
      RootExact(entries, found);
      UnhashableExact(entries, found);
    }
  }

  ghost predicate SomeBadPath(found: seq<ChartFile>) { exists i :: 0 <= i < |found| && !GoodPath(found[i].path) }

  ghost predicate SomeRoot(found: seq<ChartFile>) { exists i :: 0 <= i < |found| && found[i].path == CHART_YAML }

  ghost predicate SomeUnhashable(found: seq<ChartFile>) { exists f :: f in found && Unhashable(f.path, f.content) }

  lemma HashedCases(entries: seq<Entry>)
    ensures Collect([], entries).Err? ==> HashedFiles(entries) == Collect([], entries)
    ensures Collect([], entries).Ok? ==>
              var found := Collect([], entries).value;
              && (SomeBadPath(found) ==> HashedFiles(entries) == Err(PathInvalid))
              && (!SomeBadPath(found) && !SomeRoot(found) ==> HashedFiles(entries) == Err(AnnotationInvalid))
              && (!SomeBadPath(found) && SomeRoot(found) ==> HashedFiles(entries) == MaskedFiles(Sort(found, PathOf)))
  {
    hide Collect, GoodPath, MaskedFiles, Sort, CHART_YAML;
  }

  lemma HashedRefuses(entries: seq<Entry>)
    ensures Collect([], entries).Err? ==> HashedFiles(entries) == Collect([], entries)
    ensures Collect([], entries).Ok? ==>
              var found := Collect([], entries).value;
              && (HashedFiles(entries) == Err(PathInvalid) <==> SomeBadPath(found))
              && (HashedFiles(entries).Err? <==> SomeBadPath(found) || !SomeRoot(found) || SomeUnhashable(found))
  {
    hide Collect, HashedFiles, Unhashable, MaskedFiles, Sort, SomeBadPath, SomeRoot;
    HashedCases(entries);
    if Collect([], entries).Ok? {
      var found := Collect([], entries).value;
      var sorted := Sort(found, PathOf);
      MasksRefuse(sorted);
      SortKeepsFiles(found);
      if f :| f in found && Unhashable(f.path, f.content) { assert f in sorted; }
      if f :| f in sorted && Unhashable(f.path, f.content) { assert f in found; }
    }
  }

  /** `found` are the files of the tree. */
  ghost predicate Lists(found: seq<ChartFile>, entries: seq<Entry>) {
    forall path, content :: ChartFile(path, content) in found <==> HasFile(entries, path, content)
  }

  lemma PathsExact(entries: seq<Entry>, found: seq<ChartFile>)
    requires FileSystem(entries) && Lists(found, entries)
    ensures SomeBadPath(found) <==> HasBadFile(entries)
  {
    hide GoodPath, HasBadFile, HasFile, FileSystem;
    BadExact(entries);
    if i :| 0 <= i < |found| && !GoodPath(found[i].path) {
      assert found[i] == ChartFile(found[i].path, found[i].content) && found[i] in found;
      assert RefusedAt(entries, found[i].path, found[i].content);
    }
    if path, content :| RefusedAt(entries, path, content) {
      assert ChartFile(path, content) in found;
      var i :| 0 <= i < |found| && found[i] == ChartFile(path, content);
    }
  }

  lemma RootExact(entries: seq<Entry>, found: seq<ChartFile>)
    requires Lists(found, entries)
    ensures SomeRoot(found) <==> exists content :: HasFile(entries, CHART_YAML, content)
  {
    hide HasFile, CHART_YAML;
    if i :| 0 <= i < |found| && found[i].path == CHART_YAML {
      assert found[i] == ChartFile(CHART_YAML, found[i].content) && found[i] in found;
      assert HasFile(entries, CHART_YAML, found[i].content);
    }
    if content :| HasFile(entries, CHART_YAML, content) {
      assert ChartFile(CHART_YAML, content) in found;
      var i :| 0 <= i < |found| && found[i] == ChartFile(CHART_YAML, content);
    }
  }

  lemma UnhashableExact(entries: seq<Entry>, found: seq<ChartFile>)
    requires Lists(found, entries)
    ensures SomeUnhashable(found) <==> exists path, content :: HasFile(entries, path, content) && Unhashable(path, content)
  {
    hide HasFile, Unhashable;
    if f :| f in found && Unhashable(f.path, f.content) {
      assert f == ChartFile(f.path, f.content);
      assert HasFile(entries, f.path, f.content);
    }
    if path, content :| HasFile(entries, path, content) && Unhashable(path, content) {
      assert ChartFile(path, content) in found;
    }
  }

  lemma SortKeepsFiles(files: seq<ChartFile>)
    ensures forall f :: f in Sort(files, PathOf) <==> f in files
  {
  }

  lemma FoundFiles(entries: seq<Entry>)
    requires Collect([], entries).Ok?
    ensures Lists(Collect([], entries).value, entries)
  {
    hide Collect, HasFile;
    forall path, content
      ensures ChartFile(path, content) in Collect([], entries).value <==> HasFile(entries, path, content)
    {
      TreeCollected([], entries, path, content);
      assert [] + path == path;
    }
  }
}
