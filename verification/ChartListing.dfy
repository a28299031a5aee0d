/**
 The chart digest does not depend on the order in which directories list their entries, and it
 binds exactly the set of paths with their masked contents (scripts/chart-content-digest.ts).
 */
module ChartListing {
  import opened Ordering
  import opened Utf8
  import opened ChartPreimage
  import opened ChartDigest

  /** What a file system guarantees: names without slash, and different within a directory. */
  ghost predicate FileSystem(entries: seq<Entry>) {
    && (forall i :: 0 <= i < |entries| ==> SLASH !in entries[i].name)
    && (forall i, j :: 0 <= i < j < |entries| ==> entries[i].name != entries[j].name)
    && (forall i :: 0 <= i < |entries| && entries[i].Directory? ==> FileSystem(entries[i].entries))
  }

  predicate HasName(entries: seq<Entry>, name: Bytes) { exists i :: 0 <= i < |entries| && entries[i].name == name }

  /** The same directory tree, listed in possibly different orders at every level. */
  ghost predicate SameListing(a: seq<Entry>, b: seq<Entry>) {
    && (forall i :: 0 <= i < |a| ==> HasName(b, a[i].name))
    && (forall j :: 0 <= j < |b| ==> HasName(a, b[j].name))
    && (forall i, j :: 0 <= i < |a| && 0 <= j < |b| && a[i].name == b[j].name ==>
          match a[i]
          case File(_, content) => b[j].File? && b[j].content == content
          case Directory(_, entries) => b[j].Directory? && SameListing(entries, b[j].entries)
          case Special(_) => b[j].Special?)
  }

  lemma {:induction false} CollectError(prefix: Bytes, entries: seq<Entry>)
    ensures Collect(prefix, entries).Err? <==>
              exists i :: 0 <= i < |entries| && CollectEntry(prefix, entries[i]).Err?
    ensures Collect(prefix, entries).Err? ==> Collect(prefix, entries).error == PathInvalid
    decreases entries
  {
    hide CollectEntry;
    if entries != [] {
      CollectError(prefix, entries[1..]);
      EntryError(prefix, entries[0]);
      if i :| 0 <= i < |entries| && CollectEntry(prefix, entries[i]).Err? {
        assert i > 0 ==> entries[1..][i - 1] == entries[i];
      }
    }
  }

  lemma {:induction false} EntryError(prefix: Bytes, e: Entry)
    ensures CollectEntry(prefix, e).Err? ==> CollectEntry(prefix, e).error == PathInvalid
    decreases e
  {
    if e.Directory? { CollectError(prefix + e.name + [SLASH], e.entries); }
  }

  lemma {:induction false} CollectMembers(prefix: Bytes, entries: seq<Entry>, f: ChartFile)
    requires Collect(prefix, entries).Ok?
    ensures f in Collect(prefix, entries).value <==>
              exists i :: 0 <= i < |entries| && CollectEntry(prefix, entries[i]).Ok? && f in CollectEntry(prefix, entries[i]).value
    decreases |entries|
  {
    hide CollectEntry;
    if entries != [] {
      CollectMembers(prefix, entries[1..], f);
      if i :| 0 <= i < |entries| && CollectEntry(prefix, entries[i]).Ok? && f in CollectEntry(prefix, entries[i]).value {
        assert i > 0 ==> entries[1..][i - 1] == entries[i];
      }
      if f in Collect(prefix, entries[1..]).value {
        var k :| 0 <= k < |entries[1..]| && CollectEntry(prefix, entries[1..][k]).Ok? &&
                 f in CollectEntry(prefix, entries[1..][k]).value;
        assert entries[k + 1] == entries[1..][k];
      }
    }
  }

  lemma {:induction false} SameEntryCollects(prefix: Bytes, a: Entry, b: Entry)
    requires a.name == b.name
    requires match a
             case File(_, content) => b.File? && b.content == content
             case Directory(_, entries) => b.Directory? && SameListing(entries, b.entries)
             case Special(_) => b.Special?
    ensures CollectEntry(prefix, a).Err? == CollectEntry(prefix, b).Err?
    ensures CollectEntry(prefix, a).Ok? ==> SameElements(CollectEntry(prefix, a).value, CollectEntry(prefix, b).value)
    decreases a, 1
  {
    if a.Directory? { SameListingCollects(prefix + a.name + [SLASH], a.entries, b.entries); }
  }

  /** The same tree gives the same files, or fails alike. */
  lemma {:induction false} SameListingCollects(prefix: Bytes, a: seq<Entry>, b: seq<Entry>)
    requires SameListing(a, b)
    ensures Collect(prefix, a).Err? == Collect(prefix, b).Err?
    ensures Collect(prefix, a).Ok? ==> SameElements(Collect(prefix, a).value, Collect(prefix, b).value)
    decreases a, 0
  {
    hide CollectEntry, Collect;
    forall i, j | 0 <= i < |a| && 0 <= j < |b| && a[i].name == b[j].name
      ensures CollectEntry(prefix, a[i]).Err? == CollectEntry(prefix, b[j]).Err?
      ensures CollectEntry(prefix, a[i]).Ok? ==>
                SameElements(CollectEntry(prefix, a[i]).value, CollectEntry(prefix, b[j]).value)
    {
      SameEntryCollects(prefix, a[i], b[j]);
    }
    CollectError(prefix, a);
    CollectError(prefix, b);
    if i :| 0 <= i < |a| && CollectEntry(prefix, a[i]).Err? {
      var j :| 0 <= j < |b| && b[j].name == a[i].name;
      assert CollectEntry(prefix, b[j]).Err?;
    }
    if j :| 0 <= j < |b| && CollectEntry(prefix, b[j]).Err? {
      var i :| 0 <= i < |a| && a[i].name == b[j].name;
      assert CollectEntry(prefix, a[i]).Err?;
    }
    if Collect(prefix, a).Ok? {
      forall f | f in Collect(prefix, a).value ensures f in Collect(prefix, b).value { FileWithin(prefix, a, b, f); }
      forall f | f in Collect(prefix, b).value ensures f in Collect(prefix, a).value { FileWithin(prefix, b, a, f); }
    }
  }

  /** An entry's files, when it yields any, are all among those of its counterpart. */
  ghost predicate EntryWithin(prefix: Bytes, x: Entry, y: Entry) {
    CollectEntry(prefix, x).Ok? ==>
      CollectEntry(prefix, y).Ok? && forall f :: f in CollectEntry(prefix, x).value ==> f in CollectEntry(prefix, y).value
  }

  lemma FileWithin(prefix: Bytes, a: seq<Entry>, b: seq<Entry>, f: ChartFile)
    requires forall i :: 0 <= i < |a| ==> exists j :: 0 <= j < |b| && EntryWithin(prefix, a[i], b[j])
    requires Collect(prefix, a).Ok? && Collect(prefix, b).Ok? && f in Collect(prefix, a).value
    ensures f in Collect(prefix, b).value
  {
    hide CollectEntry, Collect;
    CollectMembers(prefix, a, f);
    CollectMembers(prefix, b, f);
    var i :| 0 <= i < |a| && CollectEntry(prefix, a[i]).Ok? && f in CollectEntry(prefix, a[i]).value;
    var j :| 0 <= j < |b| && EntryWithin(prefix, a[i], b[j]);
    assert f in CollectEntry(prefix, b[j]).value;
  }

  // ---------------------------------------------------------------------------------------
  // Paths are distinct
  // ---------------------------------------------------------------------------------------

  /** Every path collected below an entry is its name, or its name, a slash and more. */
  ghost predicate Below(path: Bytes, prefix: Bytes, name: Bytes) {
    && prefix + name <= path
    && (path == prefix + name || path[|prefix + name|] == SLASH)
  }

  lemma {:induction false} CollectedBelow(prefix: Bytes, e: Entry, f: ChartFile)
    requires CollectEntry(prefix, e).Ok? && f in CollectEntry(prefix, e).value
    ensures Below(f.path, prefix, e.name)
    decreases e, 1
  {
    if e.Directory? {
      PrefixKept(prefix + e.name + [SLASH], e.entries, f);
    }
  }

  lemma {:induction false} PrefixKept(prefix: Bytes, entries: seq<Entry>, f: ChartFile)
    requires Collect(prefix, entries).Ok? && f in Collect(prefix, entries).value
    ensures prefix <= f.path
    decreases entries, 0
  {
    CollectMembers(prefix, entries, f);
    var i :| 0 <= i < |entries| && CollectEntry(prefix, entries[i]).Ok? && f in CollectEntry(prefix, entries[i]).value;
    CollectedBelow(prefix, entries[i], f);
  }

  /** Two names without slash are told apart by any path below them. */
  lemma NamesSeparate(path: Bytes, prefix: Bytes, m: Bytes, n: Bytes)
    requires Below(path, prefix, m) && Below(path, prefix, n) && SLASH !in m && SLASH !in n
    ensures m == n
  {
    NoSlashInName(path, prefix, m);
    NoSlashInName(path, prefix, n);
    assert path[|prefix|..|prefix| + |m|] == m && path[|prefix|..|prefix| + |n|] == n;
  }

  lemma NoSlashInName(path: Bytes, prefix: Bytes, n: Bytes)
    requires Below(path, prefix, n) && SLASH !in n
    ensures path[|prefix|..|prefix| + |n|] == n
    ensures forall t :: |prefix| <= t < |prefix| + |n| ==> path[t] != SLASH
  {
  }

  lemma {:induction false} CollectDistinct(prefix: Bytes, entries: seq<Entry>)
    requires FileSystem(entries) && Collect(prefix, entries).Ok?
    ensures Distinct(Collect(prefix, entries).value, PathOf)
    decreases entries, 0
  {
    if entries != [] {
      var first, rest := CollectEntry(prefix, entries[0]), Collect(prefix, entries[1..]);
      EntryDistinct(prefix, entries[0]);
      assert FileSystem(entries[1..]);
      CollectDistinct(prefix, entries[1..]);
      forall f, g | f in first.value && g in rest.value ensures f.path != g.path {
        CollectMembers(prefix, entries[1..], g);
        var i :| 0 <= i < |entries[1..]| && CollectEntry(prefix, entries[1..][i]).Ok? &&
                 g in CollectEntry(prefix, entries[1..][i]).value;
        CollectedBelow(prefix, entries[0], f);
        CollectedBelow(prefix, entries[i + 1], g);
        if f.path == g.path { NamesSeparate(f.path, prefix, entries[0].name, entries[i + 1].name); }
      }
      DistinctConcat(first.value, rest.value);
    }
  }

  lemma {:induction false} EntryDistinct(prefix: Bytes, e: Entry)
    requires e.Directory? ==> FileSystem(e.entries)
    requires CollectEntry(prefix, e).Ok?
    ensures Distinct(CollectEntry(prefix, e).value, PathOf)
    decreases e, 1
  {
    if e.Directory? { CollectDistinct(prefix + e.name + [SLASH], e.entries); }
  }

  lemma DistinctConcat(a: seq<ChartFile>, b: seq<ChartFile>)
    requires Distinct(a, PathOf) && Distinct(b, PathOf)
    requires forall f, g :: f in a && g in b ==> f.path != g.path
    ensures Distinct(a + b, PathOf)
  {
  }

  // ---------------------------------------------------------------------------------------
  // Main results
  // ---------------------------------------------------------------------------------------

  /** Listing order is irrelevant: the same tree has the same pre-image, or the same refusal. */
  lemma ListingOrderIrrelevant(a: seq<Entry>, b: seq<Entry>)
    requires FileSystem(a) && FileSystem(b) && SameListing(a, b)
    ensures Preimage(a) == Preimage(b)
  {
    hide Collect, SameListing, FileSystem, GoodPath, MaskedFiles, Records;
    SameListingCollects([], a, b);
    CollectError([], a);
    CollectError([], b);
    if Collect([], a).Ok? {
      var f, g := Collect([], a).value, Collect([], b).value;
      CollectDistinct([], a);
      CollectDistinct([], b);
      SortOrderIndependent(f, g, PathOf);
      SamePathChecks(f, g);
    }
  }

  lemma SamePathChecks(f: seq<ChartFile>, g: seq<ChartFile>)
    requires SameElements(f, g)
    ensures (exists i :: 0 <= i < |f| && !GoodPath(f[i].path)) <==> (exists i :: 0 <= i < |g| && !GoodPath(g[i].path))
    ensures (forall i :: 0 <= i < |f| ==> f[i].path != CHART_YAML) <==> (forall i :: 0 <= i < |g| ==> g[i].path != CHART_YAML)
  {
    hide GoodPath;
    forall i | 0 <= i < |f| ensures exists j :: 0 <= j < |g| && g[j] == f[i] { assert f[i] in g; }
    forall i | 0 <= i < |g| ensures exists j :: 0 <= j < |f| && f[j] == g[i] { assert g[i] in f; }
  }

  /** Hashed files come in strictly ascending path order. */
  lemma HashedFilesAscend(entries: seq<Entry>)
    requires FileSystem(entries) && HashedFiles(entries).Ok?
    ensures Ascending(HashedFiles(entries).value, PathOf)
  {
    hide Collect, FileSystem, GoodPath, MaskedFile, MaskedFiles, Less;
    var found := Collect([], entries).value;
    CollectDistinct([], entries);
    SortAscends(found, PathOf);
    MaskedFilesSized(Sort(found, PathOf));
  }

  /**
   Two charts have the same pre-image exactly when they hold the same set of paths with the same
   masked contents.
   */
  lemma PreimageBindsFileSet(a: seq<Entry>, b: seq<Entry>)
    requires FileSystem(a) && FileSystem(b) && Preimage(a).Ok? && Preimage(b).Ok?
    ensures Preimage(a) == Preimage(b) <==> SameElements(HashedFiles(a).value, HashedFiles(b).value)
  {
    hide HashedFiles, FileSystem, Records;
    PreimageInjective(a, b);
    HashedFilesAscend(a);
    HashedFilesAscend(b);
    if SameElements(HashedFiles(a).value, HashedFiles(b).value) {
      AscendingUnique(HashedFiles(a).value, HashedFiles(b).value, PathOf);
    }
  }
}
