/**
 `canonicalJson` and `sortKeys` (scripts/authority-closure-proof.ts): rebuild every object by
 assigning its properties in sorted key order, then print with `JSON.stringify`.

 What the rebuilt object prints depends on how a JavaScript object enumerates: array-index keys
 come first in ascending numeric order, every other key in the order it was first assigned, and
 an assignment to `__proto__` creates no own property.
 */
module RebuiltJson {
  import opened Sequences
  import opened Ordering
  import opened CanonicalJson
  import opened JsonEscapes

  /** "__proto__" */
  const PROTO: Text := [0x5F, 0x5F, 0x70, 0x72, 0x6F, 0x74, 0x6F, 0x5F, 0x5F]

  /** The largest array index, 2^32 - 2. */
  const MAX_INDEX := 0xFFFF_FFFE

  function DecimalValue(k: Text): int {
    if k == [] then 0 else DecimalValue(k[..|k| - 1]) * 10 + (k[|k| - 1] - 0x30)
  }

  predicate AllDigits(k: Text) { forall i :: 0 <= i < |k| ==> 0x30 <= k[i] <= 0x39 }

  /** A canonical decimal numeral: digits only, no leading zero. */
  predicate IsNumeral(k: Text) { k != [] && AllDigits(k) && (|k| > 1 ==> k[0] != 0x30) }

  predicate IsIndex(k: Text) { IsNumeral(k) && DecimalValue(k) <= MAX_INDEX }

  function IndexRank(f: Field): seq<int> { [DecimalValue(f.key)] }

  // ---------------------------------------------------------------------------------------
  // Property assignment and enumeration order
  // ---------------------------------------------------------------------------------------

  function InsertIndex(f: Field, out: seq<Field>): seq<Field> {
    if out != [] && IsIndex(out[0].key) && DecimalValue(out[0].key) < DecimalValue(f.key)
    then [out[0]] + InsertIndex(f, out[1..])
    else [f] + out
  }

  /** `out[f.key] = f.value` on an object with the enumerated properties `out`. */
  function Put(out: seq<Field>, f: Field): seq<Field> {
    if f.key == PROTO then out
    else if HasKey(out, f.key) then
      seq(|out|, i requires 0 <= i < |out| => if out[i].key == f.key then f else out[i])
    else if IsIndex(f.key) then InsertIndex(f, out)
    else out + [f]
  }

  lemma {:induction false} InsertExact(f: Field, out: seq<Field>, g: Field)
    ensures g in InsertIndex(f, out) <==> g == f || g in out
    decreases |out|
  {
    if out != [] && IsIndex(out[0].key) && DecimalValue(out[0].key) < DecimalValue(f.key) { InsertExact(f, out[1..], g); }
  }

  /** An assignment sets the property, in place of any value it had, and no other; `__proto__` is lost. */
  lemma PutExact(out: seq<Field>, f: Field, g: Field)
    ensures f.key == PROTO ==> Put(out, f) == out
    ensures f.key != PROTO ==> (g in Put(out, f) <==> g == f || (g in out && g.key != f.key))
  {
    hide IsIndex;
    if HasKey(out, f.key) {
      if g in out && g.key != f.key {
        var i :| 0 <= i < |out| && out[i] == g;
        assert f.key != PROTO ==> Put(out, f)[i] == g;
      }
      var k :| 0 <= k < |out| && out[k].key == f.key;
      assert f.key != PROTO ==> Put(out, f)[k] == f;
    } else {
      InsertExact(f, out, g);
    }
  }

  function Indices(s: seq<Field>): (r: seq<Field>)
    ensures forall f :: f in r <==> f in s && IsIndex(f.key)
  {
    if s == [] then [] else
      var last := s[|s| - 1];
      assert s == s[..|s| - 1] + [last];
      Indices(s[..|s| - 1]) + if IsIndex(last.key) then [last] else []
  }

  function Named(s: seq<Field>): (r: seq<Field>)
    ensures forall f :: f in r <==> f in s && !IsIndex(f.key) && f.key != PROTO
  {
    if s == [] then [] else
      var last := s[|s| - 1];
      assert s == s[..|s| - 1] + [last];
      Named(s[..|s| - 1]) + if !IsIndex(last.key) && last.key != PROTO then [last] else []
  }

  /** How an object enumerates once the properties `s` have been assigned in that order. */
  function EnumerationOrder(s: seq<Field>): seq<Field> {
    Sort(Indices(s), IndexRank) + Named(s)
  }

  ghost predicate InEnumerationOrder(s: seq<Field>) {
    && (forall i :: 0 <= i < |s| ==> s[i].key != PROTO)
    && (forall i, j :: 0 <= i < j < |s| && IsIndex(s[j].key) ==>
          IsIndex(s[i].key) && DecimalValue(s[i].key) < DecimalValue(s[j].key))
  }

  /** Which keys are array indices: canonical numerals up to 2^32 - 2. */
  lemma IndexTable()
    ensures IsIndex(Units("0")) && !IsIndex(Units("01")) && !IsIndex(Units("-1")) && !IsIndex(Units(""))
    ensures IsIndex(Units("4294967294")) && !IsIndex(Units("4294967295"))
    ensures PROTO == Units("__proto__")
  {
    hide DecimalValue;
    ValueTable();
    assert Units("01")[0] == 0x30;
    assert Units("-1")[0] == 0x2D;
  }

  lemma ValueTable()
    ensures DecimalValue(Units("0")) == 0
    ensures DecimalValue(Units("4294967294")) == 4294967294 && DecimalValue(Units("4294967295")) == 4294967295
  {
    var n0 := LastDigit("", "0", 0);
    var n1 := LastDigit("", "4", 0);
    var n2 := LastDigit("4", "42", n1);
    var n3 := LastDigit("42", "429", n2);
    var n4 := LastDigit("429", "4294", n3);
    var n5 := LastDigit("4294", "42949", n4);
    var n6 := LastDigit("42949", "429496", n5);
    var n7 := LastDigit("429496", "4294967", n6);
    var n8 := LastDigit("4294967", "42949672", n7);
    var n9 := LastDigit("42949672", "429496729", n8);
    var m := LastDigit("429496729", "4294967294", n9);
    var n := LastDigit("429496729", "4294967295", n9);
  }

  lemma LastDigit(p: string, s: string, before: int) returns (n: int)
    requires s != [] && s[..|s| - 1] == p && before == DecimalValue(Units(p))
    ensures n == before * 10 + (s[|s| - 1] as int - 0x30) == DecimalValue(Units(s))
  {
    n := before * 10 + (s[|s| - 1] as int - 0x30);
    assert Units(s)[..|s| - 1] == Units(p);
  }

  lemma {:induction false} DecimalBounds(k: Text)
    requires IsNumeral(k)
    ensures DecimalValue(k) >= 0
    ensures DecimalValue(k) == 0 ==> |k| == 1
    ensures |k| > 1 ==> IsNumeral(k[..|k| - 1]) && DecimalValue(k) >= 10
  {
    if |k| > 1 {
      var p := k[..|k| - 1];
      assert p[0] == k[0];
      DecimalBounds(p);
    } else {
      assert DecimalValue(k[..0]) == 0;
    }
  }

  /** Different numerals denote different numbers. */
  lemma {:induction false} NumeralInjective(a: Text, b: Text)
    requires IsNumeral(a) && IsNumeral(b) && DecimalValue(a) == DecimalValue(b)
    ensures a == b
  {
    DecimalBounds(a);
    DecimalBounds(b);
    var p, q := a[..|a| - 1], b[..|b| - 1];
    assert a == p + [a[|a| - 1]] && b == q + [b[|b| - 1]];
    assert |a| == 1 ==> DecimalValue(p) == 0 && DecimalValue(a) < 10;
    assert |b| == 1 ==> DecimalValue(q) == 0 && DecimalValue(b) < 10;
    if |a| > 1 && |b| > 1 { NumeralInjective(p, q); }
  }

  lemma IndicesDistinct(s: seq<Field>)
    requires Distinct(s, KeyOf)
    ensures Distinct(Indices(s), KeyOf) && Distinct(Indices(s), IndexRank)
  {
    if s != [] {
      IndicesDistinct(s[..|s| - 1]);
      var r, p := Indices(s), Indices(s[..|s| - 1]);
      forall i, j | 0 <= i < j < |r| ensures KeyOf(r[i]) != KeyOf(r[j]) {
        if j == |p| { assert p[i] in s[..|s| - 1]; }
      }
      forall i, j | 0 <= i < j < |r| ensures IndexRank(r[i]) != IndexRank(r[j]) {
        assert r[i] in r && r[j] in r;
        assert KeyOf(r[i]) != KeyOf(r[j]);
        if IndexRank(r[i])[0] == IndexRank(r[j])[0] { NumeralInjective(r[i].key, r[j].key); }
      }
    }
  }

  lemma RankOrder(f: Field, g: Field)
    ensures Less(IndexRank(f), IndexRank(g)) <==> DecimalValue(f.key) < DecimalValue(g.key)
  {
  }

  lemma InsertIndexSplits(f: Field, a: seq<Field>, b: seq<Field>)
    requires forall x :: x in a ==> IsIndex(x.key)
    requires forall x :: x in b ==> !IsIndex(x.key)
    ensures InsertIndex(f, a + b) == Insert(f, a, IndexRank) + b
  {
    if a == [] {
      assert a + b == b;
    } else {
      assert a[0] in a && (a + b)[0] == a[0] && (a + b)[1..] == a[1..] + b;
      RankOrder(a[0], f);
      InsertIndexSplits(f, a[1..], b);
    }
  }

  lemma NewKey(s: seq<Field>, f: Field)
    requires Distinct(s + [f], KeyOf)
    ensures Distinct(s, KeyOf)
    ensures forall x :: x in s ==> x.key != f.key
  {
    var t := s + [f];
    forall i, j | 0 <= i < j < |s| ensures KeyOf(s[i]) != KeyOf(s[j]) {
      assert t[i] == s[i] && t[j] == s[j];
    }
    forall x | x in s ensures x.key != f.key {
      var i :| 0 <= i < |s| && s[i] == x;
      assert KeyOf(t[i]) != KeyOf(t[|s|]);
    }
  }

  /** How one more property is listed: as an index, by name, or not at all. */
  lemma OneMore(p: seq<Field>, last: Field)
    ensures IsIndex(last.key) ==> Indices(p + [last]) == Indices(p) + [last] && Named(p + [last]) == Named(p)
    ensures !IsIndex(last.key) ==> Indices(p + [last]) == Indices(p)
    ensures !IsIndex(last.key) && last.key != PROTO ==> Named(p + [last]) == Named(p) + [last]
    ensures last.key == PROTO ==> Named(p + [last]) == Named(p)
  {
    hide IsIndex;
    assert (p + [last])[..|p|] == p;
  }

  /** Assigning one more new property keeps the enumeration order of what was assigned. */
  lemma {:induction false} PutKeepsOrder(s: seq<Field>, f: Field)
    requires Distinct(s + [f], KeyOf)
    ensures Put(EnumerationOrder(s), f) == EnumerationOrder(s + [f])
  {
    hide IsIndex, DecimalValue, Sort, Indices, Named, InsertIndex, Distinct;
    NewKey(s, f);
    var a, b := Sort(Indices(s), IndexRank), Named(s);
    assert !HasKey(a + b, f.key);
    ProtoNotIndex();
    OneMore(s, f);
    if IsIndex(f.key) {
      InsertIndexSplits(f, a, b);
      InsertIsSort(s, f);
    } else {
      assert a + b + [f] == a + (b + [f]);
    }
  }

  lemma ProtoNotIndex()
    ensures !IsIndex(PROTO)
  {
  }

  lemma {:induction false} InsertIsSort(s: seq<Field>, f: Field)
    requires Distinct(s + [f], KeyOf) && Distinct(s, KeyOf) && IsIndex(f.key)
    ensures Insert(f, Sort(Indices(s), IndexRank), IndexRank) == Sort(Indices(s + [f]), IndexRank)
  {
    hide IsIndex, IndexRank, Sort, Insert;
    assert (s + [f])[..|s|] == s;
    IndicesDistinct(s);
    IndicesDistinct(s + [f]);
    InsertLast(Indices(s), f, IndexRank);
  }

  lemma EnumerationShape(s: seq<Field>)
    requires Distinct(s, KeyOf)
    ensures InEnumerationOrder(EnumerationOrder(s))
  {
    hide IsIndex, DecimalValue, Sort;
    var a := Sort(Indices(s), IndexRank);
    var r := EnumerationOrder(s);
    IndicesDistinct(s);
    SortAscends(Indices(s), IndexRank);
    ProtoNotIndex();
    forall i | 0 <= i < |r| ensures r[i].key != PROTO {
      if i < |a| { assert r[i] == a[i]; } else { assert r[i] in Named(s); }
    }
    forall i, j | 0 <= i < j < |r| && IsIndex(r[j].key)
      ensures IsIndex(r[i].key) && DecimalValue(r[i].key) < DecimalValue(r[j].key)
    {
      assert r[j] !in Named(s);
      assert r[i] == a[i] && r[j] == a[j] && a[i] in Indices(s);
      assert Less(IndexRank(a[i]), IndexRank(a[j]));
      RankOrder(a[i], a[j]);
    }
  }

  lemma NothingListed()
    ensures Indices([]) == [] && Named([]) == []
  {
  }

  lemma {:induction false} AllIndices(s: seq<Field>)
    requires forall i :: 0 <= i < |s| ==> IsIndex(s[i].key)
    ensures Indices(s) == s && Named(s) == []
  {
    hide IsIndex, Indices, Named;
    if s == [] {
      NothingListed();
    } else {
      var p, last := s[..|s| - 1], s[|s| - 1];
      forall i | 0 <= i < |p| ensures IsIndex(p[i].key) { assert p[i] == s[i]; }
      AllIndices(p);
      OneMore(p, last);
      assert s == p + [last];
    }
  }

  lemma IndicesAscend(s: seq<Field>)
    requires InEnumerationOrder(s) && forall i :: 0 <= i < |s| ==> IsIndex(s[i].key)
    ensures s == Indices(s) + Named(s)
    ensures Ascending(Indices(s), IndexRank)
  {
    hide IsIndex, DecimalValue, IndexRank, Less, Indices, Named;
    AllIndices(s);
    assert s + [] == s;
    forall i, j | 0 <= i < j < |s| ensures Less(IndexRank(s[i]), IndexRank(s[j])) {
      RankOrder(s[i], s[j]);
    }
  }

  lemma {:induction false} OrderedSplits(s: seq<Field>)
    requires InEnumerationOrder(s)
    ensures s == Indices(s) + Named(s)
    ensures Ascending(Indices(s), IndexRank)
  {
    hide IsIndex, DecimalValue, IndexRank, Less, Indices, Named;
    if s == [] {
      AllIndices(s);
    } else {
      var p, last := s[..|s| - 1], s[|s| - 1];
      assert s == p + [last];
      if IsIndex(last.key) {
        IndicesAscend(s);
      } else {
        OrderedSplits(p);
        OneMore(p, last);
        Assoc(Indices(p), Named(p), [last]);
      }
    }
  }

  /** Properties already in enumeration order enumerate as assigned. */
  lemma OrderedIsFixed(s: seq<Field>)
    requires InEnumerationOrder(s)
    ensures EnumerationOrder(s) == s
  {
    OrderedSplits(s);
    SortOfAscending(Indices(s), IndexRank);
  }

  // ---------------------------------------------------------------------------------------
  // sortKeys
  // ---------------------------------------------------------------------------------------

  function Enumerated(v: Json): Json {
    match v
    case Arr(items) => Arr(seq(|items|, i requires 0 <= i < |items| => Enumerated(items[i])))
    case Obj(fields) =>
      Obj(EnumerationOrder(seq(|fields|, i requires 0 <= i < |fields| =>
                                 Field(fields[i].key, Enumerated(fields[i].value)))))
    case _ => v
  }

  function EnumeratedChildren(fields: seq<Field>): seq<Field> {
    seq(|fields|, i requires 0 <= i < |fields| => Field(fields[i].key, Enumerated(fields[i].value)))
  }

  /** What `sortKeys` returns: the key-sorted tree, as JavaScript objects enumerate it. */
  function Rebuilt(v: Json): Json { Enumerated(SortTree(v)) }

  function RebuiltText(v: Json): Text { Print(Rebuilt(v)) }

  /** The source's recursion. */
  method SortKeys(v: Json) returns (r: Json)
    requires Valid(v)
    ensures r == Rebuilt(v)
    decreases v, 1
  {
    hide EnumerationOrder, Sort, Distinct, ValidText;
    match v
    case Arr(items) =>
      var out: seq<Json> := [];
      for i := 0 to |items|
        invariant |out| == i && forall k :: 0 <= k < i ==> out[k] == Rebuilt(items[k])
      {
        var child := SortKeys(items[i]);
        out := out + [child];
      }
      r := Arr(out);
      assert Rebuilt(v).items == out;
    case Obj(fields) => r := FillObject(v);
    case _ => r := v;
  }

  /** Fills `out` one sorted key at a time. */
  method FillObject(v: Json) returns (r: Json)
    requires v.Obj? && Valid(v)
    ensures r == Rebuilt(v)
    decreases v, 0
  {
    hide EnumerationOrder, Put, SortTree, Enumerated, ValidText;
    var sorted := Sort(v.fields, KeyOf);
    ghost var children := EnumeratedChildren(SortedChildren(sorted));
    SortValidFields(v.fields);
    var out: seq<Field> := [];
    EmptyOrder();
    for i := 0 to |sorted|
      invariant out == EnumerationOrder(children[..i])
    {
      FieldSmaller(v, sorted[i]);
      var child := SortKeys(sorted[i].value);
      PrefixDistinct(children, i);
      PutKeepsOrder(children[..i], children[i]);
      assert children[..i + 1] == children[..i] + [children[i]];
      out := Put(out, Field(sorted[i].key, child));
    }
    assert children[..|sorted|] == children;
    RebuiltObject(v);
    r := Obj(out);
  }

  lemma EmptyOrder()
    ensures EnumerationOrder([]) == []
  {
  }

  lemma RebuiltObject(v: Json)
    requires v.Obj? && Valid(v)
    ensures Rebuilt(v) == Obj(EnumerationOrder(EnumeratedChildren(SortedChildren(Sort(v.fields, KeyOf)))))
  {
    hide EnumerationOrder;
    SortedFieldsAlign(v);
  }

  lemma PrefixDistinct(s: seq<Field>, i: nat)
    requires Distinct(s, KeyOf) && i < |s|
    ensures Distinct(s[..i] + [s[i]], KeyOf)
  {
  }

  // ---------------------------------------------------------------------------------------
  // When the two canonicalisers agree
  // ---------------------------------------------------------------------------------------

  /**
   At every depth, no key is `__proto__`, and the sorted keys have all array indices first and
   in numeric order.
   */
  ghost predicate KeepsSortedOrder(v: Json) {
    match v
    case Arr(items) => forall i :: 0 <= i < |items| ==> KeepsSortedOrder(items[i])
    case Obj(fields) =>
      && InEnumerationOrder(Sort(fields, KeyOf))
      && forall i :: 0 <= i < |fields| ==> KeepsSortedOrder(fields[i].value)
    case _ => true
  }

  /** The same condition on a tree whose fields are sorted already. */
  ghost predicate EnumeratesInPlace(v: Json) {
    match v
    case Arr(items) => forall i :: 0 <= i < |items| ==> EnumeratesInPlace(items[i])
    case Obj(fields) =>
      && InEnumerationOrder(fields)
      && forall i :: 0 <= i < |fields| ==> EnumeratesInPlace(fields[i].value)
    case _ => true
  }

  lemma SameKeysSameOrder(a: seq<Field>, b: seq<Field>)
    requires |a| == |b| && forall i :: 0 <= i < |a| ==> a[i].key == b[i].key
    ensures InEnumerationOrder(a) == InEnumerationOrder(b)
  {
  }

  lemma {:induction false} EnumeratedFixed(v: Json)
    requires Valid(v)
    ensures Enumerated(v) == v <==> EnumeratesInPlace(v)
  {
    hide EnumerationOrder, InEnumerationOrder;
    match v
    case Arr(items) =>
      forall i | 0 <= i < |items| ensures Enumerated(items[i]) == items[i] <==> EnumeratesInPlace(items[i]) {
        EnumeratedFixed(items[i]);
      }
      if Enumerated(v) == v {
        forall i | 0 <= i < |items| ensures EnumeratesInPlace(items[i]) { assert Enumerated(v).items[i] == items[i]; }
      }
    case Obj(fields) =>
      forall i | 0 <= i < |fields|
        ensures Enumerated(fields[i].value) == fields[i].value <==> EnumeratesInPlace(fields[i].value)
      {
        EnumeratedFixed(fields[i].value);
      }
      ObjectFixed(fields);
      assert Enumerated(v).fields == EnumerationOrder(EnumeratedChildren(fields));
    case _ =>
  }

  lemma ObjectFixed(fields: seq<Field>)
    requires Distinct(fields, KeyOf)
    ensures EnumerationOrder(EnumeratedChildren(fields)) == fields
       <==> InEnumerationOrder(fields) && forall i :: 0 <= i < |fields| ==> Enumerated(fields[i].value) == fields[i].value
  {
    hide EnumerationOrder, InEnumerationOrder, Enumerated;
    var m := EnumeratedChildren(fields);
    SameKeysSameOrder(m, fields);
    EnumerationShape(m);
    if InEnumerationOrder(fields) {
      OrderedIsFixed(m);
      if m == fields {
        forall i | 0 <= i < |fields| ensures Enumerated(fields[i].value) == fields[i].value { assert m[i] == fields[i]; }
      }
    }
  }

  lemma {:induction false} SortedKeepsOrder(v: Json)
    requires Valid(v)
    ensures EnumeratesInPlace(SortTree(v)) <==> KeepsSortedOrder(v)
  {
    hide InEnumerationOrder;
    match v
    case Arr(items) =>
      forall i | 0 <= i < |items| ensures EnumeratesInPlace(SortTree(items[i])) <==> KeepsSortedOrder(items[i]) {
        SortedKeepsOrder(items[i]);
      }
      forall i | 0 <= i < |items| ensures SortTree(v).items[i] == SortTree(items[i]) {}
    case Obj(fields) =>
      forall i | 0 <= i < |fields|
        ensures EnumeratesInPlace(SortTree(fields[i].value)) <==> KeepsSortedOrder(fields[i].value)
      {
        SortedKeepsOrder(fields[i].value);
      }
      var s := Sort(fields, KeyOf);
      SortedFieldsAlign(v);
      SameKeysSameOrder(SortedChildren(s), s);
      SortedChildrenEverywhere(fields, s);
    case _ =>
  }

  lemma SortedChildrenEverywhere(fields: seq<Field>, s: seq<Field>)
    requires SameElements(s, fields)
    ensures (forall i :: 0 <= i < |s| ==> EnumeratesInPlace(SortedChildren(s)[i].value))
       <==> (forall i :: 0 <= i < |fields| ==> EnumeratesInPlace(SortTree(fields[i].value)))
  {
    hide EnumeratesInPlace, SortTree;
    if forall i :: 0 <= i < |s| ==> EnumeratesInPlace(SortedChildren(s)[i].value) {
      forall i | 0 <= i < |fields| ensures EnumeratesInPlace(SortTree(fields[i].value)) {
        assert fields[i] in s;
        var k :| 0 <= k < |s| && s[k] == fields[i];
        assert EnumeratesInPlace(SortedChildren(s)[k].value);
      }
    }
    if forall i :: 0 <= i < |fields| ==> EnumeratesInPlace(SortTree(fields[i].value)) {
      forall i | 0 <= i < |s| ensures EnumeratesInPlace(SortedChildren(s)[i].value) {
        assert s[i] in fields;
      }
    }
  }

  lemma {:induction false} EnumeratedValid(v: Json)
    requires Valid(v)
    ensures Valid(Enumerated(v))
  {
    hide EnumerationOrder;
    match v
    case Arr(items) =>
      forall i | 0 <= i < |items| ensures Valid(Enumerated(items[i])) { EnumeratedValid(items[i]); }
    case Obj(fields) =>
      forall i | 0 <= i < |fields| ensures Valid(Enumerated(fields[i].value)) { EnumeratedValid(fields[i].value); }
      OrderValid(EnumeratedChildren(fields));
    case _ =>
  }

  lemma OrderValid(s: seq<Field>)
    requires Valid(Obj(s))
    ensures Valid(Obj(EnumerationOrder(s)))
  {
    hide IsIndex, IndexRank, Sort, ValidText;
    var r, a := EnumerationOrder(s), Sort(Indices(s), IndexRank);
    forall i | 0 <= i < |r| ensures ValidText(r[i].key) && Valid(r[i].value) {
      if i < |a| { assert r[i] == a[i]; assert a[i] in Indices(s); } else { assert r[i] in Named(s); }
      assert r[i] in s;
    }
    OrderDistinct(s);
  }

  lemma {:induction false} NamedDistinct(s: seq<Field>)
    requires Distinct(s, KeyOf)
    ensures Distinct(Named(s), KeyOf)
  {
    hide IsIndex;
    if s != [] {
      var p := s[..|s| - 1];
      NamedDistinct(p);
      var r := Named(s);
      forall i, j | 0 <= i < j < |r| ensures KeyOf(r[i]) != KeyOf(r[j]) {
        if j == |Named(p)| { assert Named(p)[i] in p; }
      }
    }
  }

  lemma OrderDistinct(s: seq<Field>)
    requires Distinct(s, KeyOf)
    ensures Distinct(EnumerationOrder(s), KeyOf)
  {
    hide IsIndex, DecimalValue, Less, Sort;
    var a, b := Sort(Indices(s), IndexRank), Named(s);
    NamedDistinct(s);
    IndicesDistinct(s);
    SortAscends(Indices(s), IndexRank);
    forall i, j | 0 <= i < j < |a| ensures KeyOf(a[i]) != KeyOf(a[j]) {
      LessTotal(IndexRank(a[i]), IndexRank(a[j]));
    }
    forall i, j | 0 <= i < |a| && 0 <= j < |b| ensures KeyOf(a[i]) != KeyOf(b[j]) {
      assert a[i] in Indices(s) && b[j] in b;
    }
  }

  /** The two canonicalisers print the same text exactly when rebuilding keeps sorted order. */
  lemma CanonicalisersAgree(v: Json)
    requires Valid(v)
    ensures Canonical(v) == RebuiltText(v) <==> KeepsSortedOrder(v)
  {
    CanonicalPrintsSortedTree(v);
    SortTreeValid(v);
    EnumeratedValid(SortTree(v));
    PrintInjective(SortTree(v), Rebuilt(v));
    EnumeratedFixed(SortTree(v));
    SortedKeepsOrder(v);
  }

  /** Ordinary keys: neither an array index nor `__proto__`, at any depth. */
  ghost predicate OrdinaryKeys(v: Json) {
    match v
    case Arr(items) => forall i :: 0 <= i < |items| ==> OrdinaryKeys(items[i])
    case Obj(fields) =>
      forall i :: 0 <= i < |fields| ==>
        !IsIndex(fields[i].key) && fields[i].key != PROTO && OrdinaryKeys(fields[i].value)
    case _ => true
  }

  lemma {:induction false} OrdinaryKeysKeepOrder(v: Json)
    requires OrdinaryKeys(v)
    ensures KeepsSortedOrder(v)
  {
    hide IsIndex;
    match v
    case Arr(items) =>
      forall i | 0 <= i < |items| ensures KeepsSortedOrder(items[i]) { OrdinaryKeysKeepOrder(items[i]); }
    case Obj(fields) =>
      forall i | 0 <= i < |fields| ensures KeepsSortedOrder(fields[i].value) {
        OrdinaryKeysKeepOrder(fields[i].value);
      }
      var s := Sort(fields, KeyOf);
      forall i | 0 <= i < |s| ensures !IsIndex(s[i].key) && s[i].key != PROTO { assert s[i] in fields; }
    case _ =>
  }

  /** {"10": null, "9": null}: sorted as text 10 comes first, rebuilt it prints 9 first. */
  lemma IndexKeysDisagree()
    ensures var v := Obj([Field([0x39], Null), Field([0x31, 0x30], Null)]);
            Valid(v) && Canonical(v) != RebuiltText(v)
  {
    hide IsIndex, DecimalValue, Sort, Less, Canonical, RebuiltText;
    var nine, ten := Field([0x39], Null), Field([0x31, 0x30], Null);
    var v := Obj([nine, ten]);
    var s := Sort(v.fields, KeyOf);
    NineAndTen();
    assert v.fields[0] == nine && v.fields[1] == ten && |nine.key| != |ten.key|;
    TextOrder(nine, ten);
    assert s[0] == ten && s[1] == nine;
    CanonicalisersAgree(v);
  }

  /** {"__proto__": null}: rebuilt it is the empty object and prints as such. */
  lemma ProtoLost()
    ensures var v := Obj([Field(PROTO, Null)]);
            Valid(v) && Valid(Obj([])) && RebuiltText(v) == RebuiltText(Obj([])) && Canonical(v) != Canonical(Obj([]))
  {
    hide RebuiltText, Canonical, DropProto, SameValue;
    var v, w := Obj([Field(PROTO, Null)]), Obj([]);
    ProtoDropped();
    NothingSame();
    RebuiltTextInjective(v, w);
    CanonicalInjective(v, w);
  }

  lemma ProtoDropped()
    ensures DropProto(Obj([Field(PROTO, Null)])) == Obj([]) == DropProto(Obj([]))
  {
    var m := [Field(PROTO, Null)];
    assert WithoutProto(m) == [] by { assert m[..0] == []; }
    assert DroppedChildren(m) == m;
    assert WithoutProto([]) == [] && DroppedChildren([]) == [];
  }

  lemma NothingSame()
    ensures SameValue(Obj([]), Obj([])) && !SameValue(Obj([Field(PROTO, Null)]), Obj([]))
  {
    var v := Obj([Field(PROTO, Null)]);
    assert !HasKey(Obj([]).fields, v.fields[0].key);
  }

  lemma NineAndTen()
    ensures DecimalValue([0x39]) == 9 && DecimalValue([0x31, 0x30]) == 10 && IsIndex([0x39])
  {
    var nine, ten := [0x39], [0x31, 0x30];
    assert nine[..0] == [] && ten[..1] == [0x31] && ten[..1][..0] == [];
  }

  lemma TextOrder(nine: Field, ten: Field)
    requires nine.key == [0x39] && ten.key == [0x31, 0x30]
    ensures Sort([nine, ten], KeyOf) == [ten, nine]
  {
    hide Sort;
    var s := [nine, ten];
    assert Distinct(s, KeyOf) by { assert |nine.key| != |ten.key|; }
    SortAscends(s, KeyOf);
    assert Less(KeyOf(ten), KeyOf(nine));
    AscendingUnique(Sort(s, KeyOf), [ten, nine], KeyOf);
  }

  // ---------------------------------------------------------------------------------------
  // What `canonicalJson` distinguishes
  // ---------------------------------------------------------------------------------------

  function WithoutProto(fields: seq<Field>): (r: seq<Field>)
    ensures forall f :: f in r <==> f in fields && f.key != PROTO
  {
    if fields == [] then [] else
      var last := fields[|fields| - 1];
      assert fields == fields[..|fields| - 1] + [last];
      WithoutProto(fields[..|fields| - 1]) + if last.key != PROTO then [last] else []
  }

  /** The value with every `__proto__` property removed, at every depth. */
  function DropProto(v: Json): Json {
    match v
    case Arr(items) => Arr(seq(|items|, i requires 0 <= i < |items| => DropProto(items[i])))
    case Obj(fields) =>
      Obj(WithoutProto(seq(|fields|, i requires 0 <= i < |fields| =>
                             Field(fields[i].key, DropProto(fields[i].value)))))
    case _ => v
  }

  function DroppedChildren(fields: seq<Field>): seq<Field> {
    seq(|fields|, i requires 0 <= i < |fields| => Field(fields[i].key, DropProto(fields[i].value)))
  }

  lemma {:induction false} WithoutProtoDistinct(s: seq<Field>)
    requires Distinct(s, KeyOf)
    ensures Distinct(WithoutProto(s), KeyOf)
  {
    if s != [] {
      var p := s[..|s| - 1];
      WithoutProtoDistinct(p);
      var r := WithoutProto(s);
      forall i, j | 0 <= i < j < |r| ensures KeyOf(r[i]) != KeyOf(r[j]) {
        if j == |WithoutProto(p)| { assert WithoutProto(p)[i] in p; }
      }
    }
  }

  lemma {:induction false} DropProtoValid(v: Json)
    requires Valid(v)
    ensures Valid(DropProto(v))
  {
    hide ValidText;
    match v
    case Arr(items) =>
      forall i | 0 <= i < |items| ensures Valid(DropProto(items[i])) { DropProtoValid(items[i]); }
    case Obj(fields) =>
      var m := DroppedChildren(fields);
      forall i | 0 <= i < |fields| ensures ValidText(m[i].key) && Valid(m[i].value) { DropProtoValid(fields[i].value); }
      WithoutProtoDistinct(m);
      var r := WithoutProto(m);
      forall i | 0 <= i < |r| ensures ValidText(r[i].key) && Valid(r[i].value) { assert r[i] in m; }
      assert DropProto(v).fields == r;
    case _ =>
  }

  /** Enumeration loses `__proto__` and nothing else. */
  lemma EnumerationMembers(s: seq<Field>)
    ensures forall f :: f in EnumerationOrder(s) <==> f in s && f.key != PROTO
  {
  }

  /** Sorting what was rebuilt gives the sorted tree without `__proto__`. */
  lemma {:induction false} RebuiltSorts(v: Json)
    requires Valid(v)
    ensures SortTree(Rebuilt(v)) == SortTree(DropProto(v))
  {
    hide EnumerationOrder, Sort, Less;
    match v
    case Arr(items) =>
      forall i | 0 <= i < |items| ensures SortTree(Rebuilt(items[i])) == SortTree(DropProto(items[i])) {
        RebuiltSorts(items[i]);
      }
      assert SortTree(Rebuilt(v)).items == SortTree(DropProto(v)).items;
    case Obj(fields) =>
      forall i | 0 <= i < |fields| ensures SortTree(Rebuilt(fields[i].value)) == SortTree(DropProto(fields[i].value)) {
        RebuiltSorts(fields[i].value);
      }
      RebuiltObjectSorts(v);
    case _ =>
  }

  lemma RebuiltObjectSorts(v: Json)
    requires v.Obj? && Valid(v)
    requires forall i :: 0 <= i < |v.fields| ==>
               SortTree(Rebuilt(v.fields[i].value)) == SortTree(DropProto(v.fields[i].value))
    ensures SortTree(Rebuilt(v)) == SortTree(DropProto(v))
  {
    hide EnumerationOrder, Sort, Less, SortTree, Enumerated, ValidText;
    var m := EnumeratedChildren(SortedChildren(Sort(v.fields, KeyOf)));
    var rebuilt, dropped := EnumerationOrder(m), WithoutProto(DroppedChildren(v.fields));
    RebuiltObject(v);
    SortValidFields(v.fields);
    OrderDistinct(m);
    WithoutProtoDistinct(DroppedChildren(v.fields));
    SameMembers(v.fields);
    SortOrderIndependent(SortedChildren(rebuilt), SortedChildren(dropped), KeyOf);
    SortTreeFields(Obj(rebuilt));
    SortTreeFields(DropProto(v));
  }

  lemma SameMembers(fields: seq<Field>)
    requires forall i :: 0 <= i < |fields| ==>
               SortTree(Rebuilt(fields[i].value)) == SortTree(DropProto(fields[i].value))
    ensures SameElements(SortedChildren(EnumerationOrder(EnumeratedChildren(SortedChildren(Sort(fields, KeyOf))))),
                         SortedChildren(WithoutProto(DroppedChildren(fields))))
  {
    hide EnumerationOrder, Sort, SortTree, Enumerated, DropProto, WithoutProto, SortedChildren;
    var a := SortedChildren(EnumerationOrder(EnumeratedChildren(SortedChildren(Sort(fields, KeyOf)))));
    var b := SortedChildren(WithoutProto(DroppedChildren(fields)));
    forall x ensures x in a <==> x in b {
      RebuiltMembers(fields, x);
      DroppedMembers(fields, x);
    }
  }

  /** What the sorted rebuilt children are, field by field. */
  lemma RebuiltMembers(fields: seq<Field>, x: Field)
    ensures x in SortedChildren(EnumerationOrder(EnumeratedChildren(SortedChildren(Sort(fields, KeyOf))))) <==>
            exists f :: f in fields && f.key != PROTO && x == Field(f.key, SortTree(Rebuilt(f.value)))
  {
    hide EnumerationOrder, Sort, SortTree, Enumerated;
    var s := Sort(fields, KeyOf);
    var m := EnumeratedChildren(SortedChildren(s));
    EnumerationMembers(m);
    if x in SortedChildren(EnumerationOrder(m)) {
      var i :| 0 <= i < |EnumerationOrder(m)| && x == SortedChildren(EnumerationOrder(m))[i];
      assert EnumerationOrder(m)[i] in m;
      var k :| 0 <= k < |s| && m[k] == EnumerationOrder(m)[i];
      assert s[k] in fields;
    }
    if f :| f in fields && f.key != PROTO && x == Field(f.key, SortTree(Rebuilt(f.value))) {
      assert f in s;
      var k :| 0 <= k < |s| && s[k] == f;
      assert m[k] in EnumerationOrder(m);
      var i :| 0 <= i < |EnumerationOrder(m)| && EnumerationOrder(m)[i] == m[k];
      assert SortedChildren(EnumerationOrder(m))[i] == x;
    }
  }

  lemma DroppedMembers(fields: seq<Field>, x: Field)
    ensures x in SortedChildren(WithoutProto(DroppedChildren(fields))) <==>
            exists f :: f in fields && f.key != PROTO && x == Field(f.key, SortTree(DropProto(f.value)))
  {
    hide SortTree, DropProto;
    var m := DroppedChildren(fields);
    var d := WithoutProto(m);
    if x in SortedChildren(d) {
      var i :| 0 <= i < |d| && x == SortedChildren(d)[i];
      assert d[i] in m;
      var k :| 0 <= k < |m| && m[k] == d[i];
      assert fields[k] in fields;
    }
    if f :| f in fields && f.key != PROTO && x == Field(f.key, SortTree(DropProto(f.value))) {
      var k :| 0 <= k < |fields| && fields[k] == f;
      assert m[k] in d;
      var i :| 0 <= i < |d| && d[i] == m[k];
      assert SortedChildren(d)[i] == x;
    }
  }

  lemma SortTreeFields(v: Json)
    requires v.Obj?
    ensures SortTree(v) == Obj(Sort(SortedChildren(v.fields), KeyOf))
  {
  }

  lemma {:induction false} NamedAscends(s: seq<Field>)
    requires Ascending(s, KeyOf)
    ensures Ascending(Named(s), KeyOf)
  {
    hide IsIndex, Less;
    if s != [] {
      var p := s[..|s| - 1];
      NamedAscends(p);
      var r := Named(s);
      forall i, j | 0 <= i < j < |r| ensures Less(KeyOf(r[i]), KeyOf(r[j])) {
        if j == |Named(p)| {
          assert Named(p)[i] in p;
          var k :| 0 <= k < |p| && p[k] == Named(p)[i];
          assert s[k] == p[k];
        }
      }
    }
  }

  /** Sorted lists that differ at most in a `__proto__` entry enumerate alike. */
  lemma SameEnumeration(a: seq<Field>, b: seq<Field>)
    requires Ascending(a, KeyOf) && Ascending(b, KeyOf)
    requires forall f :: f in a && f.key != PROTO ==> f in b
    requires forall f :: f in b && f.key != PROTO ==> f in a
    ensures EnumerationOrder(a) == EnumerationOrder(b)
  {
    hide IsIndex, IndexRank, Sort;
    ProtoNotIndex();
    AscendingDistinct(a);
    AscendingDistinct(b);
    IndicesDistinct(a);
    IndicesDistinct(b);
    SortOrderIndependent(Indices(a), Indices(b), IndexRank);
    NamedAscends(a);
    NamedAscends(b);
    AscendingUnique(Named(a), Named(b), KeyOf);
  }

  lemma AscendingDistinct(s: seq<Field>)
    requires Ascending(s, KeyOf)
    ensures Distinct(s, KeyOf)
  {
    forall i, j | 0 <= i < j < |s| ensures KeyOf(s[i]) != KeyOf(s[j]) { LessTotal(KeyOf(s[i]), KeyOf(s[j])); }
  }

  /** Every object's fields are in ascending key order. */
  ghost predicate FullySorted(v: Json) {
    match v
    case Arr(items) => forall i :: 0 <= i < |items| ==> FullySorted(items[i])
    case Obj(fields) => Ascending(fields, KeyOf) && forall i :: 0 <= i < |fields| ==> FullySorted(fields[i].value)
    case _ => true
  }

  lemma {:induction false} SortTreeSorts(v: Json)
    requires Valid(v)
    ensures FullySorted(SortTree(v))
  {
    hide Sort, Less, ValidText;
    match v
    case Arr(items) =>
      forall i | 0 <= i < |items| ensures FullySorted(SortTree(items[i])) { SortTreeSorts(items[i]); }
    case Obj(fields) =>
      forall i | 0 <= i < |fields| ensures FullySorted(SortTree(fields[i].value)) { SortTreeSorts(fields[i].value); }
      var children := SortedChildren(fields);
      SortTreeFields(v);
      SortAscends(children, KeyOf);
      forall f | f in SortTree(v).fields ensures FullySorted(f.value) { assert f in children; }
    case _ =>
  }

  lemma {:induction false} RebuildAgain(t: Json)
    requires Valid(t) && FullySorted(t)
    ensures Enumerated(SortTree(Enumerated(t))) == Enumerated(t)
  {
    hide EnumerationOrder, Sort, Less, ValidText;
    match t
    case Arr(items) =>
      forall i | 0 <= i < |items| ensures Enumerated(SortTree(Enumerated(items[i]))) == Enumerated(items[i]) {
        RebuildAgain(items[i]);
      }
      assert Enumerated(SortTree(Enumerated(t))).items == Enumerated(t).items;
    case Obj(fields) =>
      forall i | 0 <= i < |fields|
        ensures Enumerated(SortTree(Enumerated(fields[i].value))) == Enumerated(fields[i].value)
      {
        RebuildAgain(fields[i].value);
      }
      RebuildObjectAgain(fields);
      EnumeratedFields(t);
      SortTreeFields(Enumerated(t));
      EnumeratedFields(SortTree(Enumerated(t)));
    case _ =>
  }

  lemma EnumeratedFields(v: Json)
    requires v.Obj?
    ensures Enumerated(v) == Obj(EnumerationOrder(EnumeratedChildren(v.fields)))
  {
  }

  /** Rebuilding a second time, and what there is to rebuild then. */
  function Again(r: seq<Field>): seq<Field> { EnumeratedChildren(Sort(SortedChildren(r), KeyOf)) }

  ghost predicate FixedChildren(fields: seq<Field>) {
    forall i :: 0 <= i < |fields| ==>
      Enumerated(SortTree(Enumerated(fields[i].value))) == Enumerated(fields[i].value)
  }

  lemma KeptAgain(fields: seq<Field>, f: Field)
    requires FixedChildren(fields) && f in EnumeratedChildren(fields) && f.key != PROTO
    ensures f in Again(EnumerationOrder(EnumeratedChildren(fields)))
  {
    hide EnumerationOrder, Sort, SortTree, Enumerated;
    var m := EnumeratedChildren(fields);
    var r := EnumerationOrder(m);
    var c := Sort(SortedChildren(r), KeyOf);
    EnumerationMembers(m);
    var n :| 0 <= n < |m| && m[n] == f;
    assert f in r;
    var i :| 0 <= i < |r| && r[i] == f;
    assert SortedChildren(r)[i] in c;
    var k :| 0 <= k < |c| && c[k] == SortedChildren(r)[i];
    assert EnumeratedChildren(c)[k] == f;
  }

  lemma NothingNewAgain(fields: seq<Field>, f: Field)
    requires FixedChildren(fields) && f in Again(EnumerationOrder(EnumeratedChildren(fields)))
    ensures f in EnumeratedChildren(fields)
  {
    hide EnumerationOrder, Sort, SortTree, Enumerated;
    var m := EnumeratedChildren(fields);
    var r := EnumerationOrder(m);
    var c := Sort(SortedChildren(r), KeyOf);
    EnumerationMembers(m);
    var k :| 0 <= k < |c| && EnumeratedChildren(c)[k] == f;
    assert c[k] in SortedChildren(r);
    var i :| 0 <= i < |r| && SortedChildren(r)[i] == c[k];
    assert r[i] in m;
    var n :| 0 <= n < |m| && m[n] == r[i];
    assert f == m[n];
  }

  lemma RebuildObjectAgain(fields: seq<Field>)
    requires Ascending(fields, KeyOf) && FixedChildren(fields)
    ensures var r := EnumerationOrder(EnumeratedChildren(fields)); EnumerationOrder(Again(r)) == r
  {
    hide EnumerationOrder, Sort, Less, SortTree, Enumerated, FixedChildren;
    var m := EnumeratedChildren(fields);
    var r := EnumerationOrder(m);
    AscendingDistinct(m);
    OrderDistinct(m);
    SortAscends(SortedChildren(r), KeyOf);
    forall f | f in m && f.key != PROTO ensures f in Again(r) { KeptAgain(fields, f); }
    forall f | f in Again(r) && f.key != PROTO ensures f in m { NothingNewAgain(fields, f); }
    SameEnumeration(Again(r), m);
  }

  /** `sortKeys` is idempotent. */
  lemma RebuiltIdempotent(v: Json)
    requires Valid(v)
    ensures Rebuilt(Rebuilt(v)) == Rebuilt(v)
  {
    SortTreeValid(v);
    SortTreeSorts(v);
    RebuildAgain(SortTree(v));
  }

  /**
   `canonicalJson` prints two values alike exactly when, `__proto__` properties aside, they
   differ only in key order.
   */
  lemma RebuiltTextInjective(v: Json, w: Json)
    requires Valid(v) && Valid(w)
    ensures RebuiltText(v) == RebuiltText(w) <==> SameValue(DropProto(v), DropProto(w))
  {
    SortTreeValid(v);
    SortTreeValid(w);
    EnumeratedValid(SortTree(v));
    EnumeratedValid(SortTree(w));
    PrintInjective(Rebuilt(v), Rebuilt(w));
    RebuiltSorts(v);
    RebuiltSorts(w);
    RebuiltIdempotent(v);
    RebuiltIdempotent(w);
    DropProtoValid(v);
    DropProtoValid(w);
    if SameValue(DropProto(v), DropProto(w)) { SameValueSortsAlike(DropProto(v), DropProto(w)); }
    if SortTree(DropProto(v)) == SortTree(DropProto(w)) { SortsAlikeSameValue(DropProto(v), DropProto(w)); }
  }
}
