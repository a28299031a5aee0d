/**
 Lexicographic order on sequences of numbers, and sorting by such a key.

 The scripts sort object keys by UTF-16 code units and chart paths by bytes; both are this
 order. `Array.prototype.sort` is modelled by insertion sort: on distinct keys every sorting
 algorithm returns the same list, which is what `AscendingUnique` says.
 */
module Ordering {

  predicate Less(a: seq<int>, b: seq<int>) {
    b != [] && (a == [] || a[0] < b[0] || (a[0] == b[0] && Less(a[1..], b[1..])))
  }

  /** What the order is: at the first difference the smaller unit comes first, and a prefix before its extensions. */
  lemma {:induction false} LessIsLexicographic(a: seq<int>, b: seq<int>)
    ensures Less(a, b) <==> exists k :: 0 <= k <= |a| && k < |b| && a[..k] == b[..k] && (k == |a| || a[k] < b[k])
  {
    if a != [] && b != [] && a[0] == b[0] {
      LessIsLexicographic(a[1..], b[1..]);
      if k :| 0 <= k <= |a[1..]| && k < |b[1..]| && a[1..][..k] == b[1..][..k] && (k == |a[1..]| || a[1..][k] < b[1..][k]) {
        assert a[..k + 1] == [a[0]] + a[1..][..k] == b[..k + 1];
        assert k + 1 == |a| || a[k + 1] < b[k + 1];
      }
      if k :| 0 <= k <= |a| && k < |b| && a[..k] == b[..k] && (k == |a| || a[k] < b[k]) {
        assert k > 0;
        assert a[1..][..k - 1] == a[..k][1..] == b[..k][1..] == b[1..][..k - 1];
      }
    } else {
      assert a[..0] == b[..0];
      if k :| 0 <= k <= |a| && k < |b| && a[..k] == b[..k] && (k == |a| || a[k] < b[k]) {
        if k > 0 { SameFirst(a, b, k); }
      }
    }
  }

  lemma SameFirst(a: seq<int>, b: seq<int>, k: nat)
    requires 0 < k <= |a| && k <= |b| && a[..k] == b[..k]
    ensures a[0] == b[0]
  {
    assert a[0] == a[..k][0] && b[0] == b[..k][0];
  }

  lemma LessTotal(a: seq<int>, b: seq<int>)
    ensures Less(a, b) || a == b || Less(b, a)
    ensures !(Less(a, b) && Less(b, a))
    ensures !Less(a, a)
  {
  }

  lemma LessTrans(a: seq<int>, b: seq<int>, c: seq<int>)
    requires Less(a, b) && Less(b, c)
    ensures Less(a, c)
  {
  }

  ghost predicate Distinct<T>(s: seq<T>, key: T -> seq<int>) {
    forall i, j :: 0 <= i < j < |s| ==> key(s[i]) != key(s[j])
  }

  ghost predicate Ascending<T>(s: seq<T>, key: T -> seq<int>) {
    forall i, j :: 0 <= i < j < |s| ==> Less(key(s[i]), key(s[j]))
  }

  ghost predicate SameElements<T>(s: seq<T>, t: seq<T>) {
    (forall x :: x in s ==> x in t) && (forall x :: x in t ==> x in s)
  }

  function Insert<T>(x: T, s: seq<T>, key: T -> seq<int>): seq<T> {
    if s == [] then [x]
    else if Less(key(s[0]), key(x)) then [s[0]] + Insert(x, s[1..], key)
    else [x] + s
  }

  function Sort<T>(s: seq<T>, key: T -> seq<int>): (r: seq<T>)
    ensures multiset(r) == multiset(s)
    ensures |r| == |s| && SameElements(r, s)
  {
    if s == [] then [] else
      InsertPermutes(s[0], Sort(s[1..], key), key);
      assert s == [s[0]] + s[1..];
      var r := Insert(s[0], Sort(s[1..], key), key);
      PermutationMembers(r, s);
      r
  }

  lemma PermutationMembers<T>(s: seq<T>, t: seq<T>)
    requires multiset(s) == multiset(t)
    ensures |s| == |t| && SameElements(s, t)
  {
    assert |multiset(s)| == |multiset(t)|;
    forall x | x in s ensures x in t { assert x in multiset(s); }
    forall x | x in t ensures x in s { assert x in multiset(t); }
  }

  lemma InsertPermutes<T>(x: T, s: seq<T>, key: T -> seq<int>)
    ensures multiset(Insert(x, s, key)) == multiset{x} + multiset(s)
  {
    if s != [] {
      assert s == [s[0]] + s[1..];
    }
  }

  lemma InsertAscends<T>(x: T, s: seq<T>, key: T -> seq<int>)
    requires Ascending(s, key)
    requires forall y :: y in s ==> key(y) != key(x)
    ensures Ascending(Insert(x, s, key), key)
  {
    if s != [] {
      LessTotal(key(s[0]), key(x));
      if Less(key(s[0]), key(x)) {
        InsertAscends(x, s[1..], key);
        InsertPermutes(x, s[1..], key);
        var r := Insert(x, s[1..], key);
        forall j | 0 <= j < |r| ensures Less(key(s[0]), key(r[j])) {
          assert r[j] in multiset(r);
          assert r[j] == x || r[j] in s[1..];
        }
      } else {
        forall j | 0 <= j < |s| ensures Less(key(x), key(s[j])) {
          if j > 0 { LessTrans(key(x), key(s[0]), key(s[j])); }
        }
      }
    }
  }

  /** Sorting by pairwise different keys gives a strictly ascending list. */
  lemma {:induction false} SortAscends<T>(s: seq<T>, key: T -> seq<int>)
    requires Distinct(s, key)
    ensures Ascending(Sort(s, key), key)
  {
    if s != [] {
      SortAscends(s[1..], key);
      InsertAscends(s[0], Sort(s[1..], key), key);
    }
  }

  /** A strictly ascending list is determined by its elements alone. */
  lemma {:induction false} AscendingUnique<T>(s: seq<T>, t: seq<T>, key: T -> seq<int>)
    requires Ascending(s, key) && Ascending(t, key) && SameElements(s, t)
    ensures s == t
  {
    if s != [] { assert s[0] in t; }
    if t != [] { assert t[0] in s; }
    if s != [] && t != [] {
      LessTotal(key(s[0]), key(t[0]));
      assert s[0] == t[0];
      assert SameElements(s[1..], t[1..]) by {
        forall x | x in s[1..] ensures x in t[1..] { LessTotal(key(x), key(s[0])); assert x in t; }
        forall x | x in t[1..] ensures x in s[1..] { LessTotal(key(x), key(s[0])); assert x in s; }
      }
      AscendingUnique(s[1..], t[1..], key);
      assert s == [s[0]] + s[1..] && t == [t[0]] + t[1..];
    }
  }

  /** Lists with the same elements sort alike: the order of the input does not matter. */
  lemma SortOrderIndependent<T>(s: seq<T>, t: seq<T>, key: T -> seq<int>)
    requires Distinct(s, key) && Distinct(t, key) && SameElements(s, t)
    ensures Sort(s, key) == Sort(t, key)
  {
    SortAscends(s, key);
    SortAscends(t, key);
    AscendingUnique(Sort(s, key), Sort(t, key), key);
  }

  lemma SortOfAscending<T>(s: seq<T>, key: T -> seq<int>)
    requires Ascending(s, key)
    ensures Sort(s, key) == s
  {
    assert Distinct(s, key) by {
      forall i, j | 0 <= i < j < |s| ensures key(s[i]) != key(s[j]) {
        LessTotal(key(s[i]), key(s[j]));
      }
    }
    SortAscends(s, key);
    AscendingUnique(Sort(s, key), s, key);
  }

  lemma InsertLast<T>(s: seq<T>, x: T, key: T -> seq<int>)
    requires Distinct(s, key) && Distinct(s + [x], key)
    ensures Insert(x, Sort(s, key), key) == Sort(s + [x], key)
  {
    var a, t := Sort(s, key), s + [x];
    SortAscends(s, key);
    SortAscends(t, key);
    forall y | y in a ensures key(y) != key(x) {
      assert y in s;
      var i :| 0 <= i < |s| && s[i] == y;
      assert t[i] == y && t[|s|] == x;
    }
    InsertAscends(x, a, key);
    InsertPermutes(x, a, key);
    PermutationMembers(Insert(x, a, key), [x] + a);
    assert SameElements([x] + a, t);
    AscendingUnique(Insert(x, a, key), Sort(t, key), key);
  }
}
