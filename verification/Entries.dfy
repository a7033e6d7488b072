/**
  Key-value entries of the two hash indexes, and what `std::find` and `std::sort` do to a vector of them.
 */
module Entries {

  datatype Option<+T> = None | Some(value: T)

  datatype Entry = Entry(key: nat, val: nat)

  ghost predicate DistinctKeys(es: seq<Entry>) {
    forall i, j :: 0 <= i < j < |es| ==> es[i].key != es[j].key
  }

  /** The entries of a vector as a map; a later entry overrides an earlier one. */
  function ToMap(es: seq<Entry>): map<nat, nat> {
    if es == [] then map[]
    else ToMap(es[..|es| - 1])[es[|es| - 1].key := es[|es| - 1].val]
  }

  lemma {:induction false} MapHoldsOnlyEntries(es: seq<Entry>)
    ensures forall k :: k in ToMap(es) ==> Entry(k, ToMap(es)[k]) in es
    ensures forall e :: e in es ==> e.key in ToMap(es)
  {
    if es != [] {
      MapHoldsOnlyEntries(es[..|es| - 1]);
      assert es == es[..|es| - 1] + [es[|es| - 1]];
    }
  }

  /** `std::find` by key: the position of the first entry with that key, or the length. */
  method FindKey(es: seq<Entry>, key: nat) returns (i: nat)
    ensures i <= |es|
    ensures i < |es| ==> es[i].key == key && key in ToMap(es)
    ensures i == |es| ==> key !in ToMap(es)
    ensures forall j :: 0 <= j < i ==> es[j].key != key
  {
    i := 0;
    while i < |es| && es[i].key != key
      invariant i <= |es|
      invariant forall j :: 0 <= j < i ==> es[j].key != key
    {
      i := i + 1;
    }
    MapHoldsOnlyEntries(es);
    if i < |es| {
      assert es[i] in es;
    }
  }

  lemma MapHasEntry(es: seq<Entry>, i: nat)
    requires DistinctKeys(es) && i < |es|
    ensures es[i].key in ToMap(es) && ToMap(es)[es[i].key] == es[i].val
  {
    MapHoldsOnlyEntries(es);
    assert es[i] in es;
    var k := es[i].key;
    assert Entry(k, ToMap(es)[k]) in es;
  }

  /** With distinct keys the map is determined by which entries occur, not by their order. */
  lemma SameEntriesSameMap(a: seq<Entry>, b: seq<Entry>)
    requires DistinctKeys(a) && DistinctKeys(b)
    requires forall e :: e in a <==> e in b
    ensures ToMap(a) == ToMap(b)
  {
    MapHoldsOnlyEntries(a);
    MapHoldsOnlyEntries(b);
    forall k | k in ToMap(a)
      ensures k in ToMap(b) && ToMap(b)[k] == ToMap(a)[k]
    {
      MapEntryUnique(b, Entry(k, ToMap(a)[k]));
    }
    forall k | k in ToMap(b)
      ensures k in ToMap(a)
    {
      MapEntryUnique(a, Entry(k, ToMap(b)[k]));
    }
  }

  lemma MapEntryUnique(es: seq<Entry>, e: Entry)
    requires DistinctKeys(es) && e in es
    ensures e.key in ToMap(es) && ToMap(es)[e.key] == e.val
  {
    var i :| 0 <= i < |es| && es[i] == e;
    MapHasEntry(es, i);
  }

  lemma MapAfterAppend(es: seq<Entry>, e: Entry)
    requires DistinctKeys(es) && e.key !in ToMap(es)
    ensures DistinctKeys(es + [e])
    ensures ToMap(es + [e]) == ToMap(es)[e.key := e.val]
  {
    assert (es + [e])[..|es|] == es;
    MapHoldsOnlyEntries(es);
    forall i | 0 <= i < |es|
      ensures es[i].key != e.key
    {
      assert es[i] in es;
    }
  }

  lemma {:induction false} MapAfterOverwrite(es: seq<Entry>, i: nat, v: nat)
    requires DistinctKeys(es) && i < |es|
    ensures ToMap(es[i := Entry(es[i].key, v)]) == ToMap(es)[es[i].key := v]
    decreases |es|
  {
    var n := |es| - 1;
    var es' := es[i := Entry(es[i].key, v)];
    if i == n {
      assert es'[..n] == es[..n];
    } else {
      MapAfterOverwrite(es[..n], i, v);
      assert es'[..n] == es[..n][i := Entry(es[i].key, v)];
    }
  }

  lemma KeyNotInFront(es: seq<Entry>)
    requires DistinctKeys(es) && es != []
    ensures es[|es| - 1].key !in ToMap(es[..|es| - 1])
  {
    MapHoldsOnlyEntries(es[..|es| - 1]);
  }

  /** `vector::erase` */
  function Erase(es: seq<Entry>, i: nat): (r: seq<Entry>)
    requires i < |es|
    ensures |r| == |es| - 1
    ensures forall j :: 0 <= j < |r| ==> r[j] == es[if j < i then j else j + 1]
  {
    es[..i] + es[i + 1..]
  }

  lemma EraseKeepsDistinct(es: seq<Entry>, i: nat)
    requires DistinctKeys(es) && i < |es|
    ensures DistinctKeys(Erase(es, i))
  {
  }

  lemma {:induction false} MapAfterErase(es: seq<Entry>, i: nat)
    requires DistinctKeys(es) && i < |es|
    ensures ToMap(Erase(es, i)) == ToMap(es) - {es[i].key}
    decreases |es|
  {
    var n := |es| - 1;
    KeyNotInFront(es);
    if i == n {
      assert Erase(es, i) == es[..n];
    } else {
      MapAfterErase(es[..n], i);
      EraseBeforeLast(es, i);
    }
  }

  lemma EraseBeforeLast(es: seq<Entry>, i: nat)
    requires i < |es| - 1
    ensures var n := |es| - 1; Erase(es, i)[..n - 1] == Erase(es[..n], i) && Erase(es, i)[n - 1] == es[n]
  {
  }

  lemma {:induction false} MapSize(es: seq<Entry>)
    requires DistinctKeys(es)
    ensures |ToMap(es)| == |es|
  {
    if es != [] {
      MapSize(es[..|es| - 1]);
      KeyNotInFront(es);
    }
  }

  lemma SubsetSize<T>(a: set<T>, b: set<T>)
    requires a <= b
    ensures |a| <= |b|
  {
    assert b == a + (b - a);
  }

  // ---------- std::sort by key ----------

  function InsertByKey(e: Entry, es: seq<Entry>): (r: seq<Entry>)
    ensures multiset(r) == multiset(es) + multiset{e}
  {
    if es == [] then [e]
    else if e.key <= es[0].key then [e] + es
    else
      assert es == [es[0]] + es[1..];
      [es[0]] + InsertByKey(e, es[1..])
  }

  /** The entries in ascending key order. */
  function SortByKey(es: seq<Entry>): (r: seq<Entry>)
    ensures multiset(r) == multiset(es)
    ensures |r| == |es|
  {
    if es == [] then []
    else
      assert es == [es[0]] + es[1..];
      var r := InsertByKey(es[0], SortByKey(es[1..]));
      assert |r| == |multiset(r)| && |es| == |multiset(es)|;
      r
  }

  ghost predicate Ascending(es: seq<Entry>) {
    forall i, j :: 0 <= i < j < |es| ==> es[i].key <= es[j].key
  }

  lemma {:induction false} InsertKeepsAscending(e: Entry, es: seq<Entry>)
    requires Ascending(es)
    ensures Ascending(InsertByKey(e, es))
  {
    if es != [] && e.key > es[0].key {
      InsertKeepsAscending(e, es[1..]);
      var rest := InsertByKey(e, es[1..]);
      forall j | 0 <= j < |rest|
        ensures es[0].key <= rest[j].key
      {
        assert rest[j] in multiset(rest);
        assert rest[j] == e || rest[j] in es[1..];
      }
    }
  }

  /** A page is written in key order. */
  lemma {:induction false} SortedByKey(es: seq<Entry>)
    ensures Ascending(SortByKey(es))
  {
    if es != [] {
      SortedByKey(es[1..]);
      InsertKeepsAscending(es[0], SortByKey(es[1..]));
    }
  }

  /** Sorting before a page write does not change what the bucket stores. */
  lemma SortKeepsMap(es: seq<Entry>)
    requires DistinctKeys(es)
    ensures DistinctKeys(SortByKey(es))
    ensures ToMap(SortByKey(es)) == ToMap(es)
  {
    var s := SortByKey(es);
    forall e | true
      ensures e in es <==> e in s
    {
      assert e in es <==> e in multiset(es);
      assert e in s <==> e in multiset(s);
    }
    SameKeysDistinct(es, s);
    SameEntriesSameMap(es, s);
  }

  /** A permutation of entries with distinct keys has distinct keys. */
  lemma SameKeysDistinct(a: seq<Entry>, b: seq<Entry>)
    requires DistinctKeys(a) && multiset(a) == multiset(b)
    ensures DistinctKeys(b)
  {
    forall i, j | 0 <= i < j < |b|
      ensures b[i].key != b[j].key
    {
      assert b[i] in multiset(b) && b[j] in multiset(b);
      assert b[i] in a && b[j] in a;
      if b[i] == b[j] {
        OccursTwice(b, i, j);
        OccursOnce(a, b[i]);
      }
    }
  }

  lemma OccursTwice(es: seq<Entry>, i: nat, j: nat)
    requires i < j < |es| && es[i] == es[j]
    ensures multiset(es)[es[i]] >= 2
  {
    assert es == es[..i] + [es[i]] + es[i + 1..j] + [es[j]] + es[j + 1..];
  }

  lemma {:induction false} OccursOnce(es: seq<Entry>, e: Entry)
    requires DistinctKeys(es)
    ensures multiset(es)[e] <= 1
  {
    if es != [] {
      var front, l := es[..|es| - 1], es[|es| - 1];
      assert es == front + [l];
      OccursOnce(front, e);
      if l == e {
        assert e !in front;
      }
    }
  }
}
