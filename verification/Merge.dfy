/** The order in which the merge context releases entries, and the context itself. */
module Merge {
  import opened Entries

  /** `merge_entry::operator<`: what the priority queue keeps below what. */
  predicate Less(a: Entry, b: Entry) {
    if a.key == b.key then a.val < b.val else a.key > b.key
  }

  /** No later entry is above an earlier one: keys ascend and, for one key, values descend. */
  ghost predicate InOrder(es: seq<Entry>) {
    forall i, j :: 0 <= i < j < |es| ==> !Less(es[i], es[j])
  }

  /** What `InOrder` means for keys and values. */
  lemma InOrderMeans(es: seq<Entry>, i: nat, j: nat)
    requires InOrder(es) && i < j < |es|
    ensures es[i].key < es[j].key || (es[i].key == es[j].key && es[i].val >= es[j].val)
  {
    assert !Less(es[i], es[j]);
  }

  // ---------- the one ordered arrangement ----------

  function Place(e: Entry, es: seq<Entry>): (r: seq<Entry>)
    ensures multiset(r) == multiset(es) + multiset{e}
  {
    if es == [] then [e]
    else if !Less(e, es[0]) then [e] + es
    else
      assert es == [es[0]] + es[1..];
      [es[0]] + Place(e, es[1..])
  }

  /** The entries in the order in which a drained context releases them. */
  function Arranged(es: seq<Entry>): (r: seq<Entry>)
    ensures multiset(r) == multiset(es)
  {
    if es == [] then []
    else
      assert es == [es[0]] + es[1..];
      Place(es[0], Arranged(es[1..]))
  }

  lemma SameLength(a: seq<Entry>, b: seq<Entry>)
    requires multiset(a) == multiset(b)
    ensures |a| == |b|
  {
    assert |multiset(a)| == |a| && |multiset(b)| == |b|;
  }

  lemma {:induction false} PlaceKeepsOrder(e: Entry, es: seq<Entry>)
    requires InOrder(es)
    ensures InOrder(Place(e, es))
  {
    if es != [] && Less(e, es[0]) {
      PlaceKeepsOrder(e, es[1..]);
      var rest := Place(e, es[1..]);
      forall j | 0 <= j < |rest|
        ensures !Less(es[0], rest[j])
      {
        assert rest[j] in multiset(rest);
        assert rest[j] == e || rest[j] in es[1..];
      }
    }
  }

  lemma {:induction false} ArrangedIsInOrder(es: seq<Entry>)
    ensures InOrder(Arranged(es))
  {
    if es != [] {
      ArrangedIsInOrder(es[1..]);
      PlaceKeepsOrder(es[0], Arranged(es[1..]));
    }
  }

  lemma HeadIsTop(a: seq<Entry>, e: Entry)
    requires InOrder(a) && e in multiset(a)
    ensures a != [] && !Less(a[0], e)
  {
    var i :| 0 <= i < |a| && a[i] == e;
    assert !Less(a[0], a[0]);
  }

  lemma TailOf(a: seq<Entry>)
    requires a != []
    ensures multiset(a) == multiset{a[0]} + multiset(a[1..])
  {
    assert a == [a[0]] + a[1..];
  }

  /** There is only one way to put given entries in order. */
  lemma {:induction false} OrderIsUnique(a: seq<Entry>, b: seq<Entry>)
    requires InOrder(a) && InOrder(b) && multiset(a) == multiset(b)
    ensures a == b
    decreases |a|
  {
    SameLength(a, b);
    if a != [] {
      TailOf(a);
      TailOf(b);
      HeadIsTop(a, b[0]);
      HeadIsTop(b, a[0]);
      assert a[0] == b[0];
      assert multiset(a[1..]) == multiset(a) - multiset{a[0]};
      OrderIsUnique(a[1..], b[1..]);
      assert a == [a[0]] + a[1..] && b == [b[0]] + b[1..];
    }
  }

  // ---------- the context ----------

  /** Some entry of a non-empty set has no entry above it. */
  lemma {:induction false} Top(s: set<Entry>) returns (t: Entry)
    requires s != {}
    ensures t in s && forall e :: e in s ==> !Less(t, e)
    decreases |s|
  {
    var x :| x in s;
    assert forall e :: e in s ==> e == x || e in s - {x};
    if s - {x} == {} {
      t := x;
    } else {
      var u := Top(s - {x});
      t := if Less(x, u) then u else x;
    }
  }

  class MergeContext {
    var queue: multiset<Entry>

    constructor ()
      ensures queue == multiset{}
    {
      queue := multiset{};
    }

    method Insert(entries: seq<Entry>)
      modifies this
      ensures queue == old(queue) + multiset(entries)
    {
      var index := 0;
      while index < |entries|
        invariant index <= |entries| && queue == old(queue) + multiset(entries[..index])
      {
        assert entries[..index + 1] == entries[..index] + [entries[index]];
        queue := queue + multiset{entries[index]};
        index := index + 1;
      }
      assert entries[..|entries|] == entries;
    }

    predicate IsEmpty()
      reads this
    {
      queue == multiset{}
    }

    /** Releases an entry that no queued entry is above. */
    method Contextpop1() returns (current: Entry)
      requires !IsEmpty()
      modifies this
      ensures current in old(queue) && queue == old(queue) - multiset{current}
      ensures forall e :: e in old(queue) ==> !Less(current, e)
    {
      ghost var present := set e | e in queue;
      ghost var some :| some in queue;
      assert some in present;
      ghost var top := Top(present);
      current :| current in queue && forall e :: e in queue ==> !Less(current, e);
      queue := queue - multiset{current};
    }
  }
}
