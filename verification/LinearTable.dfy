/** The linear hash table as a class, deletion, and runs on which its operations fail. */
module LinearTable {
  import opened Arithmetic
  import opened Entries
  import opened LinearHash
  import opened LinearInsert

  /** What `std::find` by key finds. */
  function FirstWith(es: seq<Entry>, key: nat): Option<Entry> {
    if es == [] then None else if es[0].key == key then Some(es[0]) else FirstWith(es[1..], key)
  }

  lemma {:induction false} FirstWithAt(es: seq<Entry>, key: nat, i: nat)
    requires i <= |es| && (i < |es| ==> es[i].key == key) && forall j :: 0 <= j < i ==> es[j].key != key
    ensures FirstWith(es, key) == if i < |es| then Some(es[i]) else None
    decreases i
  {
    if i > 0 {
      FirstWithAt(es[1..], key, i - 1);
    }
  }

  function DropFirst(es: seq<Entry>, key: nat): (r: seq<Entry>)
    ensures |r| == if FirstWith(es, key).Some? then |es| - 1 else |es|
  {
    if es == [] then [] else if es[0].key == key then es[1..] else [es[0]] + DropFirst(es[1..], key)
  }

  lemma {:induction false} DropFirstAt(es: seq<Entry>, key: nat, i: nat)
    requires i <= |es| && (i < |es| ==> es[i].key == key) && forall j :: 0 <= j < i ==> es[j].key != key
    ensures DropFirst(es, key) == if i < |es| then Erase(es, i) else es
    decreases i
  {
    if i > 0 {
      DropFirstAt(es[1..], key, i - 1);
      EraseInTail(es, i);
    }
  }

  lemma EraseInTail(es: seq<Entry>, i: nat)
    requires 0 < i <= |es|
    ensures i < |es| ==> Erase(es, i) == [es[0]] + Erase(es[1..], i - 1)
    ensures es == [es[0]] + es[1..]
  {
  }

  lemma {:induction false} DropFirstCount(es: seq<Entry>, key: nat, x: Entry)
    ensures multiset(DropFirst(es, key))[x] + (if FirstWith(es, key) == Some(x) then 1 else 0) == multiset(es)[x]
  {
    if es != [] {
      assert es == [es[0]] + es[1..];
      DropFirstCount(es[1..], key, x);
    }
  }

  /** `LBucket::ValueDelet` on a bucket with entries in memory. */
  function Dropped(b: LBucket, key: nat): LBucket
    requires b.size == |b.bucket|
  {
    b.(bucket := DropFirst(b.bucket, key), size := |DropFirst(b.bucket, key)|)
  }

  lemma DroppedIsWhole(b: LBucket, key: nat, cap: nat)
    requires Whole(b, cap) && b.bucket != []
    ensures Whole(Dropped(b, key), cap)
  {
  }

  lemma ContentSize(b: LBucket, cap: nat)
    requires Whole(b, cap)
    ensures |Content(b)| == b.size
  {
  }

  /** The bucket that `Delete` goes to is in the table, has entries in memory, and if it was split its other half is there. */
  ghost predicate CanDelete(t: Table, key: nat) {
    && Shaped(t) && Address(t, key) < |t.buckets| && Address(t, key) < FLAGS
    && t.buckets[Address(t, key)].bucket != [] && t.buckets[Address(t, key)].size == |t.buckets[Address(t, key)].bucket|
    && (t.flags[Address(t, key)] ==> |t.buckets| == 2 * t.h1)
  }

  ghost function Removed(t: Table, key: nat): Table
    requires CanDelete(t, key)
  {
    var a := Address(t, key);
    t.(buckets := t.buckets[a := Dropped(t.buckets[a], key)])
  }

  ghost function Deleted(t: Table, cap: nat, key: nat): Table
    requires CanDelete(t, key)
  {
    var a, t1 := Address(t, key), Removed(t, key);
    if t.flags[a] && t1.buckets[a].size + t1.buckets[a + t.h1].size <= cap then Merged(t1, cap, a) else t1
  }

  /** Removing takes out just the first entry of the key. */
  lemma RemovedCount(t: Table, key: nat, x: Entry)
    requires CanDelete(t, key)
    ensures Count(Removed(t, key).buckets, x) + (if FirstWith(t.buckets[Address(t, key)].bucket, key) == Some(x) then 1 else 0)
      == Count(t.buckets, x)
  {
    var a := Address(t, key);
    DropFirstCount(t.buckets[a].bucket, key, x);
    CountAfterUpdate(t.buckets, a, Dropped(t.buckets[a], key), x);
  }

  /** The bucket keeps an entry, or has no page, or its old page has no key that belongs there. */
  ghost predicate RemoveSafe(t: Table, key: nat)
    requires CanDelete(t, key)
  {
    var b := t.buckets[Address(t, key)];
    Dropped(b, key).bucket != [] || b.page == None || forall e :: e in b.page.value ==> Address(t, e.key) != Address(t, key)
  }

  /** Removing keeps every entry where `Search` looks, and nothing else there, exactly if it does not empty a bucket over an old page with keys of its own. */
  lemma RemovedGoodExactlyWhen(t: Table, cap: nat, key: nat)
    requires Good(t, cap) && CanDelete(t, key)
    ensures Good(Removed(t, key), cap) <==> RemoveSafe(t, key)
  {
    var t1, a := Removed(t, key), Address(t, key);
    forall k: nat | true
      ensures Address(t1, k) == Address(t, k)
    {
    }
    RemovedGoodAt(t, cap, key);
    forall i | 0 <= i < |t.buckets| && i != a
      ensures GoodAt(t1, cap, i)
    {
      assert GoodAt(t, cap, i);
      GoodAtTransfers(t, t1, cap, i);
    }
  }

  lemma RemovedGoodAt(t: Table, cap: nat, key: nat)
    requires Good(t, cap) && CanDelete(t, key)
    ensures Shaped(Removed(t, key)) && (GoodAt(Removed(t, key), cap, Address(t, key)) <==> RemoveSafe(t, key))
  {
    var t1, a := Removed(t, key), Address(t, key);
    assert GoodAt(t, cap, a);
    DroppedIsWhole(t.buckets[a], key, cap);
    forall e | e in Content(t1.buckets[a])
      ensures Address(t1, e.key) == a
    {
      DropFirstIsPart(t.buckets[a].bucket, key);
    }
    AddressCases(t, key);
  }

  lemma {:induction false} DropFirstIsPart(es: seq<Entry>, key: nat)
    ensures forall e :: e in DropFirst(es, key) ==> e in es
  {
    if es != [] && es[0].key != key {
      DropFirstIsPart(es[1..], key);
    }
  }

  /** The deletion merges the bucket with its other half. */
  ghost predicate Merges(t: Table, cap: nat, key: nat)
    requires CanDelete(t, key)
  {
    var a, t1 := Address(t, key), Removed(t, key);
    t.flags[a] && t1.buckets[a].size + t1.buckets[a + t.h1].size <= cap
  }

  /** The table after the removal, with an emptied bucket's old page forgotten. */
  ghost function Forgotten(t: Table, key: nat): Table
    requires CanDelete(t, key)
  {
    var a, t1 := Address(t, key), Removed(t, key);
    t1.(buckets := t1.buckets[a := t1.buckets[a].(page := None)])
  }

  lemma ForgottenIsGood(t: Table, cap: nat, key: nat)
    requires Good(t, cap) && CanDelete(t, key) && Dropped(t.buckets[Address(t, key)], key).bucket == []
    ensures Good(Forgotten(t, key), cap)
  {
    var t1, a := Forgotten(t, key), Address(t, key);
    assert GoodAt(t, cap, a);
    forall k: nat | true
      ensures Address(t1, k) == Address(t, k)
    {
    }
    AddressCases(t, key);
    forall i | 0 <= i < |t.buckets|
      ensures GoodAt(t1, cap, i)
    {
      if i == a {
        assert Content(t1.buckets[a]) == [];
      } else {
        assert GoodAt(t, cap, i);
        GoodAtTransfers(t, t1, cap, i);
      }
    }
  }

  /** Once entries are put into it, an empty bucket's old page does not matter. */
  lemma {:induction false} PageDoesNotMatter(c: LBucket, es: seq<Entry>, cap: nat)
    requires c.size + |es| <= cap
    ensures var r, f := PutEach(c, es, cap), PutEach(c.(page := None), es, cap);
      && r.bucket == f.bucket && r.size == f.size == c.size + |es|
      && (es != [] && r.size == cap ==> r.page == f.page)
    decreases |es|
  {
    if es != [] {
      PageDoesNotMatter(c, es[..|es| - 1], cap);
    }
  }

  lemma NonEmptyIsGood(t: Table, t1: Table, cap: nat, i: nat)
    requires Shaped(t) && Shaped(t1) && t1.h1 == t.h1 && t1.flags == t.flags && i < |t.buckets| == |t1.buckets|
    requires var c, d := t.buckets[i], t1.buckets[i];
      c.bucket == d.bucket && c.size == d.size > 0 && (d.size >= cap ==> c.page == d.page)
    requires GoodAt(t, cap, i)
    ensures GoodAt(t1, cap, i)
  {
    forall k: nat | true
      ensures Address(t1, k) == Address(t, k)
    {
    }
    assert Content(t1.buckets[i]) == Content(t.buckets[i]);
  }

  lemma MergedOverOldPage(t: Table, cap: nat, key: nat)
    requires Good(t, cap) && CanDelete(t, key) && Merges(t, cap, key) && Dropped(t.buckets[Address(t, key)], key).bucket == []
    requires t.buckets[Address(t, key) + t.h1].bucket != []
    ensures Good(Deleted(t, cap, key), cap)
  {
    var a, r, f := Address(t, key), Removed(t, key), Forgotten(t, key);
    ForgottenIsGood(t, cap, key);
    MergeGoodExactlyWhen(f, cap, a);
    InMemory(t, cap, a + t.h1);
    PageDoesNotMatter(r.buckets[a], r.buckets[a + t.h1].bucket, cap);
    var m, n := Merged(f, cap, a), Merged(r, cap, a);
    NonEmptyIsGood(m, n, cap, a);
    forall i | 0 <= i < |n.buckets| && i != a
      ensures GoodAt(n, cap, i)
    {
      assert GoodAt(m, cap, i);
      GoodAtTransfers(m, n, cap, i);
    }
  }

  lemma MergedUnderOldPage(t: Table, cap: nat, key: nat)
    requires Good(t, cap) && CanDelete(t, key) && Merges(t, cap, key) && !RemoveSafe(t, key)
    requires t.buckets[Address(t, key) + t.h1].bucket == []
    ensures !Good(Deleted(t, cap, key), cap) && !MergeSafe(Removed(t, key), Address(t, key))
  {
    var a, r, n := Address(t, key), Removed(t, key), Deleted(t, cap, key);
    var e :| e in t.buckets[a].page.value && Address(t, e.key) == a;
    AddressCases(t, e.key);
    assert n.buckets[a] == r.buckets[a];
    assert e.key % t.h1 == a && !n.flags[a];
    assert !NoStale(n, a);
    OneBadIsBad(n, cap, a);
  }

  lemma OneBadIsBad(t: Table, cap: nat, i: nat)
    requires Shaped(t) && i < |t.buckets|
    ensures !GoodAt(t, cap, i) ==> !Good(t, cap)
  {
    if Good(t, cap) {
      assert GoodAt(t, cap, i);
    }
  }

  /**
    A deletion keeps every entry where `Search` looks, and nothing else there, exactly if it leaves no empty bucket
    over an old page with keys that belong there, before a merge or after it.
   */
  lemma DeletedGoodExactlyWhen(t: Table, cap: nat, key: nat)
    requires Good(t, cap) && CanDelete(t, key)
    ensures Good(Deleted(t, cap, key), cap) <==>
      if Merges(t, cap, key) then MergeSafe(Removed(t, key), Address(t, key)) else RemoveSafe(t, key)
  {
    RemovedGoodExactlyWhen(t, cap, key);
    if Merges(t, cap, key) {
      if RemoveSafe(t, key) {
        MergeGoodExactlyWhen(Removed(t, key), cap, Address(t, key));
      } else if t.buckets[Address(t, key) + t.h1].bucket != [] {
        MergedOverOldPage(t, cap, key);
      } else {
        MergedUnderOldPage(t, cap, key);
      }
    }
  }

  /** A merge of two buckets that fit together keeps what the upper one has in memory and drops what it has on its page. */
  lemma JoinedCount(t: Table, cap: nat, b: nat, x: Entry)
    requires Halved(t, b) && Whole(t.buckets[b], cap) && Whole(t.buckets[b + t.h1], cap)
    requires t.buckets[b].size + t.buckets[b + t.h1].size <= cap
    ensures Count(Merged(t, cap, b).buckets, x) + multiset(Content(t.buckets[b + t.h1]))[x]
      == Count(t.buckets, x) + multiset(t.buckets[b + t.h1].bucket)[x]
  {
    JoinedBucket(t, cap, b, x);
    MergedBuckets(t, cap, b);
    JoinedCountOf(t.buckets, Merged(t, cap, b).buckets, b + t.h1, b, x);
  }

  lemma JoinedCountOf(bs: seq<LBucket>, joined: seq<LBucket>, i: nat, j: nat, x: Entry)
    requires i < |bs| == |joined| && j < |bs| && i != j && joined == bs[i := EmptyBucket][j := joined[j]]
    requires multiset(Content(joined[j]))[x] == multiset(Content(bs[j]))[x] + multiset(bs[i].bucket)[x]
    ensures Count(joined, x) + multiset(Content(bs[i]))[x] == Count(bs, x) + multiset(bs[i].bucket)[x]
  {
    CountAfterMerge(bs, i, j, joined[j], x);
  }

  lemma JoinedBucket(t: Table, cap: nat, b: nat, x: Entry)
    requires Halved(t, b) && Whole(t.buckets[b], cap) && Whole(t.buckets[b + t.h1], cap)
    requires t.buckets[b].size + t.buckets[b + t.h1].size <= cap
    ensures multiset(Content(Merged(t, cap, b).buckets[b]))[x] == multiset(Content(t.buckets[b]))[x] + multiset(t.buckets[b + t.h1].bucket)[x]
  {
    var data := t.buckets[b + t.h1].bucket;
    assert Merged(t, cap, b).buckets[b] == PutEach(t.buckets[b], data, cap);
    PutEachAdds(t.buckets[b], data, cap, x);
  }

  /** What the merge of a deletion drops. */
  ghost function Lost(t: Table, cap: nat, key: nat): seq<Entry>
    requires CanDelete(t, key)
  {
    if Merges(t, cap, key) && t.buckets[Address(t, key) + t.h1].size == cap
    then Content(t.buckets[Address(t, key) + t.h1]) else []
  }

  /** A deletion takes out the first entry of the key and what its merge drops. */
  lemma DeletedCount(t: Table, cap: nat, key: nat, x: Entry)
    requires Good(t, cap) && CanDelete(t, key)
    ensures Count(Deleted(t, cap, key).buckets, x) + multiset(Lost(t, cap, key))[x]
      + (if FirstWith(t.buckets[Address(t, key)].bucket, key) == Some(x) then 1 else 0) == Count(t.buckets, x)
  {
    RemovedCount(t, key, x);
    if Merges(t, cap, key) {
      MergingCount(t, cap, key, x);
    }
  }

  lemma MergingCount(t: Table, cap: nat, key: nat, x: Entry)
    requires Good(t, cap) && CanDelete(t, key) && Merges(t, cap, key)
    ensures Count(Deleted(t, cap, key).buckets, x) + multiset(Lost(t, cap, key))[x] == Count(Removed(t, key).buckets, x)
  {
    var a := Address(t, key);
    InMemory(t, cap, a);
    InMemory(t, cap, a + t.h1);
    DroppedIsWhole(t.buckets[a], key, cap);
    JoinedCount(Removed(t, key), cap, a, x);
    OnPage(t.buckets[a + t.h1], cap);
  }

  lemma OnPage(b: LBucket, cap: nat)
    requires Whole(b, cap)
    ensures if b.size < cap then Content(b) == b.bucket else b.bucket == []
  {
  }

  /** Nothing but the first entry of the key is gone. */
  ghost predicate TakesOne(t: Table, t1: Table, first: Option<Entry>) {
    forall x :: Count(t1.buckets, x) + (if first == Some(x) then 1 else 0) == Count(t.buckets, x)
  }

  /** A deletion takes out just the first entry of the key exactly if it does not merge with an upper half that is on its page. */
  lemma DeletedTakesOneExactlyWhen(t: Table, cap: nat, key: nat)
    requires Good(t, cap) && CanDelete(t, key)
    ensures TakesOne(t, Deleted(t, cap, key), FirstWith(t.buckets[Address(t, key)].bucket, key)) <==>
      !(Merges(t, cap, key) && t.buckets[Address(t, key) + t.h1].size == cap)
  {
    if Merges(t, cap, key) && t.buckets[Address(t, key) + t.h1].size == cap {
      InMemory(t, cap, Address(t, key) + t.h1);
      var x := Lost(t, cap, key)[0];
      assert x in multiset(Lost(t, cap, key));
      DeletedCount(t, cap, key, x);
    } else {
      forall x | true
        ensures Count(Deleted(t, cap, key).buckets, x)
          + (if FirstWith(t.buckets[Address(t, key)].bucket, key) == Some(x) then 1 else 0) == Count(t.buckets, x)
      {
        DeletedCount(t, cap, key, x);
      }
    }
  }

  /** The size of the addressed bucket once the first entry of the key is out. */
  ghost function SizeLeft(t: Table, key: nat): int
    requires CanDelete(t, key)
  {
    var b := t.buckets[Address(t, key)];
    b.size - if FirstWith(b.bucket, key).Some? then 1 else 0
  }

  /** The bucket `b1` holds what `b` had but for the first entry of the key, and the entries `moved`. */
  ghost predicate HoldsRest(b1: LBucket, b: LBucket, key: nat, moved: seq<Entry>, cap: nat) {
    && Whole(b1, cap) && b1.size == |Content(b1)|
    && (forall x ::
          multiset(Content(b1))[x] + (if FirstWith(b.bucket, key) == Some(x) then 1 else 0) == multiset(b.bucket)[x] + multiset(moved)[x])
  }

  /** The flag of a split bucket stays set exactly if what remains in it and the other half do not fit together. */
  ghost predicate FlagsAfter(t: Table, t1: Table, cap: nat, key: nat)
    requires CanDelete(t, key)
  {
    var a := Address(t, key);
    && t1.h1 == t.h1 && |t1.flags| == |t.flags|
    && (t1.flags[a] <==> t.flags[a] && SizeLeft(t, key) + t.buckets[a + t.h1].size > cap)
    && (forall i :: 0 <= i < |t.flags| && i != a ==> t1.flags[i] == t.flags[i])
  }

  /** When the flag is cleared, the entries that the other half has in memory are put back and that half becomes new. */
  ghost predicate BucketsAfter(t: Table, t1: Table, cap: nat, key: nat, joined: bool)
    requires CanDelete(t, key) && (joined ==> t.flags[Address(t, key)])
  {
    var a := Address(t, key);
    && |t1.buckets| == |t.buckets|
    && (forall i :: 0 <= i < |t.buckets| && i != a && i != a + t.h1 ==> t1.buckets[i] == t.buckets[i])
    && (if joined then
          t1.buckets[a + t.h1] == EmptyBucket && HoldsRest(t1.buckets[a], t.buckets[a], key, t.buckets[a + t.h1].bucket, cap)
        else
          && (a + t.h1 < |t.buckets| ==> t1.buckets[a + t.h1] == t.buckets[a + t.h1])
          && HoldsRest(t1.buckets[a], t.buckets[a], key, [], cap) && t1.buckets[a].page == t.buckets[a].page)
  }

  /** What a deletion does to the table, flag by flag and bucket by bucket. */
  ghost predicate DeletionOutcome(t: Table, t1: Table, cap: nat, key: nat)
    requires CanDelete(t, key)
  {
    && FlagsAfter(t, t1, cap, key)
    && BucketsAfter(t, t1, cap, key, t.flags[Address(t, key)] && !t1.flags[Address(t, key)])
  }

  lemma DroppedHoldsRest(b: LBucket, key: nat, cap: nat)
    requires Whole(b, cap) && b.bucket != []
    ensures HoldsRest(Dropped(b, key), b, key, [], cap)
  {
    var d := Dropped(b, key);
    assert Content(d) == d.bucket;
    forall x | true
      ensures multiset(d.bucket)[x] + (if FirstWith(b.bucket, key) == Some(x) then 1 else 0) == multiset(b.bucket)[x]
    {
      DropFirstCount(b.bucket, key, x);
    }
  }

  lemma JoinedHoldsRest(b: LBucket, key: nat, data: seq<Entry>, cap: nat)
    requires Whole(b, cap) && b.bucket != [] && Dropped(b, key).size + |data| <= cap
    ensures HoldsRest(PutEach(Dropped(b, key), data, cap), b, key, data, cap)
  {
    var d := Dropped(b, key);
    DroppedIsWhole(b, key, cap);
    forall x | true
      ensures Whole(PutEach(d, data, cap), cap)
      ensures multiset(Content(PutEach(d, data, cap)))[x] + (if FirstWith(b.bucket, key) == Some(x) then 1 else 0) == multiset(b.bucket)[x] + multiset(data)[x]
    {
      PutEachAdds(d, data, cap, x);
      DropFirstCount(b.bucket, key, x);
    }
  }

  lemma FlagsAfterDeleted(t: Table, cap: nat, key: nat)
    requires CanDelete(t, key)
    ensures FlagsAfter(t, Deleted(t, cap, key), cap, key)
    ensures var a := Address(t, key); Merges(t, cap, key) <==> t.flags[a] && !Deleted(t, cap, key).flags[a]
  {
  }

  lemma BucketsAfterMerge(t: Table, cap: nat, key: nat)
    requires CanDelete(t, key) && Merges(t, cap, key)
    requires var a := Address(t, key);
      HoldsRest(PutEach(Dropped(t.buckets[a], key), t.buckets[a + t.h1].bucket, cap), t.buckets[a], key, t.buckets[a + t.h1].bucket, cap)
    ensures BucketsAfter(t, Deleted(t, cap, key), cap, key, true)
  {
    var r, a := Removed(t, key), Address(t, key);
    var m := PutEach(r.buckets[a], r.buckets[a + t.h1].bucket, cap);
    assert Deleted(t, cap, key).buckets == r.buckets[a + t.h1 := EmptyBucket][a := m];
  }

  lemma BucketsAfterRemoval(t: Table, cap: nat, key: nat)
    requires CanDelete(t, key) && !Merges(t, cap, key)
    requires HoldsRest(Dropped(t.buckets[Address(t, key)], key), t.buckets[Address(t, key)], key, [], cap)
    ensures BucketsAfter(t, Deleted(t, cap, key), cap, key, false)
  {
  }

  lemma BucketsAfterDeleted(t: Table, cap: nat, key: nat)
    requires Good(t, cap) && CanDelete(t, key)
    ensures BucketsAfter(t, Deleted(t, cap, key), cap, key, Merges(t, cap, key))
  {
    var a := Address(t, key);
    InMemory(t, cap, a);
    if Merges(t, cap, key) {
      InMemory(t, cap, a + t.h1);
      JoinedHoldsRest(t.buckets[a], key, t.buckets[a + t.h1].bucket, cap);
      BucketsAfterMerge(t, cap, key);
    } else {
      DroppedHoldsRest(t.buckets[a], key, cap);
      BucketsAfterRemoval(t, cap, key);
    }
  }

  lemma DeletedOutcome(t: Table, cap: nat, key: nat)
    requires Good(t, cap) && CanDelete(t, key)
    ensures DeletionOutcome(t, Deleted(t, cap, key), cap, key)
  {
    FlagsAfterDeleted(t, cap, key);
    BucketsAfterDeleted(t, cap, key);
  }

  /** No deletion closes a level. */
  lemma DeletedLeavesLevelOpen(t: Table, cap: nat, key: nat)
    requires CanDelete(t, key) && LevelOpen(t)
    ensures LevelOpen(Deleted(t, cap, key))
  {
    var j :| 0 <= j < t.h1 && !t.flags[j];
    assert !Deleted(t, cap, key).flags[j];
  }

  lemma NewIsGood(n: nat, cap: nat)
    requires 0 < n <= FLAGS && cap > 0
    ensures Good(Table(Empties(n), n, NoFlags()), cap) && LevelOpen(Table(Empties(n), n, NoFlags()))
  {
    var t := Table(Empties(n), n, NoFlags());
    forall i | 0 <= i < n
      ensures GoodAt(t, cap, i)
    {
      EmptyIsGood(t, cap, i);
    }
    assert !t.flags[0];
  }

  lemma AfterDeletion(t: Table, t1: Table, cap: nat, key: nat)
    requires Good(t, cap) && LevelOpen(t) && CanDelete(t, key) && t1 == Deleted(t, cap, key)
    ensures DeletionOutcome(t, t1, cap, key)
    ensures Good(t1, cap) && LevelOpen(t1) <==>
      if Merges(t, cap, key) then MergeSafe(Removed(t, key), Address(t, key)) else RemoveSafe(t, key)
  {
    DeletedOutcome(t, cap, key);
    DeletedGoodExactlyWhen(t, cap, key);
    DeletedLeavesLevelOpen(t, cap, key);
  }

  class LinearHashTable {
    const cap: nat                 // entries of a page
    var BucketTable: seq<LBucket>
    var h1: nat
    var h2: nat
    var SplitFlag: seq<bool>

    ghost function T(): Table
      reads this
    {
      Table(BucketTable, h1, SplitFlag)
    }

    ghost predicate Valid()
      reads this
    {
      Good(T(), cap) && LevelOpen(T()) && h2 == 2 * h1
    }

    constructor (Initialsize: nat, cap: nat)
      requires 0 < Initialsize <= FLAGS && cap > 0
      ensures Valid() && this.cap == cap && h1 == Initialsize
      ensures forall e :: Count(BucketTable, e) == 0
    {
      this.cap := cap;
      h1, h2 := Initialsize, 2 * Initialsize;
      SplitFlag := NoFlags();
      BucketTable := Empties(Initialsize);
      new;
      NewIsGood(Initialsize, cap);
      forall e | true
        ensures Count(BucketTable, e) == 0
      {
        CountWithEmpties([], Initialsize, e);
        assert [] + Empties(Initialsize) == Empties(Initialsize);
      }
    }

    method TableDouble()
      modifies this`BucketTable
      ensures BucketTable == old(BucketTable) + Empties(h1)
    {
      for i := 0 to h1
        invariant BucketTable == old(BucketTable) + Empties(i)
      {
        BucketTable := BucketTable + [EmptyBucket];
        assert Empties(i) + [EmptyBucket] == Empties(i + 1);
      }
    }

    method split(SplitBucket: nat)
      requires InTable(T(), SplitBucket) && h2 == 2 * h1
      requires Whole(BucketTable[SplitBucket], cap) && BucketTable[SplitBucket].size == cap > 0
      modifies this
      ensures T() == Split(old(T()), cap, SplitBucket) && h2 == 2 * h1
    {
      var OldBucket := GetBucketRead(BucketTable[SplitBucket]);
      BucketTable := BucketTable[SplitBucket := Erased(BucketTable[SplitBucket])];
      SplitFlag := SplitFlag[SplitBucket := true];
      Redistribute(OldBucket);
      var flag := LevelDone();
      if flag {
        h1, h2 := 2 * h1, 2 * h2;
        SplitFlag := NoFlags();
      }
    }

    method Redistribute(OldBucket: seq<Entry>)
      requires 0 < h1 <= |BucketTable| && h2 == 2 * h1
      modifies this`BucketTable
      ensures BucketTable == PutAll(old(BucketTable), h1, OldBucket, cap)
    {
      for i := 0 to |OldBucket|
        invariant BucketTable == PutAll(old(BucketTable), h1, OldBucket[..i], cap)
      {
        var bucketno := OldBucket[i].key % h2;
        assert OldBucket[..i + 1][..i] == OldBucket[..i];
        if bucketno >= |BucketTable| {
          TableDouble();
        }
        BucketTable := BucketTable[bucketno := PutIn(BucketTable[bucketno], OldBucket[i], cap)];
      }
      assert OldBucket[..|OldBucket|] == OldBucket;
    }

    method LevelDone() returns (flag: bool)
      requires h1 <= |SplitFlag|
      ensures flag == AllSet(SplitFlag, h1)
    {
      flag := true;
      var i := 0;
      while i < h1
        invariant i <= h1 && forall j :: 0 <= j < i ==> SplitFlag[j]
      {
        if !SplitFlag[i] {
          return false;
        }
        i := i + 1;
      }
    }

    /** Leaves the table valid, with the entry added, exactly if the addressed bucket has room or a first split makes some. */
    method Insert(key: nat, value: nat)
      requires Valid() && CanInsert(T(), cap, key)
      modifies this
      ensures T() == Inserted(old(T()), cap, Entry(key, value)) && h2 == 2 * h1
      ensures Valid() <==> old(HasRoom(T(), cap, key))
      ensures AddsOne(old(T()), T(), Entry(key, value)) <==> old(HasRoom(T(), cap, key))
    {
      InsertLeavesLevelOpen(T(), cap, Entry(key, value));
      InsertGoodExactlyWhen(T(), cap, Entry(key, value));
      InsertAddsOneExactlyWhen(T(), cap, Entry(key, value));
      var bucketno := key % h1;
      if SplitFlag[bucketno] {
        bucketno := key % h2;
      }
      InMemory(T(), cap, bucketno);
      if BucketTable[bucketno].size >= cap {
        split(bucketno);
        bucketno := key % h2;
      }
      BucketTable := BucketTable[bucketno := PutIn(BucketTable[bucketno], Entry(key, value), cap)];
    }

    /** 0 when found, -1 otherwise; an entry of key 0 and value 0 counts as not found. */
    method Search(key: nat) returns (r: int)
      requires Valid() && Address(T(), key) < |BucketTable|
      ensures r == 0 || r == -1
      ensures key > 0 ==> (r == 0 <==> Stored(T(), key))
      ensures key == 0 ==> (r == 0 <==> FirstWith(Searched(BucketTable[Address(T(), key)]), 0).Some?
                                        && FirstWith(Searched(BucketTable[Address(T(), key)]), 0).value.val != 0)
    {
      var bucketno := key % h1;
      if SplitFlag[bucketno] {
        bucketno := key % h2;
      }
      SearchIsExact(T(), cap, key);
      var searched := Searched(BucketTable[bucketno]);
      var i := FindKey(searched, key);
      FirstWithAt(searched, key, i);
      var entry := if i < |searched| then searched[i] else Entry(0, 0);
      if (entry.key == 0 && entry.val == 0) || entry.key != key {
        return -1;
      }
      return 0;
    }

    /** Whether the entries of a bucket and its other half fit into one page; for a split bucket, whether they can be merged. */
    method Judge(bucketno: nat) returns (fits: bool)
      requires bucketno < |BucketTable| == 2 * h1 && h1 <= |SplitFlag|
      requires var b := if bucketno < h1 then bucketno else bucketno - h1;
        Whole(BucketTable[b], cap) && Whole(BucketTable[b + h1], cap)
      ensures var b := if bucketno < h1 then bucketno else bucketno - h1;
        && (fits <==> |Content(BucketTable[b])| + |Content(BucketTable[b + h1])| <= cap)
        && (Good(T(), cap) && SplitFlag[b] ==> (fits <==> CanMerge(T(), cap, b)))
    {
      var b2 := if bucketno < h1 then bucketno + h1 else bucketno - h1;
      fits := BucketTable[bucketno].size + BucketTable[b2].size <= cap;
      ContentSize(BucketTable[bucketno], cap);
      ContentSize(BucketTable[b2], cap);
    }

    /** On a bucket with entries in memory: takes the first entry of the key out, and merges a split bucket with its upper half when they fit together. */
    method Delete(key: nat)
      requires Valid() && CanDelete(T(), key)
      modifies this`BucketTable, this`SplitFlag
      ensures T() == Deleted(old(T()), cap, key)
      ensures old(CanDelete(T(), key)) && DeletionOutcome(old(T()), T(), cap, key)
      ensures Valid() <==> old(if Merges(T(), cap, key) then MergeSafe(Removed(T(), key), Address(T(), key)) else RemoveSafe(T(), key))
    {
      ghost var t := T();
      var bucketno := key % h1;
      if SplitFlag[bucketno] {
        bucketno := key % h2;
      }
      InMemory(t, cap, bucketno);
      DroppedIsWhole(t.buckets[bucketno], key, cap);
      ValueDelet(bucketno, key);
      if SplitFlag[bucketno] {
        InMemory(t, cap, bucketno + h1);
        MergeIfFits(bucketno);
      }
      AfterDeletion(t, T(), cap, key);
    }

    method MergeIfFits(bucketno: nat)
      requires Halved(T(), bucketno) && Whole(BucketTable[bucketno], cap) && Whole(BucketTable[bucketno + h1], cap)
      modifies this`BucketTable, this`SplitFlag
      ensures T() == if old(BucketTable[bucketno].size + BucketTable[bucketno + h1].size) <= cap
        then Merged(old(T()), cap, bucketno) else old(T())
    {
      ContentSize(BucketTable[bucketno], cap);
      ContentSize(BucketTable[bucketno + h1], cap);
      var fits := Judge(bucketno);
      if fits {
        MergeHalves(bucketno);
      }
    }

    /** `ValueDelet` on a bucket with entries in memory. */
    method ValueDelet(bucketno: nat, key: nat)
      requires bucketno < |BucketTable| && BucketTable[bucketno].size == |BucketTable[bucketno].bucket|
      modifies this`BucketTable
      ensures BucketTable == old(BucketTable)[bucketno := Dropped(old(BucketTable)[bucketno], key)]
    {
      var b := BucketTable[bucketno];
      var i := FindKey(b.bucket, key);
      DropFirstAt(b.bucket, key, i);
      if i < |b.bucket| {
        BucketTable := BucketTable[bucketno := b.(bucket := Erase(b.bucket, i), size := b.size - 1)];
      }
    }

    /** The block of `Delete` that merges a split bucket with its upper half. */
    method MergeHalves(bucketno: nat)
      requires Halved(T(), bucketno)
      modifies this`BucketTable, this`SplitFlag
      ensures T() == Merged(old(T()), cap, bucketno)
    {
      var b1, b2 := bucketno, bucketno + h1;
      SplitFlag := SplitFlag[b1 := false];
      var data := BucketTable[b2].bucket;
      BucketTable := BucketTable[b2 := EmptyBucket];
      ghost var bs := BucketTable;
      for i := 0 to |data|
        invariant BucketTable == bs[b1 := PutEach(bs[b1], data[..i], cap)]
        invariant SplitFlag == old(SplitFlag)[b1 := false]
      {
        assert data[..i + 1][..i] == data[..i];
        BucketTable := BucketTable[b1 := PutIn(BucketTable[b1], data[i], cap)];
      }
      assert data[..|data|] == data;
    }
  }

  /** A full bucket is read from its page. */
  method GetBucketRead(b: LBucket) returns (es: seq<Entry>)
    ensures b.size > 0 ==> es == Content(b)
  {
    if b.page.Some? && b.bucket == [] {
      return b.page.value;
    }
    return b.bucket;
  }

  // ---------- runs on which the operations fail ----------

  lemma PlainInsert(t: Table, cap: nat, e: Entry)
    requires Good(t, cap) && LevelOpen(t) && Address(t, e.key) < |t.buckets| && t.buckets[Address(t, e.key)].size < cap
    ensures CanInsert(t, cap, e.key) && Good(Inserted(t, cap, e), cap) && LevelOpen(Inserted(t, cap, e))
    ensures var a := Address(t, e.key); Inserted(t, cap, e) == t.(buckets := t.buckets[a := PutIn(t.buckets[a], e, cap)])
  {
    InsertGoodExactlyWhen(t, cap, e);
    InsertLeavesLevelOpen(t, cap, e);
  }

  /** A table of two buckets of two entries after two entries were inserted whose keys are even. */
  ghost function TwoInserted(e: Entry, f: Entry): Table {
    Table([LBucket([], Some([e, f]), 2), EmptyBucket], 2, NoFlags())
  }

  lemma InsertTwo(e: Entry, f: Entry)
    requires e.key % 2 == 0 && f.key % 2 == 0 && e.key <= f.key
    ensures var t0 := Table(Empties(2), 2, NoFlags());
      && CanInsert(t0, 2, e.key) && CanInsert(Inserted(t0, 2, e), 2, f.key)
      && Inserted(Inserted(t0, 2, e), 2, f) == TwoInserted(e, f)
      && Good(TwoInserted(e, f), 2) && LevelOpen(TwoInserted(e, f))
  {
    var t0 := Table(Empties(2), 2, NoFlags());
    NewIsGood(2, 2);
    PlainInsert(t0, 2, e);
    var t1 := Inserted(t0, 2, e);
    assert t1.buckets[0] == LBucket([e], None, 1);
    PlainInsert(t1, 2, f);
    SortTwo(e, f);
    assert Inserted(t1, 2, f).buckets == TwoInserted(e, f).buckets;
  }

  lemma SortTwo(e: Entry, f: Entry)
    requires e.key <= f.key
    ensures SortByKey([e] + [f]) == [e, f]
  {
    assert ([e] + [f])[1..] == [f];
    assert SortByKey([f]) == [f];
  }

  lemma SplitsFirst(e: Entry, f: Entry, key: nat)
    requires e.key % 2 == 0 && f.key % 2 == 0 && e.key <= f.key && key % 4 == 0
    ensures CanInsert(TwoInserted(e, f), 2, key)
  {
    var t := TwoInserted(e, f);
    InsertTwo(e, f);
    InsertStaysInTableExactlyWhen(t, 2, key);
    assert !t.flags[0 := true][1];
  }

  /** Keys 4, 8 and 12 into two buckets of two entries: 4 and 8 are stored, and after 12 is inserted neither is found. */
  lemma FirstSplitHides()
    ensures var t := TwoInserted(Entry(4, 1), Entry(8, 1));
      && CanInsert(t, 2, 12) && Stored(t, 4) && Stored(t, 8)
      && var t1 := Inserted(t, 2, Entry(12, 1));
        && 0 < t1.h1 <= |t1.flags| && Address(t1, 4) < |t1.buckets| && Address(t1, 8) < |t1.buckets|
        && !Finds(t1, 4) && !Finds(t1, 8)
  {
    var e, f := Entry(4, 1), Entry(8, 1);
    var t := TwoInserted(e, f);
    SplitsFirst(e, f, 12);
    assert e in Content(t.buckets[0]) && f in Content(t.buckets[0]);
    InsertHides(t, 2, Entry(12, 1), 4);
    InsertHides(t, 2, Entry(12, 1), 8);
  }

  /** The split that this insertion makes moves no entry up, and a search for key 2 then leaves the table. */
  lemma SearchLeavesTable()
    ensures var t := TwoInserted(Entry(4, 1), Entry(8, 1));
      && CanSplit(t, 2, 0) && Shaped(Split(t, 2, 0)) && !SearchInRange(Split(t, 2, 0))
  {
    var t := TwoInserted(Entry(4, 1), Entry(8, 1));
    InsertTwo(Entry(4, 1), Entry(8, 1));
    SplitStaysInRange(t, 2, 0);
  }

  /** Keys 2 and 3 fill a table of one bucket of two entries; the insertion of 7 splits it, which ends the level, and goes beyond the table. */
  lemma LevelEndLeavesTable()
    ensures var t := Table([LBucket([], Some([Entry(2, 1), Entry(3, 1)]), 2)], 1, NoFlags());
      Good(t, 2) && LevelOpen(t) && !CanInsert(t, 2, 7)
  {
    var t0, e, f := Table(Empties(1), 1, NoFlags()), Entry(2, 1), Entry(3, 1);
    NewIsGood(1, 2);
    PlainInsert(t0, 2, e);
    var t1 := Inserted(t0, 2, e);
    assert t1.buckets[0] == LBucket([e], None, 1);
    PlainInsert(t1, 2, f);
    SortTwo(e, f);
    var t := Table([LBucket([], Some([e, f]), 2)], 1, NoFlags());
    assert Inserted(t1, 2, f) == t;
    InsertAfterLevelEnd(t, 2, 7);
  }

  /** Keys 6, 10 and 4 into two buckets of two entries: 6 and 10 move up, and 4 is alone over the old page. */
  ghost function ThreeInserted(): Table {
    Table([LBucket([Entry(4, 1)], Some([Entry(6, 1), Entry(10, 1)]), 1), EmptyBucket,
           LBucket([], Some([Entry(6, 1), Entry(10, 1)]), 2), EmptyBucket], 2, NoFlags()[0 := true])
  }

  lemma InsertThree()
    ensures CanInsert(TwoInserted(Entry(6, 1), Entry(10, 1)), 2, 4)
    ensures Inserted(TwoInserted(Entry(6, 1), Entry(10, 1)), 2, Entry(4, 1)) == ThreeInserted()
    ensures Good(ThreeInserted(), 2)
  {
    var e, f := Entry(6, 1), Entry(10, 1);
    var t := TwoInserted(e, f);
    SplitsFirst(e, f, 4);
    assert e in Content(t.buckets[0]) && e.key % (2 * t.h1) == 2 && 4 % (2 * t.h1) == 0;
    InsertGoodExactlyWhen(t, 2, Entry(4, 1));
    MoveUp(e, f);
    assert !t.flags[0 := true][1];
    var t1 := Split(t, 2, 0);
    assert t1.buckets == Redistributed(t, 2, 0) && t1.h1 == 2;
    assert [] + [Entry(4, 1)] == [Entry(4, 1)];
    assert PutIn(t1.buckets[0], Entry(4, 1), 2) == ThreeInserted().buckets[0];
    assert Inserted(t, 2, Entry(4, 1)) == PutBySplit(t1, 2, Entry(4, 1));
  }

  lemma MoveUp(e: Entry, f: Entry)
    requires e.key % 4 == 2 && f.key % 4 == 2 && e.key <= f.key
    ensures Redistributed(TwoInserted(e, f), 2, 0)
      == [LBucket([], Some([e, f]), 0), EmptyBucket, LBucket([], Some([e, f]), 2), EmptyBucket]
  {
    var bs := [LBucket([], Some([e, f]), 0), EmptyBucket];
    assert [e, f][..1] == [e] && [e, f][..0] == [] && [e][..0] == [];
    assert bs + Empties(2) == [bs[0], EmptyBucket, EmptyBucket, EmptyBucket];
    assert [] + [e] == [e];
    assert PutAll(bs, 2, [e], 2) == PutOne(bs, 2, e, 2);
    assert PutOne(bs, 2, e, 2) == [bs[0], EmptyBucket, LBucket([e], None, 1), EmptyBucket];
    SortTwo(e, f);
    assert TwoInserted(e, f).buckets[0 := Erased(TwoInserted(e, f).buckets[0])] == bs;
  }

  /** Deleting key 4 then merges the halves although the upper one is on its page: keys 6 and 10 are stored no longer, and 6 is still found. */
  lemma DeleteLosesAndRevives()
    ensures var t := ThreeInserted();
      && CanDelete(t, 4) && Stored(t, 6) && Stored(t, 10)
      && var t1 := Deleted(t, 2, 4);
        && Shaped(t1) && Address(t1, 6) < |t1.buckets|
        && !Stored(t1, 6) && !Stored(t1, 10) && Finds(t1, 6)
  {
    InsertThree();
    StoredThree();
    LostAndRevived(Entry(6, 1));
    LostAndRevived(Entry(10, 1));
  }

  lemma LostAndRevived(e: Entry)
    requires e == Entry(6, 1) || e == Entry(10, 1)
    ensures CanDelete(ThreeInserted(), 4)
    ensures var t1 := Deleted(ThreeInserted(), 2, 4);
      Shaped(t1) && Address(t1, e.key) < |t1.buckets| && !Stored(t1, e.key) && Finds(t1, e.key)
  {
    InsertThree();
    RemoveFour();
    MergeRevives(Removed(ThreeInserted(), 4), 2, 0, e);
  }

  lemma StoredThree()
    ensures Stored(ThreeInserted(), 6) && Stored(ThreeInserted(), 10)
  {
    assert Entry(6, 1) in Content(ThreeInserted().buckets[2]);
    assert Entry(10, 1) in Content(ThreeInserted().buckets[2]);
  }

  lemma RemoveFour()
    requires Good(ThreeInserted(), 2)
    ensures CanDelete(ThreeInserted(), 4)
    ensures var r := Removed(ThreeInserted(), 4);
      && r.buckets[0] == LBucket([], Some([Entry(6, 1), Entry(10, 1)]), 0) && r.buckets[2].bucket == []
      && CanMerge(r, 2, 0) && Deleted(ThreeInserted(), 2, 4) == Merged(r, 2, 0)
  {
    assert DropFirst([Entry(4, 1)], 4) == [];
    RemovedGoodExactlyWhen(ThreeInserted(), 2, 4);
  }
}
