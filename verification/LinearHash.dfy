/**
  Linear hashing with a split flag for every bucket, so that the buckets of a level can be split in
  any order. The table is a vector of buckets held by value.
 */
module LinearHash {
  import opened Arithmetic
  import opened Entries

  const FLAGS: nat := 65535      // length of `SplitFlag`

  /** `page` is what the bucket's page holds, None without a page. */
  datatype LBucket = LBucket(bucket: seq<Entry>, page: Option<seq<Entry>>, size: nat)

  const EmptyBucket := LBucket([], None, 0)

  /** A bucket is in memory until it is full, then on its page. */
  predicate Whole(b: LBucket, cap: nat) {
    if b.size < cap then |b.bucket| == b.size
    else b.size == cap && b.bucket == [] && b.page.Some? && |b.page.value| == cap
  }

  function Content(b: LBucket): seq<Entry> {
    if b.size == 0 || b.bucket != [] || b.page.None? then b.bucket else b.page.value
  }

  /** `LBucket::Insert`: the entry that fills the bucket makes it go to its page. */
  function PutIn(b: LBucket, e: Entry, cap: nat): LBucket {
    var entries := b.bucket + [e];
    if b.size + 1 == cap then LBucket([], Some(SortByKey(entries)), cap) else LBucket(entries, b.page, b.size + 1)
  }

  lemma PutInAddsOne(b: LBucket, x: Entry, cap: nat, e: Entry)
    requires Whole(b, cap) && b.size < cap
    ensures Whole(PutIn(b, x, cap), cap) && PutIn(b, x, cap).size == b.size + 1
    ensures multiset(Content(PutIn(b, x, cap)))[e] == multiset(Content(b))[e] + if x == e then 1 else 0
  {
    assert Content(b) == b.bucket;
    assert multiset(b.bucket + [x])[e] == multiset(b.bucket)[e] + if x == e then 1 else 0;
  }

  /** A bucket's page is in key order. */
  lemma FilledPageAscends(b: LBucket, x: Entry, cap: nat)
    requires b.size + 1 == cap
    ensures Ascending(PutIn(b, x, cap).page.value)
  {
    SortedByKey(b.bucket + [x]);
  }

  /** The table; `h2` is always twice `h1`. */
  datatype Table = Table(buckets: seq<LBucket>, h1: nat, flags: seq<bool>)

  ghost predicate Shaped(t: Table) {
    && 0 < t.h1 <= FLAGS == |t.flags|
    && (forall i :: t.h1 <= i < FLAGS ==> !t.flags[i])
  }

  /** The bucket that `Search`, `Insert`, `Delete` and `Update` go to. */
  function Address(t: Table, key: nat): (i: nat)
    requires 0 < t.h1 <= |t.flags|
    ensures i < 2 * t.h1
  {
    if t.flags[key % t.h1] then key % (2 * t.h1) else key % t.h1
  }

  lemma AddressCases(t: Table, key: nat)
    requires Shaped(t)
    ensures key % (2 * t.h1) == key % t.h1 || key % (2 * t.h1) == key % t.h1 + t.h1
    ensures Address(t, key) == key % t.h1 || (t.flags[key % t.h1] && Address(t, key) == key % t.h1 + t.h1)
  {
    HalvesOfRemainder(key, t.h1, 2 * t.h1);
  }

  // ---------- the invariant ----------

  ghost predicate Placed(t: Table, i: nat)
    requires Shaped(t) && i < |t.buckets|
  {
    forall e :: e in Content(t.buckets[i]) ==> Address(t, e.key) == i
  }

  /** What an empty bucket's old page holds belongs elsewhere. */
  ghost predicate NoStale(t: Table, i: nat)
    requires Shaped(t) && i < |t.buckets|
  {
    var b := t.buckets[i];
    b.size == 0 && b.page.Some? ==> forall e :: e in b.page.value ==> Address(t, e.key) != i
  }

  /** The upper half of an unsplit bucket has never been used. */
  ghost predicate Untouched(t: Table, i: nat)
    requires Shaped(t) && i < |t.buckets|
  {
    t.h1 <= i < 2 * t.h1 && !t.flags[i - t.h1] ==> t.buckets[i] == EmptyBucket
  }

  ghost predicate GoodAt(t: Table, cap: nat, i: nat)
    requires Shaped(t) && i < |t.buckets|
  {
    Whole(t.buckets[i], cap) && Placed(t, i) && NoStale(t, i) && Untouched(t, i)
  }

  ghost predicate Good(t: Table, cap: nat) {
    && cap > 0 && Shaped(t)
    && (|t.buckets| == t.h1 || |t.buckets| == 2 * t.h1)
    && (forall i :: 0 <= i < |t.buckets| ==> GoodAt(t, cap, i))
  }

  // ---------- split ----------

  function Empties(n: nat): (bs: seq<LBucket>)
    ensures |bs| == n && forall i :: 0 <= i < n ==> bs[i] == EmptyBucket
  {
    seq(n, i => EmptyBucket)
  }

  /** The table is doubled when an entry goes beyond its end. */
  function PutOne(bs: seq<LBucket>, h1: nat, e: Entry, cap: nat): (r: seq<LBucket>)
    requires 0 < h1 <= |bs|
    ensures |r| == if e.key % (2 * h1) >= |bs| then |bs| + h1 else |bs|
  {
    var i := e.key % (2 * h1);
    var wide := if i >= |bs| then bs + Empties(h1) else bs;
    wide[i := PutIn(wide[i], e, cap)]
  }

  function PutAll(bs: seq<LBucket>, h1: nat, es: seq<Entry>, cap: nat): (r: seq<LBucket>)
    requires 0 < h1 <= |bs|
    ensures |r| >= |bs|
  {
    if es == [] then bs else PutOne(PutAll(bs, h1, es[..|es| - 1], cap), h1, es[|es| - 1], cap)
  }

  /** `BucketErase()` keeps the page. */
  function Erased(b: LBucket): LBucket {
    b.(bucket := [], size := 0)
  }

  ghost predicate AllSet(flags: seq<bool>, h1: nat)
    requires h1 <= |flags|
  {
    forall i :: 0 <= i < h1 ==> flags[i]
  }

  function NoFlags(): (f: seq<bool>)
    ensures |f| == FLAGS && forall i :: 0 <= i < FLAGS ==> !f[i]
  {
    seq(FLAGS, i => false)
  }

  ghost predicate CanSplit(t: Table, cap: nat, b: nat) {
    Good(t, cap) && b < t.h1 && !t.flags[b] && t.buckets[b].size == cap
  }

  /** The indices that a split of bucket `b` uses exist. */
  ghost predicate InTable(t: Table, b: nat) {
    0 < t.h1 <= |t.flags| && t.h1 <= |t.buckets| && b < |t.flags| && b < |t.buckets|
  }

  ghost function Redistributed(t: Table, cap: nat, b: nat): seq<LBucket>
    requires InTable(t, b)
  {
    PutAll(t.buckets[b := Erased(t.buckets[b])], t.h1, Content(t.buckets[b]), cap)
  }

  ghost function Split(t: Table, cap: nat, b: nat): Table
    requires InTable(t, b)
  {
    var flags := t.flags[b := true];
    if AllSet(flags, t.h1) then Table(Redistributed(t, cap, b), 2 * t.h1, NoFlags())
    else Table(Redistributed(t, cap, b), t.h1, flags)
  }

  /** Bucket `i`, empty where the table ends before it. */
  function At(bs: seq<LBucket>, i: nat): LBucket {
    if i < |bs| then bs[i] else EmptyBucket
  }

  /** The redistribution after the entries `es` of bucket `b`. */
  ghost predicate Spread(bs: seq<LBucket>, was: seq<LBucket>, h1: nat, cap: nat, b: nat, es: seq<Entry>) {
    && b < h1 <= |was| && Width(|bs|, |was|, h1, b, es)
    && (forall i: nat {:trigger At(bs, i)} :: i != b && i != b + h1 ==> At(bs, i) == At(was, i))
    && Halves(At(bs, b), At(bs, b + h1), was[b].page, h1, cap, b, es)
  }

  /** The table gets its upper half with the first entry that goes there. */
  ghost predicate Width(now: nat, was: nat, h1: nat, b: nat, es: seq<Entry>) {
    && h1 > 0 && (was == h1 || was == 2 * h1) && (now == h1 || now == 2 * h1)
    && (now == 2 * h1 <==> was == 2 * h1 || exists e :: e in es && e.key % (2 * h1) == b + h1)
  }

  ghost predicate Halves(low: LBucket, high: LBucket, page: Option<seq<Entry>>, h1: nat, cap: nat, b: nat, es: seq<Entry>) {
    && Half(low, b, h1, cap, es) && Half(high, b + h1, h1, cap, es)
    && low.size + high.size == |es|
    && (low.size < cap ==> low.page == page)
    && (high.size < cap ==> high.page == None)
  }

  /** Bucket `i` holds those of `es` that belong there. */
  ghost predicate Half(c: LBucket, i: nat, h1: nat, cap: nat, es: seq<Entry>)
  {
    && h1 > 0 && Whole(c, cap)
    && forall e :: multiset(Content(c))[e] == if e.key % (2 * h1) == i then multiset(es)[e] else 0
  }

  lemma AtPutOne(bs: seq<LBucket>, h1: nat, x: Entry, cap: nat, i: nat)
    requires 0 < h1 <= |bs|
    ensures At(PutOne(bs, h1, x, cap), i) == if i == x.key % (2 * h1) then PutIn(At(bs, i), x, cap) else At(bs, i)
  {
  }

  lemma HalfPlus(c: LBucket, i: nat, h1: nat, cap: nat, es: seq<Entry>, x: Entry)
    requires Half(c, i, h1, cap, es) && c.size < cap
    ensures x.key % (2 * h1) == i ==> Half(PutIn(c, x, cap), i, h1, cap, es + [x])
    ensures x.key % (2 * h1) != i ==> Half(c, i, h1, cap, es + [x])
  {
    forall e | true
      ensures multiset(es + [x])[e] == multiset(es)[e] + if x == e then 1 else 0
      ensures multiset(Content(PutIn(c, x, cap)))[e] == multiset(Content(c))[e] + if x == e then 1 else 0
    {
      PutInAddsOne(c, x, cap, e);
    }
    PutInAddsOne(c, x, cap, x);
  }

  lemma HalvesOne(low: LBucket, high: LBucket, page: Option<seq<Entry>>, h1: nat, cap: nat, b: nat, es: seq<Entry>, x: Entry)
    requires h1 > 0 && Halves(low, high, page, h1, cap, b, es) && |es| < cap
    ensures x.key % (2 * h1) == b ==> Halves(PutIn(low, x, cap), high, page, h1, cap, b, es + [x])
    ensures x.key % (2 * h1) == b + h1 ==> Halves(low, PutIn(high, x, cap), page, h1, cap, b, es + [x])
  {
    HalfPlus(low, b, h1, cap, es, x);
    HalfPlus(high, b + h1, h1, cap, es, x);
  }

  lemma HalvesAfterPut(bs: seq<LBucket>, page: Option<seq<Entry>>, h1: nat, cap: nat, b: nat, es: seq<Entry>, x: Entry)
    requires b < h1 <= |bs| && Halves(At(bs, b), At(bs, b + h1), page, h1, cap, b, es)
    requires x.key % h1 == b && |es| < cap
    ensures var r := PutOne(bs, h1, x, cap); Halves(At(r, b), At(r, b + h1), page, h1, cap, b, es + [x])
    ensures x.key % (2 * h1) == b || x.key % (2 * h1) == b + h1
  {
    HalvesOfRemainder(x.key, h1, 2 * h1);
    var low, high := At(bs, b), At(bs, b + h1);
    AtPutOne(bs, h1, x, cap, b);
    AtPutOne(bs, h1, x, cap, b + h1);
    var r := PutOne(bs, h1, x, cap);
    assert if x.key % (2 * h1) == b then At(r, b) == PutIn(low, x, cap) && At(r, b + h1) == high
      else At(r, b) == low && At(r, b + h1) == PutIn(high, x, cap);
    HalvesOne(low, high, page, h1, cap, b, es, x);
  }

  lemma SpreadOne(bs: seq<LBucket>, was: seq<LBucket>, h1: nat, cap: nat, b: nat, es: seq<Entry>, x: Entry)
    requires Spread(bs, was, h1, cap, b, es) && x.key % h1 == b && |es| < cap
    ensures Spread(PutOne(bs, h1, x, cap), was, h1, cap, b, es + [x])
  {
    var r := PutOne(bs, h1, x, cap);
    HalvesAfterPut(bs, was[b].page, h1, cap, b, es, x);
    WidthOne(|bs|, |was|, h1, b, es, x);
    forall i: nat | i != b && i != b + h1
      ensures At(r, i) == At(was, i)
    {
      AtPutOne(bs, h1, x, cap, i);
    }
    SpreadFrom(r, was, h1, cap, b, es + [x]);
  }

  lemma SpreadFrom(bs: seq<LBucket>, was: seq<LBucket>, h1: nat, cap: nat, b: nat, es: seq<Entry>)
    requires b < h1 <= |was| && Width(|bs|, |was|, h1, b, es)
    requires forall i: nat {:trigger At(bs, i)} :: i != b && i != b + h1 ==> At(bs, i) == At(was, i)
    requires Halves(At(bs, b), At(bs, b + h1), was[b].page, h1, cap, b, es)
    ensures Spread(bs, was, h1, cap, b, es)
  {
  }

  lemma WidthOne(now: nat, was: nat, h1: nat, b: nat, es: seq<Entry>, x: Entry)
    requires b < h1 && Width(now, was, h1, b, es)
    requires x.key % (2 * h1) == b || x.key % (2 * h1) == b + h1
    ensures Width(if x.key % (2 * h1) >= now then now + h1 else now, was, h1, b, es + [x])
  {
    assert forall e :: e in es + [x] <==> e in es || e == x;
    if x.key % (2 * h1) == b + h1 {
      assert x in es + [x];
    }
  }

  lemma {:induction false} SpreadAll(was: seq<LBucket>, h1: nat, cap: nat, b: nat, es: seq<Entry>)
    requires b < h1 && (|was| == h1 || |was| == 2 * h1) && cap > 0 && |es| <= cap
    requires was[b].size == 0 && was[b].bucket == [] && At(was, b + h1) == EmptyBucket
    requires forall e :: e in es ==> e.key % h1 == b
    ensures Spread(PutAll(was, h1, es, cap), was, h1, cap, b, es)
    decreases |es|
  {
    if es != [] {
      var n := |es| - 1;
      assert es == es[..n] + [es[n]];
      SpreadAll(was, h1, cap, b, es[..n]);
      SpreadOne(PutAll(was, h1, es[..n], cap), was, h1, cap, b, es[..n], es[n]);
    }
  }

  lemma FullBucket(t: Table, cap: nat, b: nat)
    requires CanSplit(t, cap, b)
    ensures |Content(t.buckets[b])| == cap && t.buckets[b].page == Some(Content(t.buckets[b]))
    ensures forall e :: e in Content(t.buckets[b]) ==> e.key % t.h1 == b
    ensures At(t.buckets, b + t.h1) == EmptyBucket
  {
    assert GoodAt(t, cap, b);
    forall e | e in Content(t.buckets[b])
      ensures e.key % t.h1 == b
    {
      AddressCases(t, e.key);
    }
    if b + t.h1 < |t.buckets| {
      assert GoodAt(t, cap, b + t.h1);
    }
  }

  lemma SplitSpreads(t: Table, cap: nat, b: nat)
    requires CanSplit(t, cap, b)
    ensures Spread(Redistributed(t, cap, b), t.buckets[b := Erased(t.buckets[b])], t.h1, cap, b, Content(t.buckets[b]))
  {
    FullBucket(t, cap, b);
    var was := t.buckets[b := Erased(t.buckets[b])];
    assert At(was, b + t.h1) == At(t.buckets, b + t.h1);
    SpreadAll(was, t.h1, cap, b, Content(t.buckets[b]));
  }

  // ---------- a split keeps the invariant ----------

  /** The table with bucket `b` split, before the level is looked at. */
  ghost function Flagged(t: Table, cap: nat, b: nat): Table
    requires InTable(t, b)
  {
    Table(Redistributed(t, cap, b), t.h1, t.flags[b := true])
  }

  lemma AddressAfterSplit(t: Table, cap: nat, b: nat, key: nat)
    requires CanSplit(t, cap, b)
    ensures Shaped(Flagged(t, cap, b))
    ensures Address(Flagged(t, cap, b), key) == if key % t.h1 == b then key % (2 * t.h1) else Address(t, key)
    ensures key % t.h1 == b <==> key % (2 * t.h1) == b || key % (2 * t.h1) == b + t.h1
    ensures key % t.h1 == b ==> Address(t, key) == b
  {
    HalvesOfRemainder(key, t.h1, 2 * t.h1);
  }

  /** A bucket stays good while it is unchanged and the same keys address it. */
  lemma GoodAtTransfers(t: Table, t1: Table, cap: nat, i: nat)
    requires Shaped(t) && Shaped(t1) && i < |t.buckets| && i < |t1.buckets| && GoodAt(t, cap, i)
    requires t1.buckets[i] == t.buckets[i]
    requires forall key: nat :: Address(t1, key) == i <==> Address(t, key) == i
    requires t1.h1 <= i < 2 * t1.h1 && !t1.flags[i - t1.h1] ==> t.h1 <= i < 2 * t.h1 && !t.flags[i - t.h1]
    ensures GoodAt(t1, cap, i)
  {
  }

  lemma EmptyIsGood(t: Table, cap: nat, i: nat)
    requires Shaped(t) && i < |t.buckets| && t.buckets[i] == EmptyBucket && cap > 0
    ensures GoodAt(t, cap, i)
  {
  }

  lemma OthersUnchanged(t: Table, cap: nat, b: nat, i: nat)
    requires CanSplit(t, cap, b) && i < |Redistributed(t, cap, b)| && i != b && i != b + t.h1
    ensures Redistributed(t, cap, b)[i] == At(t.buckets, i)
  {
    SplitSpreads(t, cap, b);
    assert At(Redistributed(t, cap, b), i) == At(t.buckets[b := Erased(t.buckets[b])], i) == At(t.buckets, i);
  }

  lemma OthersStayGood(t: Table, cap: nat, b: nat, i: nat)
    requires CanSplit(t, cap, b) && i < |Redistributed(t, cap, b)| && i != b && i != b + t.h1
    ensures Shaped(Flagged(t, cap, b)) && GoodAt(Flagged(t, cap, b), cap, i)
  {
    var t1 := Flagged(t, cap, b);
    OthersUnchanged(t, cap, b, i);
    forall key: nat | true
      ensures Address(t1, key) == i <==> Address(t, key) == i
    {
      AddressAfterSplit(t, cap, b, key);
    }
    if i < |t.buckets| {
      assert GoodAt(t, cap, i);
      GoodAtTransfers(t, t1, cap, i);
    } else {
      EmptyIsGood(t1, cap, i);
    }
  }

  lemma HalfIsPlaced(c: LBucket, i: nat, h1: nat, cap: nat, es: seq<Entry>, e: Entry)
    requires Half(c, i, h1, cap, es) && e in Content(c)
    ensures e in es && e.key % (2 * h1) == i
  {
    assert e in multiset(Content(c));
    assert multiset(Content(c))[e] > 0;
    assert e in multiset(es);
  }

  lemma SplitHalves(t: Table, cap: nat, b: nat)
    requires CanSplit(t, cap, b)
    ensures b < |Redistributed(t, cap, b)|
    ensures var t1, es := Flagged(t, cap, b), Content(t.buckets[b]);
      Halves(At(t1.buckets, b), At(t1.buckets, b + t.h1), Some(es), t.h1, cap, b, es)
  {
    FullBucket(t, cap, b);
    SplitSpreads(t, cap, b);
  }

  lemma HalfPlaced(t: Table, cap: nat, b: nat, i: nat)
    requires CanSplit(t, cap, b) && (i == b || i == b + t.h1) && i < |Redistributed(t, cap, b)|
    requires Half(Flagged(t, cap, b).buckets[i], i, t.h1, cap, Content(t.buckets[b]))
    ensures Shaped(Flagged(t, cap, b)) && Placed(Flagged(t, cap, b), i)
  {
    var t1 := Flagged(t, cap, b);
    AddressAfterSplit(t, cap, b, 0);
    forall e | e in Content(t1.buckets[i])
      ensures Address(t1, e.key) == i
    {
      HalfIsPlaced(t1.buckets[i], i, t.h1, cap, Content(t.buckets[b]), e);
      AddressAfterSplit(t, cap, b, e.key);
    }
  }

  lemma LowHalfGood(t: Table, cap: nat, b: nat)
    requires CanSplit(t, cap, b)
    ensures b < |Redistributed(t, cap, b)|
    ensures Shaped(Flagged(t, cap, b)) && GoodAt(Flagged(t, cap, b), cap, b)
  {
    var t1, es := Flagged(t, cap, b), Content(t.buckets[b]);
    SplitHalves(t, cap, b);
    HalfPlaced(t, cap, b, b);
    if t1.buckets[b].size == 0 {
      forall e | e in es
        ensures Address(t1, e.key) != b
      {
        AddressAfterSplit(t, cap, b, e.key);
        NotInEmptyHalf(t1.buckets[b], b, t.h1, cap, es, e);
      }
    }
  }

  lemma NotInEmptyHalf(c: LBucket, i: nat, h1: nat, cap: nat, es: seq<Entry>, e: Entry)
    requires Half(c, i, h1, cap, es) && c.size == 0 && e in es
    ensures e.key % (2 * h1) != i
  {
    if cap == 0 {
      assert Content(c) == [];
    }
    assert Content(c) == [];
    assert multiset(Content(c))[e] == 0;
    assert e in multiset(es);
    assert multiset(es)[e] > 0;
  }

  lemma HighHalfGood(t: Table, cap: nat, b: nat)
    requires CanSplit(t, cap, b) && b + t.h1 < |Redistributed(t, cap, b)|
    ensures Shaped(Flagged(t, cap, b)) && GoodAt(Flagged(t, cap, b), cap, b + t.h1)
  {
    SplitHalves(t, cap, b);
    HalfPlaced(t, cap, b, b + t.h1);
    PagelessIsGood(Flagged(t, cap, b), cap, b + t.h1);
  }

  lemma PagelessIsGood(t: Table, cap: nat, i: nat)
    requires Shaped(t) && cap > 0 && i < |t.buckets| && Whole(t.buckets[i], cap) && Placed(t, i)
    requires t.buckets[i].size < cap ==> t.buckets[i].page == None
    requires t.h1 <= i < 2 * t.h1 ==> t.flags[i - t.h1]
    ensures GoodAt(t, cap, i)
  {
  }

  lemma FlaggedGoodAt(t: Table, cap: nat, b: nat, i: nat)
    requires CanSplit(t, cap, b) && i < |Redistributed(t, cap, b)|
    ensures Shaped(Flagged(t, cap, b)) && GoodAt(Flagged(t, cap, b), cap, i)
  {
    if i == b {
      LowHalfGood(t, cap, b);
    } else if i == b + t.h1 {
      HighHalfGood(t, cap, b);
    } else {
      OthersStayGood(t, cap, b, i);
    }
  }

  /** The table is doubled exactly when it was before or an entry moves up. */
  lemma SplitWidth(t: Table, cap: nat, b: nat)
    requires CanSplit(t, cap, b)
    ensures var n := |Redistributed(t, cap, b)|;
      && (n == t.h1 || n == 2 * t.h1)
      && (n == 2 * t.h1 <==> |t.buckets| == 2 * t.h1 || exists e :: e in Content(t.buckets[b]) && e.key % (2 * t.h1) == b + t.h1)
  {
    SplitSpreads(t, cap, b);
  }

  lemma FlaggedGood(t: Table, cap: nat, b: nat)
    requires CanSplit(t, cap, b)
    ensures Good(Flagged(t, cap, b), cap)
  {
    SplitWidth(t, cap, b);
    AddressAfterSplit(t, cap, b, 0);
    forall i | 0 <= i < |Redistributed(t, cap, b)|
      ensures GoodAt(Flagged(t, cap, b), cap, i)
    {
      FlaggedGoodAt(t, cap, b, i);
    }
  }

  // ---------- the next level ----------

  /** With every bucket of a level split, doubling `h1` and `h2` and clearing the flags changes no address. */
  lemma AdvanceKeepsAddresses(t: Table, buckets: seq<LBucket>, key: nat)
    requires Shaped(t) && AllSet(t.flags, t.h1) && 2 * t.h1 <= FLAGS
    ensures Shaped(Table(buckets, 2 * t.h1, NoFlags()))
    ensures Address(Table(buckets, 2 * t.h1, NoFlags()), key) == Address(t, key)
  {
  }

  lemma AdvanceKeepsGood(t: Table, cap: nat)
    requires Good(t, cap) && AllSet(t.flags, t.h1) && 2 * t.h1 <= FLAGS && |t.buckets| == 2 * t.h1
    ensures Good(Table(t.buckets, 2 * t.h1, NoFlags()), cap)
  {
    var t1 := Table(t.buckets, 2 * t.h1, NoFlags());
    AdvanceKeepsAddresses(t, t.buckets, 0);
    forall key: nat | true
      ensures Address(t1, key) == Address(t, key)
    {
      AdvanceKeepsAddresses(t, t.buckets, key);
    }
    forall i | 0 <= i < |t.buckets|
      ensures GoodAt(t1, cap, i)
    {
      assert GoodAt(t, cap, i);
      GoodAtTransfers(t, t1, cap, i);
    }
  }

  /** After the split of any unsplit full bucket, in any order, at the end of a level too, every entry is in the bucket that `Search` addresses. */
  lemma SplitPlaces(t: Table, cap: nat, b: nat, i: nat, e: Entry)
    requires CanSplit(t, cap, b) && 2 * t.h1 <= FLAGS
    requires i < |Split(t, cap, b).buckets| && e in Content(Split(t, cap, b).buckets[i])
    ensures Shaped(Split(t, cap, b)) && Address(Split(t, cap, b), e.key) == i
  {
    var t1 := Flagged(t, cap, b);
    FlaggedGood(t, cap, b);
    assert GoodAt(t1, cap, i);
    if AllSet(t1.flags, t.h1) {
      AdvanceKeepsAddresses(t1, t1.buckets, e.key);
    }
  }

  /** The split keeps the whole invariant exactly if the level goes on or the table has been doubled in it. */
  lemma SplitGoodExactlyWhen(t: Table, cap: nat, b: nat)
    requires CanSplit(t, cap, b) && 2 * t.h1 <= FLAGS
    ensures Good(Split(t, cap, b), cap) <==>
      (AllSet(t.flags[b := true], t.h1) ==> |t.buckets| == 2 * t.h1 || exists e :: e in Content(t.buckets[b]) && e.key % (2 * t.h1) == b + t.h1)
  {
    FlaggedGood(t, cap, b);
    SplitWidth(t, cap, b);
    if AllSet(t.flags[b := true], t.h1) && |Redistributed(t, cap, b)| == 2 * t.h1 {
      AdvanceKeepsGood(Flagged(t, cap, b), cap);
    }
  }

  // ---------- a split conserves the entries ----------

  function Count(bs: seq<LBucket>, e: Entry): nat {
    if bs == [] then 0 else Count(bs[..|bs| - 1], e) + multiset(Content(bs[|bs| - 1]))[e]
  }

  lemma {:induction false} CountAfterUpdate(bs: seq<LBucket>, i: nat, c: LBucket, e: Entry)
    requires i < |bs|
    ensures Count(bs[i := c], e) == Count(bs, e) + multiset(Content(c))[e] - multiset(Content(bs[i]))[e]
    decreases |bs|
  {
    var n := |bs| - 1;
    if i < n {
      CountAfterUpdate(bs[..n], i, c, e);
      assert bs[i := c][..n] == bs[..n][i := c];
    } else {
      assert bs[i := c][..n] == bs[..n];
    }
  }

  lemma {:induction false} CountWithEmpties(bs: seq<LBucket>, n: nat, e: Entry)
    ensures Count(bs + Empties(n), e) == Count(bs, e)
    decreases n
  {
    if n == 0 {
      assert bs + Empties(0) == bs;
    } else {
      CountWithEmpties(bs, n - 1, e);
      assert (bs + Empties(n))[..|bs| + n - 1] == bs + Empties(n - 1);
    }
  }

  lemma CountPutOne(bs: seq<LBucket>, h1: nat, x: Entry, cap: nat, e: Entry)
    requires 0 < h1 <= |bs| && var c := At(bs, x.key % (2 * h1)); Whole(c, cap) && c.size < cap
    ensures Count(PutOne(bs, h1, x, cap), e) == Count(bs, e) + if x == e then 1 else 0
  {
    var i := x.key % (2 * h1);
    var wide := if i >= |bs| then bs + Empties(h1) else bs;
    CountWithEmpties(bs, h1, e);
    PutInAddsOne(wide[i], x, cap, e);
    CountAfterUpdate(wide, i, PutIn(wide[i], x, cap), e);
  }

  lemma CountSpreadOne(bs: seq<LBucket>, was: seq<LBucket>, h1: nat, cap: nat, b: nat, es: seq<Entry>, x: Entry, e: Entry)
    requires Spread(bs, was, h1, cap, b, es) && x.key % h1 == b && |es| < cap
    ensures Count(PutOne(bs, h1, x, cap), e) == Count(bs, e) + if x == e then 1 else 0
  {
    HalvesOfRemainder(x.key, h1, 2 * h1);
    CountPutOne(bs, h1, x, cap, e);
  }

  lemma {:induction false} CountPutAll(was: seq<LBucket>, h1: nat, cap: nat, b: nat, es: seq<Entry>, e: Entry)
    requires b < h1 && (|was| == h1 || |was| == 2 * h1) && cap > 0 && |es| <= cap
    requires was[b].size == 0 && was[b].bucket == [] && At(was, b + h1) == EmptyBucket
    requires forall x :: x in es ==> x.key % h1 == b
    ensures Count(PutAll(was, h1, es, cap), e) == Count(was, e) + multiset(es)[e]
    decreases |es|
  {
    if es != [] {
      var n := |es| - 1;
      var x := es[n];
      assert es == es[..n] + [x];
      CountPutAll(was, h1, cap, b, es[..n], e);
      SpreadAll(was, h1, cap, b, es[..n]);
      CountSpreadOne(PutAll(was, h1, es[..n], cap), was, h1, cap, b, es[..n], x, e);
    }
  }

  lemma SplitConserves(t: Table, cap: nat, b: nat, e: Entry)
    requires CanSplit(t, cap, b)
    ensures Count(Split(t, cap, b).buckets, e) == Count(t.buckets, e)
  {
    FullBucket(t, cap, b);
    CountRedistributed(t.buckets, t.h1, cap, b, Content(t.buckets[b]), e);
  }

  lemma CountRedistributed(bs: seq<LBucket>, h1: nat, cap: nat, b: nat, es: seq<Entry>, e: Entry)
    requires b < h1 && (|bs| == h1 || |bs| == 2 * h1) && cap > 0 && es == Content(bs[b]) && |es| <= cap
    requires At(bs, b + h1) == EmptyBucket && forall x :: x in es ==> x.key % h1 == b
    ensures Count(PutAll(bs[b := Erased(bs[b])], h1, es, cap), e) == Count(bs, e)
  {
    var was := bs[b := Erased(bs[b])];
    assert At(was, b + h1) == At(bs, b + h1);
    CountAfterUpdate(bs, b, Erased(bs[b]), e);
    CountPutAll(was, h1, cap, b, es, e);
  }

  // ---------- search ----------

  /** Where `BucketRetrival` looks: in memory, or on the page when nothing is in memory. */
  function Searched(b: LBucket): seq<Entry> {
    if b.bucket != [] then b.bucket else if b.page.Some? then b.page.value else []
  }

  ghost predicate Stored(t: Table, key: nat) {
    exists i, e :: 0 <= i < |t.buckets| && e in Content(t.buckets[i]) && e.key == key
  }

  /** The addressed bucket is looked into and the key is there. */
  ghost predicate Finds(t: Table, key: nat)
    requires 0 < t.h1 <= |t.flags| && Address(t, key) < |t.buckets|
  {
    exists e :: e in Searched(t.buckets[Address(t, key)]) && e.key == key
  }

  /** Looking at the one addressed bucket finds exactly the stored keys; old pages do no harm. */
  lemma SearchIsExact(t: Table, cap: nat, key: nat)
    requires Good(t, cap) && Address(t, key) < |t.buckets|
    ensures Finds(t, key) <==> Stored(t, key)
  {
    var a := Address(t, key);
    assert GoodAt(t, cap, a);
    if Stored(t, key) {
      var i, e :| 0 <= i < |t.buckets| && e in Content(t.buckets[i]) && e.key == key;
      assert GoodAt(t, cap, i);
      assert i == a;
    }
  }

  ghost predicate SearchInRange(t: Table)
    requires Shaped(t)
  {
    forall key :: Address(t, key) < |t.buckets|
  }

  /** The table is doubled late: a search can leave it exactly while a bucket is flagged and no entry has moved up yet. */
  lemma InRangeExactlyWhen(t: Table)
    requires Shaped(t) && (|t.buckets| == t.h1 || |t.buckets| == 2 * t.h1)
    ensures SearchInRange(t) <==> |t.buckets| == 2 * t.h1 || t.flags == NoFlags()
  {
    if |t.buckets| == t.h1 && t.flags != NoFlags() {
      var b :| 0 <= b < t.h1 && t.flags[b];
      UpperKey(b, t.h1);
      assert Address(t, b + t.h1) == b + t.h1;
    }
  }

  lemma UpperKey(b: nat, h1: nat)
    requires b < h1
    ensures (b + h1) % h1 == b && (b + h1) % (2 * h1) == b + h1
  {
    Quotient(b + h1, h1, 1, b);
    Quotient(b + h1, 2 * h1, 0, b + h1);
  }

  /** After a split every search stays in the table exactly if the table was doubled before or some entry moves up. */
  lemma SplitStaysInRange(t: Table, cap: nat, b: nat)
    requires CanSplit(t, cap, b) && 2 * t.h1 <= FLAGS
    ensures Shaped(Split(t, cap, b))
    ensures SearchInRange(Split(t, cap, b)) <==>
      |t.buckets| == 2 * t.h1 || exists e :: e in Content(t.buckets[b]) && e.key % (2 * t.h1) == b + t.h1
  {
    var t1, t2 := Flagged(t, cap, b), Split(t, cap, b);
    SplitWidth(t, cap, b);
    AddressAfterSplit(t, cap, b, 0);
    forall key: nat | true
      ensures Shaped(t2) && Address(t2, key) == Address(t1, key)
    {
      if AllSet(t1.flags, t.h1) {
        AdvanceKeepsAddresses(t1, t1.buckets, key);
      }
    }
    UpperKey(b, t.h1);
    assert Address(t1, b + t.h1) == b + t.h1;
  }

  // ---------- merge ----------

  function PutEach(c: LBucket, es: seq<Entry>, cap: nat): LBucket {
    if es == [] then c else PutIn(PutEach(c, es[..|es| - 1], cap), es[|es| - 1], cap)
  }

  lemma {:induction false} PutEachAdds(c: LBucket, es: seq<Entry>, cap: nat, e: Entry)
    requires Whole(c, cap) && c.size + |es| <= cap
    ensures var r := PutEach(c, es, cap);
      && Whole(r, cap) && r.size == c.size + |es|
      && multiset(Content(r))[e] == multiset(Content(c))[e] + multiset(es)[e]
      && (r.size < cap ==> r.page == c.page)
    decreases |es|
  {
    if es != [] {
      var n := |es| - 1;
      PutEachAdds(c, es[..n], cap, e);
      PutInAddsOne(PutEach(c, es[..n], cap), es[n], cap, e);
      assert es == es[..n] + [es[n]];
    }
  }

  /** Both halves exist. */
  ghost predicate Halved(t: Table, b: nat) {
    b < t.h1 <= |t.flags| && |t.buckets| == 2 * t.h1
  }

  ghost predicate CanMerge(t: Table, cap: nat, b: nat) {
    Good(t, cap) && Halved(t, b) && t.flags[b] && t.buckets[b].size + t.buckets[b + t.h1].size <= cap
  }

  /** The merge in `Delete`: what the upper half has in memory goes back, the upper half becomes new. */
  ghost function Merged(t: Table, cap: nat, b: nat): Table
    requires Halved(t, b)
  {
    Table(t.buckets[b + t.h1 := EmptyBucket][b := PutEach(t.buckets[b], t.buckets[b + t.h1].bucket, cap)],
          t.h1, t.flags[b := false])
  }

  lemma AddressAfterMerge(t: Table, cap: nat, b: nat, key: nat)
    requires CanMerge(t, cap, b)
    ensures Shaped(Merged(t, cap, b))
    ensures Address(Merged(t, cap, b), key) == if key % t.h1 == b then b else Address(t, key)
    ensures key % t.h1 == b <==> Address(t, key) == b || Address(t, key) == b + t.h1
  {
    HalvesOfRemainder(key, t.h1, 2 * t.h1);
  }

  lemma MergedOtherGood(t: Table, cap: nat, b: nat, i: nat)
    requires CanMerge(t, cap, b) && i < |t.buckets| && i != b
    ensures Shaped(Merged(t, cap, b)) && GoodAt(Merged(t, cap, b), cap, i)
  {
    var t1 := Merged(t, cap, b);
    AddressAfterMerge(t, cap, b, 0);
    if i == b + t.h1 {
      EmptyIsGood(t1, cap, i);
    } else {
      forall key: nat | true
        ensures Address(t1, key) == i <==> Address(t, key) == i
      {
        AddressAfterMerge(t, cap, b, key);
      }
      assert GoodAt(t, cap, i);
      GoodAtTransfers(t, t1, cap, i);
    }
  }

  lemma InMemory(t: Table, cap: nat, i: nat)
    requires Good(t, cap) && i < |t.buckets|
    ensures t.buckets[i].size < cap ==> Content(t.buckets[i]) == t.buckets[i].bucket && |t.buckets[i].bucket| == t.buckets[i].size
    ensures |t.buckets[i].bucket| <= t.buckets[i].size && |Content(t.buckets[i])| == t.buckets[i].size
    ensures Whole(t.buckets[i], cap) && Placed(t, i)
  {
    assert GoodAt(t, cap, i);
  }

  /** The bucket that the merge fills. */
  lemma MergedBucket(t: Table, cap: nat, b: nat, e: Entry)
    requires CanMerge(t, cap, b)
    ensures var low, data, m := t.buckets[b], t.buckets[b + t.h1].bucket, Merged(t, cap, b).buckets[b];
      && Whole(m, cap) && m.size == low.size + |data| && (m.size < cap ==> m.page == low.page)
      && multiset(Content(m))[e] == multiset(Content(low))[e] + multiset(data)[e]
  {
    var data := t.buckets[b + t.h1].bucket;
    CanPutEach(t, cap, b);
    assert Merged(t, cap, b).buckets[b] == PutEach(t.buckets[b], data, cap);
    PutEachAdds(t.buckets[b], data, cap, e);
  }

  lemma CanPutEach(t: Table, cap: nat, b: nat)
    requires CanMerge(t, cap, b)
    ensures Whole(t.buckets[b], cap) && t.buckets[b].size + |t.buckets[b + t.h1].bucket| <= cap
  {
    InMemory(t, cap, b);
    InMemory(t, cap, b + t.h1);
  }

  lemma InHalves(t: Table, cap: nat, b: nat, e: Entry)
    requires CanMerge(t, cap, b) && e in Content(Merged(t, cap, b).buckets[b])
    ensures e in Content(t.buckets[b]) || e in Content(t.buckets[b + t.h1])
  {
    MergedBucket(t, cap, b, e);
    InMemory(t, cap, b + t.h1);
    assert multiset(Content(Merged(t, cap, b).buckets[b]))[e] > 0;
    if multiset(t.buckets[b + t.h1].bucket)[e] > 0 {
      assert e in t.buckets[b + t.h1].bucket;
    } else {
      assert e in multiset(Content(t.buckets[b]));
    }
  }

  lemma MergedPlaced(t: Table, cap: nat, b: nat)
    requires CanMerge(t, cap, b)
    ensures Shaped(Merged(t, cap, b)) && Placed(Merged(t, cap, b), b)
  {
    AddressAfterMerge(t, cap, b, 0);
    forall e | e in Content(Merged(t, cap, b).buckets[b])
      ensures Address(Merged(t, cap, b), e.key) == b
    {
      InHalves(t, cap, b, e);
      FromHalves(t, cap, b, e);
    }
  }

  lemma FromHalves(t: Table, cap: nat, b: nat, e: Entry)
    requires CanMerge(t, cap, b) && (e in Content(t.buckets[b]) || e in Content(t.buckets[b + t.h1]))
    ensures Shaped(Merged(t, cap, b)) && Address(Merged(t, cap, b), e.key) == b
  {
    InMemory(t, cap, b);
    InMemory(t, cap, b + t.h1);
    AddressAfterMerge(t, cap, b, e.key);
  }

  /** The merge leaves an entry in the bucket, or the bucket has no page, or none of its old page's keys belongs there. */
  ghost predicate MergeSafe(t: Table, b: nat)
    requires Halved(t, b)
  {
    || t.buckets[b].size > 0 || t.buckets[b + t.h1].bucket != [] || t.buckets[b].page == None
    || forall e :: e in t.buckets[b].page.value ==> e.key % t.h1 != b
  }

  lemma MergedBucketGood(t: Table, cap: nat, b: nat)
    requires CanMerge(t, cap, b)
    ensures Shaped(Merged(t, cap, b)) && (GoodAt(Merged(t, cap, b), cap, b) <==> MergeSafe(t, b))
  {
    var t1 := Merged(t, cap, b);
    AddressAfterMerge(t, cap, b, 0);
    MergedPlaced(t, cap, b);
    MergedBucket(t, cap, b, Entry(0, 0));
    if t1.buckets[b].size == 0 {
      MergedFromNothing(t, cap, b);
      StaleAfterMerge(t, cap, b);
    }
  }

  lemma MergedFromNothing(t: Table, cap: nat, b: nat)
    requires CanMerge(t, cap, b) && t.buckets[b].size == 0 && t.buckets[b + t.h1].bucket == []
    ensures Merged(t, cap, b).buckets[b] == t.buckets[b]
  {
  }

  lemma StaleAfterMerge(t: Table, cap: nat, b: nat)
    requires CanMerge(t, cap, b) && t.buckets[b].size == 0 && t.buckets[b + t.h1].bucket == []
    ensures Shaped(Merged(t, cap, b)) && (NoStale(Merged(t, cap, b), b) <==> MergeSafe(t, b))
  {
    var t1 := Merged(t, cap, b);
    AddressAfterMerge(t, cap, b, 0);
    MergedFromNothing(t, cap, b);
    forall key: nat | true
      ensures Address(t1, key) == b <==> key % t.h1 == b
    {
      AddressAfterMerge(t, cap, b, key);
    }
  }

  /** A merge keeps the invariant exactly if it leaves no empty bucket over an old page with keys that now belong there. */
  lemma MergeGoodExactlyWhen(t: Table, cap: nat, b: nat)
    requires CanMerge(t, cap, b)
    ensures Good(Merged(t, cap, b), cap) <==> MergeSafe(t, b)
  {
    AddressAfterMerge(t, cap, b, 0);
    MergedBucketGood(t, cap, b);
    forall i | 0 <= i < |Merged(t, cap, b).buckets| && i != b
      ensures GoodAt(Merged(t, cap, b), cap, i)
    {
      MergedOtherGood(t, cap, b, i);
    }
  }

  /** After a merge that does not, a search finds a key that is stored nowhere. */
  lemma MergeRevives(t: Table, cap: nat, b: nat, e: Entry)
    requires CanMerge(t, cap, b) && t.buckets[b].size == 0 && t.buckets[b + t.h1].bucket == []
    requires t.buckets[b].page.Some? && e in t.buckets[b].page.value && e.key % t.h1 == b
    ensures var t1 := Merged(t, cap, b);
      Shaped(t1) && Address(t1, e.key) < |t1.buckets| && Finds(t1, e.key) && !Stored(t1, e.key)
  {
    var t1 := Merged(t, cap, b);
    AddressAfterMerge(t, cap, b, e.key);
    MergedFromNothing(t, cap, b);
    InMemory(t, cap, b);
    assert e in Searched(t1.buckets[b]);
    forall i, x | 0 <= i < |t1.buckets| && x in Content(t1.buckets[i])
      ensures x.key != e.key
    {
      if i != b {
        MergedOtherGood(t, cap, b, i);
      }
    }
  }

  /** A merge conserves the entries exactly when the upper half is not on its page. */
  lemma MergeConservesExactlyWhen(t: Table, cap: nat, b: nat)
    requires CanMerge(t, cap, b)
    ensures (forall e :: Count(Merged(t, cap, b).buckets, e) == Count(t.buckets, e)) <==> t.buckets[b + t.h1].size < cap
  {
    var high := t.buckets[b + t.h1];
    InMemory(t, cap, b + t.h1);
    if high.size < cap {
      forall e | true
        ensures Count(Merged(t, cap, b).buckets, e) == Count(t.buckets, e)
      {
        MergeCount(t, cap, b, e);
      }
    } else {
      MergeLoses(t, cap, b);
    }
  }

  /** `GetBucket` returns nothing for a bucket on its page, so its entries are lost. */
  lemma MergeLoses(t: Table, cap: nat, b: nat)
    requires CanMerge(t, cap, b) && t.buckets[b + t.h1].size == cap
    ensures exists e :: Count(Merged(t, cap, b).buckets, e) < Count(t.buckets, e)
  {
    var high := t.buckets[b + t.h1];
    InMemory(t, cap, b + t.h1);
    assert GoodAt(t, cap, b + t.h1);
    assert high.bucket == [] && Content(high) != [];
    var e := Content(high)[0];
    assert e in multiset(Content(high));
    MergeCount(t, cap, b, e);
  }

  lemma MergeCount(t: Table, cap: nat, b: nat, e: Entry)
    requires CanMerge(t, cap, b)
    ensures Count(Merged(t, cap, b).buckets, e) + multiset(Content(t.buckets[b + t.h1]))[e]
      == Count(t.buckets, e) + multiset(t.buckets[b + t.h1].bucket)[e]
  {
    var m := Merged(t, cap, b).buckets[b];
    MergedBucket(t, cap, b, e);
    MergedBuckets(t, cap, b);
    CountAfterMerge(t.buckets, b + t.h1, b, m, e);
  }

  lemma MergedBuckets(t: Table, cap: nat, b: nat)
    requires Halved(t, b)
    ensures var bs := Merged(t, cap, b).buckets;
      |bs| == |t.buckets| && bs == t.buckets[b + t.h1 := EmptyBucket][b := bs[b]]
  {
  }

  lemma CountAfterMerge(bs: seq<LBucket>, i: nat, j: nat, m: LBucket, e: Entry)
    requires i < |bs| && j < |bs| && i != j
    requires multiset(Content(m))[e] == multiset(Content(bs[j]))[e] + multiset(bs[i].bucket)[e]
    ensures Count(bs[i := EmptyBucket][j := m], e) + multiset(Content(bs[i]))[e] == Count(bs, e) + multiset(bs[i].bucket)[e]
  {
    CountAfterTwo(bs, i, EmptyBucket, j, m, e);
  }

  lemma CountAfterTwo(bs: seq<LBucket>, i: nat, c: LBucket, j: nat, d: LBucket, e: Entry)
    requires i < |bs| && j < |bs| && i != j
    ensures Count(bs[i := c][j := d], e) + multiset(Content(bs[i]))[e] + multiset(Content(bs[j]))[e]
      == Count(bs, e) + multiset(Content(c))[e] + multiset(Content(d))[e]
  {
    CountAfterUpdate(bs, i, c, e);
    CountAfterUpdate(bs[i := c], j, d, e);
  }

  lemma MergedOthers(t: Table, cap: nat, b: nat, i: nat)
    requires CanSplit(t, cap, b) && |Redistributed(t, cap, b)| == 2 * t.h1 && i < 2 * t.h1 && i != b
    ensures Redistributed(t, cap, b)[b + t.h1 := EmptyBucket][i] == At(t.buckets, i)
  {
    if i != b + t.h1 {
      OthersUnchanged(t, cap, b, i);
    } else {
      FullBucket(t, cap, b);
    }
  }

  lemma HalvesTogether(low: LBucket, high: LBucket, page: Option<seq<Entry>>, h1: nat, cap: nat, b: nat, es: seq<Entry>, e: Entry)
    requires b < h1 && Halves(low, high, page, h1, cap, b, es) && forall x :: x in es ==> x.key % h1 == b
    ensures multiset(Content(low))[e] + multiset(Content(high))[e] == multiset(es)[e]
  {
    if e in es {
      HalvesOfRemainder(e.key, h1, 2 * h1);
    } else {
      assert e !in multiset(es);
    }
  }

  /** Right after a split the halves can be merged. */
  lemma SplitCanMerge(t: Table, cap: nat, b: nat)
    requires CanSplit(t, cap, b) && |Redistributed(t, cap, b)| == 2 * t.h1
    ensures CanMerge(Flagged(t, cap, b), cap, b)
  {
    FlaggedGood(t, cap, b);
    SplitHalves(t, cap, b);
    FullBucket(t, cap, b);
  }

  lemma SplitTogether(t: Table, cap: nat, b: nat, e: Entry)
    requires CanSplit(t, cap, b) && |Redistributed(t, cap, b)| == 2 * t.h1
    ensures var r := Redistributed(t, cap, b);
      && r[b].size + r[b + t.h1].size == cap
      && multiset(Content(r[b]))[e] + multiset(Content(r[b + t.h1]))[e] == multiset(Content(t.buckets[b]))[e]
  {
    var r, es := Redistributed(t, cap, b), Content(t.buckets[b]);
    SplitHalves(t, cap, b);
    FullBucket(t, cap, b);
    HalvesTogether(r[b], r[b + t.h1], Some(es), t.h1, cap, b, es, e);
  }

  lemma HighInMemory(t: Table, cap: nat, b: nat, e: Entry)
    requires CanSplit(t, cap, b) && |Redistributed(t, cap, b)| == 2 * t.h1 && Redistributed(t, cap, b)[b + t.h1].size < cap
    ensures var r := Redistributed(t, cap, b);
      && r[b].size + |r[b + t.h1].bucket| == cap
      && multiset(Content(r[b]))[e] + multiset(r[b + t.h1].bucket)[e] == multiset(Content(t.buckets[b]))[e]
  {
    FlaggedGood(t, cap, b);
    InMemory(Flagged(t, cap, b), cap, b + t.h1);
    SplitTogether(t, cap, b, e);
  }

  lemma MergedBack(t: Table, cap: nat, b: nat, e: Entry)
    requires CanSplit(t, cap, b) && |Redistributed(t, cap, b)| == 2 * t.h1 && Redistributed(t, cap, b)[b + t.h1].size < cap
    ensures CanMerge(Flagged(t, cap, b), cap, b)
    ensures var m := Merged(Flagged(t, cap, b), cap, b).buckets[b];
      m.size == cap && multiset(Content(m))[e] == multiset(Content(t.buckets[b]))[e]
  {
    SplitCanMerge(t, cap, b);
    HighInMemory(t, cap, b, e);
    MergedCounts(Flagged(t, cap, b), cap, b, e, multiset(Content(t.buckets[b]))[e]);
  }

  lemma MergedCounts(t: Table, cap: nat, b: nat, e: Entry, n: nat)
    requires CanMerge(t, cap, b) && t.buckets[b].size + |t.buckets[b + t.h1].bucket| == cap
    requires multiset(Content(t.buckets[b]))[e] + multiset(t.buckets[b + t.h1].bucket)[e] == n
    ensures var m := Merged(t, cap, b).buckets[b]; m.size == cap && multiset(Content(m))[e] == n
  {
    MergedBucket(t, cap, b, e);
  }

  lemma MergeUndoesFlagged(t: Table, cap: nat, b: nat)
    requires CanSplit(t, cap, b)
    requires |Redistributed(t, cap, b)| == 2 * t.h1 && Redistributed(t, cap, b)[b + t.h1].size < cap
    ensures CanMerge(Flagged(t, cap, b), cap, b)
    ensures var t2 := Merged(Flagged(t, cap, b), cap, b);
      && t2.h1 == t.h1 && t2.flags == t.flags && |t2.buckets| == 2 * t.h1
      && t2.buckets[b].size == cap && multiset(Content(t2.buckets[b])) == multiset(Content(t.buckets[b]))
      && (forall i :: 0 <= i < |t2.buckets| && i != b ==> t2.buckets[i] == At(t.buckets, i))
  {
    SplitCanMerge(t, cap, b);
    MergedBack(t, cap, b, Entry(0, 0));
    var t2 := Merged(Flagged(t, cap, b), cap, b);
    assert t2.flags == t.flags;
    forall i | 0 <= i < |t2.buckets| && i != b
      ensures t2.buckets[i] == At(t.buckets, i)
    {
      MergedOthers(t, cap, b, i);
    }
    forall e | true
      ensures multiset(Content(t2.buckets[b]))[e] == multiset(Content(t.buckets[b]))[e]
    {
      MergedBack(t, cap, b, e);
    }
  }

  /** Merging right after a split that left the upper half in memory restores flags, buckets and entries. */
  lemma MergeUndoesSplit(t: Table, cap: nat, b: nat)
    requires CanSplit(t, cap, b) && !AllSet(t.flags[b := true], t.h1)
    requires |Redistributed(t, cap, b)| == 2 * t.h1 && Redistributed(t, cap, b)[b + t.h1].size < cap
    ensures CanMerge(Split(t, cap, b), cap, b)
    ensures var t2 := Merged(Split(t, cap, b), cap, b);
      && t2.h1 == t.h1 && t2.flags == t.flags && |t2.buckets| == 2 * t.h1
      && t2.buckets[b].size == cap && multiset(Content(t2.buckets[b])) == multiset(Content(t.buckets[b]))
      && (forall i :: 0 <= i < |t2.buckets| && i != b ==> t2.buckets[i] == At(t.buckets, i))
  {
    MergeUndoesFlagged(t, cap, b);
    assert Split(t, cap, b) == Flagged(t, cap, b);
  }
}
