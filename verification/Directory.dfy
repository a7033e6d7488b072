/** The directory of the extendible hash: slots that share buckets, doubled on demand. */
module ExtendibleDirectory {
  import opened Bits
  import opened Entries
  import opened Aliasing
  import opened Partition
  import opened PageStore
  import opened ExtendibleBucket

  class Directory {
    var global_depth: nat
    const bucket_size: nat
    var buckets: seq<ExBucket>
    const store: Store
    const D: nat                       // keys are below 1 << D

    // what the proofs keep beside the program's fields
    ghost var depths: seq<nat>         // local depth per slot
    ghost var Contents: Items          // the stored map
    ghost var Ever: set<nat>           // every key ever inserted
    ghost var base: nat                // sectors that belong to no live bucket

    /** `over` is the bucket whose depth `split` has already increased, when there is one. */
    ghost predicate BucketAt(i: nat, over: ExBucket? := null)
      requires i < |buckets| == |depths|
      reads this, buckets, store
    {
      && buckets[i].store == store && buckets[i].maxsize == bucket_size
      && buckets[i].Valid()
      && depths[i] <= D
      && buckets[i].depth == depths[i] + (if buckets[i] == over then 1 else 0)
      && (buckets[i].PageNum.Some? ==> ToMap(buckets[i].OwnPage()).Keys <= Ever)
    }

    ghost predicate OwnPages(i: nat, j: nat)
      requires i < |buckets| && j < |buckets|
      reads this, buckets
    {
      buckets[i] != buckets[j] && buckets[i].PageNum.Some? ==> buckets[i].PageNum != buckets[j].PageNum
    }

    /** The buckets that have a page. */
    ghost function Paged(): set<ExBucket>
      reads this, buckets
    {
      set i | 0 <= i < |buckets| && buckets[i].PageNum.Some? :: buckets[i]
    }

    /** Slots share buckets as their bits say, and the buckets are well formed with a page each at most. */
    ghost predicate Linked(over: ExBucket? := null)
      reads this, buckets, store
    {
      && store.Valid() && 2 <= bucket_size == store.capacity
      && D <= 30 && global_depth <= D
      && Aliased(buckets, depths, global_depth)
      && (forall i :: 0 <= i < |buckets| ==> BucketAt(i, over))
      && (forall i, j :: 0 <= i < |buckets| && 0 <= j < |buckets| ==> OwnPages(i, j))
    }

    /** No page was handed out that no bucket has. */
    ghost predicate Frugal()
      reads this, buckets, store
    {
      store.sectorpointer <= base + WS_MIN * |Paged()|
    }

    ghost function ItemsBySlot(over: ExBucket? := null): (r: seq<Items>)
      requires Linked(over)
      reads this, buckets, store
      ensures |r| == |buckets|
      ensures forall i :: 0 <= i < |r| ==> BucketAt(i, over) && r[i] == buckets[i].Items()
    {
      seq(|buckets|, i requires 0 <= i < |buckets| && Linked(over) && BucketAt(i, over) reads this, buckets, store => buckets[i].Items())
    }

    ghost predicate Valid(over: ExBucket? := null)
      reads this, buckets, store
    {
      && Linked(over)
      && Partitioned(ItemsBySlot(over), depths, Contents)
      && (forall k :: k in Contents ==> k < Pow2(D))
      && Contents.Keys <= Ever
    }

    /** `n & ((1 << global_depth) - 1)` */
    function Hash(n: nat): nat
      reads this
    {
      Low(n, global_depth)
    }

    /** `bucket_no ^ (1 << (depth - 1))` */
    function PairIndex(bucket_no: nat, depth: nat): nat
      requires depth > 0
    {
      Flip(bucket_no, depth - 1)
    }

    constructor (depth: nat, bucket_size: nat, store: Store, D: nat)
      requires depth <= D <= 30
      requires store.Valid() && 2 <= bucket_size == store.capacity
      ensures Valid() && Contents == map[] && Ever == {} && global_depth == depth && base == store.sectorpointer
      ensures this.store == store && this.bucket_size == bucket_size && this.D == D
      ensures fresh(buckets) && forall i :: 0 <= i < |buckets| ==> buckets[i].PageNum == None
    {
      global_depth, this.bucket_size, this.store, this.D := depth, bucket_size, store, D;
      buckets, depths, Contents, Ever, base := [], [], map[], {}, store.sectorpointer;
      new;
      var i := 0;
      var n := Pow2(depth);
      while i < n
        invariant i <= n && |buckets| == |depths| == i && fresh(buckets)
        invariant Contents == map[] && Ever == {} && global_depth == depth && base == store.sectorpointer
        invariant forall j :: 0 <= j < i ==> buckets[j].PageNum == None && BucketAt(j) && buckets[j].Items() == map[]
        invariant forall j :: 0 <= j < i ==> depths[j] == depth
        invariant forall j, k :: 0 <= j < k < i ==> buckets[j] != buckets[k]
      {
        var b := new ExBucket(depth, bucket_size, store);
        buckets := buckets + [b];
        depths := depths + [depth];
        i := i + 1;
      }
      forall j, k | 0 <= j < |buckets| && 0 <= k < |buckets|
        ensures SharesAsBits(buckets, depths, j, k)
      {
        LowBounds(j, depth);
        LowBounds(k, depth);
      }
    }

    /** The local depth of the bucket that a key is hashed to, and whether that bucket is full. */
    ghost function TargetDepth(key: nat): nat
      requires Linked()
      reads this, buckets, store
    {
      LowBounds(key, global_depth);
      depths[Hash(key)]
    }

    ghost predicate TargetFull(key: nat)
      requires Linked()
      reads this, buckets, store
    {
      LowBounds(key, global_depth);
      buckets[Hash(key)].IsFull()
    }

    /** A bound on the fresh pages that inserting `key` takes. */
    ghost function PagesNeeded(key: nat): nat
      requires Linked()
      reads this, buckets, store
    {
      LowBounds(key, global_depth);
      assert BucketAt(Hash(key));
      if TargetFull(key) then D - TargetDepth(key) + 1 else 1
    }

    /** What the recursion of `insert` and `split` decreases. */
    ghost function Rank(key: nat): nat
      requires Linked()
      reads this, buckets, store
    {
      LowBounds(key, global_depth);
      assert BucketAt(Hash(key));
      if TargetFull(key) then 2 * (D - TargetDepth(key)) + 2 else 0
    }

    /** When one bucket changed, and with it at most its own page, the other slots are as before. */
    twostate lemma OneBucketChanged(s: nat)
      requires old(Linked())
      requires buckets == old(buckets) && depths == old(depths) && global_depth == old(global_depth)
      requires s < |buckets| && BucketAt(s) && store.Valid() && old(Ever) <= Ever
      requires forall i :: 0 <= i < |buckets| && buckets[i] != buckets[s] ==> unchanged(buckets[i])
      requires ExBucket.OnlyPage(old(store.media), store.media, buckets[s].PageNum)
      requires buckets[s].PageNum != old(buckets[s].PageNum) ==>
        buckets[s].PageNum.Some? && Dev2Gen(buckets[s].PageNum.value) !in old(store.media)
      ensures Linked()
      ensures forall i :: 0 <= i < |buckets| && buckets[i] != buckets[s] ==> ItemsBySlot()[i] == old(ItemsBySlot()[i])
      ensures forall i :: 0 <= i < |buckets| && buckets[i] == buckets[s] ==> ItemsBySlot()[i] == buckets[s].Items()
    {
      forall i | 0 <= i < |buckets| && buckets[i] != buckets[s]
        ensures BucketAt(i) && buckets[i].Items() == old(ItemsBySlot()[i])
      {
        assert old(BucketAt(i)) && old(OwnPages(i, s));
        buckets[i].Unaffected(buckets[s].PageNum);
      }
      forall i | 0 <= i < |buckets| && buckets[i] == buckets[s]
        ensures BucketAt(i)
      {
        assert SharesAsBits(buckets, depths, i, s);
      }
      forall i, j | 0 <= i < |buckets| && 0 <= j < |buckets|
        ensures OwnPages(i, j)
      {
        assert old(OwnPages(i, j)) && old(BucketAt(i)) && old(BucketAt(j));
      }
    }

    twostate lemma PagedAfterPut(s: nat)
      requires buckets == old(buckets) && base == old(base) && s < |buckets|
      requires forall i :: 0 <= i < |buckets| && buckets[i] != buckets[s] ==> unchanged(buckets[i])
      requires old(buckets[s].PageNum).Some? ==> buckets[s].PageNum.Some?
      requires store.sectorpointer <= old(store.sectorpointer)
        || (old(buckets[s].PageNum).None? && buckets[s].PageNum.Some? && store.sectorpointer <= old(store.sectorpointer) + WS_MIN)
      ensures old(Frugal()) ==> Frugal()
    {
      SubsetSize(old(Paged()), Paged());
      if old(buckets[s].PageNum).None? && buckets[s].PageNum.Some? {
        assert Paged() == old(Paged()) + {buckets[s]};
      }
    }

    /** Nothing loses its page when slots are doubled or redirected to a newcomer. */
    twostate lemma PagedKept()
      requires base == old(base) && store.sectorpointer == old(store.sectorpointer)
      requires forall i :: 0 <= i < |old(buckets)| && old(buckets[i].PageNum).Some? ==>
        old(buckets[i]) in buckets && old(buckets[i]).PageNum.Some?
      ensures old(Frugal()) ==> Frugal()
    {
      SubsetSize(old(Paged()), Paged());
    }

    /** The page that the bucket at slot `i` has, with its contents, current or old. */
    ghost function PageAt(i: nat): Option<(nat, Page)>
      requires i < |buckets| == |depths| && BucketAt(i)
      reads this, buckets, store
    {
      if buckets[i].PageNum.None? then None else Some((buckets[i].PageNum.value, buckets[i].OwnPage()))
    }

    /** When one bucket changed, the others have their pages as before. */
    twostate lemma OtherPages(s: nat)
      requires old(Linked()) && Linked()
      requires buckets == old(buckets) && depths == old(depths) && s < |buckets|
      requires forall i :: 0 <= i < |buckets| && buckets[i] != buckets[s] ==> unchanged(buckets[i])
      requires ExBucket.OnlyPage(old(store.media), store.media, buckets[s].PageNum)
      ensures forall i :: 0 <= i < |buckets| && buckets[i] != buckets[s] ==>
        old(BucketAt(i)) && BucketAt(i) && PageAt(i) == old(PageAt(i))
    {
      forall i | 0 <= i < |buckets| && buckets[i] != buckets[s]
        ensures old(BucketAt(i)) && BucketAt(i) && PageAt(i) == old(PageAt(i))
      {
        assert old(BucketAt(i)) && BucketAt(i) && OwnPages(i, s);
        buckets[i].Unaffected(buckets[s].PageNum);
      }
    }

    /** The branch of `insert` on a bucket with room left. */
    method PutInto(bucket_no: nat, key: nat, value: nat)
      requires Valid() && key < Pow2(D) && bucket_no == Hash(key)
      requires bucket_no < |buckets| && !buckets[bucket_no].IsFull() && store.Room(1)
      modifies this`Contents, this`Ever, buckets[bucket_no], store
      ensures Valid() && Contents == old(Contents)[key := value] && Ever == old(Ever) + {key}
      ensures old(Frugal()) ==> Frugal()
      ensures !buckets[bucket_no].IsFull() ==> store.sectorpointer == old(store.sectorpointer)
      ensures store.sectorpointer <= old(store.sectorpointer) + WS_MIN
      ensures forall i :: 0 <= i < |buckets| && (buckets[i] != buckets[bucket_no] || !buckets[bucket_no].IsFull()) ==>
        old(BucketAt(i)) && BucketAt(i) && PageAt(i) == old(PageAt(i))
    {
      StoreAt(bucket_no, key, value);
      PutKeepsPartition(buckets, old(ItemsBySlot()), ItemsBySlot(), depths, global_depth, old(Contents), key, value);
    }

    /** The bucket takes the entry; the other slots keep their items and pages. */
    method StoreAt(bucket_no: nat, key: nat, value: nat)
      requires Valid() && bucket_no < |buckets| && !buckets[bucket_no].IsFull() && store.Room(1)
      modifies this`Contents, this`Ever, buckets[bucket_no], store
      ensures Linked() && Contents == old(Contents)[key := value] && Ever == old(Ever) + {key}
      ensures forall i :: 0 <= i < |buckets| && buckets[i] != buckets[bucket_no] ==> ItemsBySlot()[i] == old(ItemsBySlot()[i])
      ensures forall i :: 0 <= i < |buckets| && buckets[i] == buckets[bucket_no] ==>
        ItemsBySlot()[i] == Put(old(ItemsBySlot()[bucket_no]), key, value)
      ensures old(Frugal()) ==> Frugal()
      ensures !buckets[bucket_no].IsFull() ==> store.sectorpointer == old(store.sectorpointer)
      ensures store.sectorpointer <= old(store.sectorpointer) + WS_MIN
      ensures forall i :: 0 <= i < |buckets| && (buckets[i] != buckets[bucket_no] || !buckets[bucket_no].IsFull()) ==>
        old(BucketAt(i)) && BucketAt(i) && PageAt(i) == old(PageAt(i))
    {
      assert BucketAt(bucket_no);
      var _ := buckets[bucket_no].Insert(key, value);
      Contents := Contents[key := value];
      Ever := Ever + {key};
      OneBucketChanged(bucket_no);
      OtherPages(bucket_no);
      PagedAfterPut(bucket_no);
    }

    method grow()
      requires |buckets| == Pow2(global_depth)
      modifies this`buckets, this`global_depth
      ensures buckets == old(buckets) + old(buckets) && global_depth == old(global_depth) + 1
    {
      var n := Pow2(global_depth);
      var i := 0;
      while i < n
        invariant i <= n && buckets == old(buckets) + old(buckets)[..i]
        invariant global_depth == old(global_depth)
      {
        buckets := buckets + [buckets[i]];
        i := i + 1;
      }
      global_depth := global_depth + 1;
    }

    /** From `before` to `after` the slots in `lo..hi` that agree with `at` on `d` bits now repeat slot `at`. */
    static ghost predicate Redirected(before: seq<ExBucket>, after: seq<ExBucket>, at: nat, d: nat, lo: int, hi: int)
      requires at < |before|
    {
      && |after| == |before|
      && (forall j :: 0 <= j < |before| ==>
            after[j] == if lo <= j < hi && Low(j, d) == Low(at, d) then before[at] else before[j])
    }

    static lemma RedirectBelow(before: seq<ExBucket>, after: seq<ExBucket>, at: nat, d: nat, lo: int, hi: int, i: nat)
      requires at < |before| && Redirected(before, after, at, d, lo, hi) && lo <= hi
      requires i < |before| && Low(i, d) == Low(at, d) && i + Pow2(d) == lo
      ensures Redirected(before, after[i := before[at]], at, d, i, hi)
    {
      NothingWithinStride(i, d);
      forall j | 0 <= j < |before|
        ensures after[i := before[at]][j] == if i <= j < hi && Low(j, d) == Low(at, d) then before[at] else before[j]
      {
        assert j > i && j < lo ==> Low(j, d) != Low(i, d);
      }
    }

    static lemma RedirectAbove(before: seq<ExBucket>, after: seq<ExBucket>, at: nat, d: nat, lo: int, i: nat)
      requires at < |before| && Redirected(before, after, at, d, lo, i) && lo <= i
      requires i < |before| && Low(i, d) == Low(at, d)
      ensures Redirected(before, after[i := before[at]], at, d, lo, i + Pow2(d))
    {
      NothingWithinStride(i, d);
    }

    /** The two loops that point every slot agreeing with `at` on `local_depth` bits to the bucket at `at`. */
    method RewriteAliases(at: nat, local_depth: nat)
      requires at < |buckets|
      modifies this`buckets
      ensures Redirected(old(buckets), buckets, at, local_depth, 0, |buckets|)
    {
      RewriteBelow(at, local_depth);
      RewriteAbove(at, local_depth);
    }

    method RewriteBelow(at: nat, local_depth: nat)
      requires at < |buckets|
      modifies this`buckets
      ensures Redirected(old(buckets), buckets, at, local_depth, 0, at)
    {
      var index_diff := Pow2(local_depth);
      var i: int := at - index_diff;
      NothingWithinStride(at, local_depth);
      while i >= 0
        invariant i + index_diff <= at
        invariant i + index_diff >= 0 && Low(i + index_diff, local_depth) == Low(at, local_depth)
        invariant Redirected(old(buckets), buckets, at, local_depth, i + index_diff, at)
      {
        LowAfterStride(i, local_depth);
        RedirectBelow(old(buckets), buckets, at, local_depth, i + index_diff, at, i);
        buckets := buckets[i := buckets[at]];
        i := i - index_diff;
      }
      NothingWithinStride(i + index_diff, local_depth);
    }

    method RewriteAbove(at: nat, local_depth: nat)
      requires at < |buckets|
      modifies this`buckets
      ensures Redirected(old(buckets), buckets, at, local_depth, at, |buckets|)
    {
      var index_diff := Pow2(local_depth);
      var i := at + index_diff;
      NothingWithinStride(at, local_depth);
      LowAfterStride(at, local_depth);
      while i < |buckets|
        invariant at <= i && Low(i, local_depth) == Low(at, local_depth)
        invariant Redirected(old(buckets), buckets, at, local_depth, at, i)
      {
        LowAfterStride(i, local_depth);
        RedirectAbove(old(buckets), buckets, at, local_depth, at, i);
        buckets := buckets[i := buckets[at]];
        i := i + index_diff;
      }
    }

    /** The slots, doubled when a bucket of local depth `d` needs one more bit than the `g` there are. */
    static function Widened<T>(slots: seq<T>, d: nat, g: nat): seq<T> {
      if d == g then slots + slots else slots
    }

    /** The first step of `split`: one more bit for the bucket at `b`, and room for that bit in the directory. */
    method Deepen(b: nat) returns (local_depth: nat)
      requires Valid() && b < |buckets| && depths[b] < D
      modifies this`buckets, this`global_depth, this`depths, buckets[b]
      ensures b < |buckets| && buckets[b] == old(buckets[b]) && Valid(buckets[b])
      ensures local_depth == old(depths[b]) + 1 == depths[b] + 1 <= global_depth
      ensures buckets[b].IsFull() == old(buckets[b].IsFull()) && Contents == old(Contents)
      ensures buckets[b].PageNum == old(buckets[b].PageNum)
      ensures global_depth == if old(depths[b]) == old(global_depth) then old(global_depth) + 1 else old(global_depth)
      ensures buckets == Widened(old(buckets), old(depths[b]), old(global_depth))
      ensures depths == Widened(old(depths), old(depths[b]), old(global_depth))
      ensures old(Frugal()) ==> Frugal()
      ensures forall i :: 0 <= i < |buckets| ==> buckets[i] in old(buckets)
    {
      assert BucketAt(b);
      local_depth := buckets[b].IncreaseDepth();
      DepthOnlyChange(b);
      if local_depth > global_depth {
        label L:
        grow();
        depths := depths + depths;
        Grown@L(buckets[b]);
      }
      PagedKept();
    }

    /** Increasing one depth changes nothing but that depth. */
    twostate lemma DepthOnlyChange(b: nat)
      requires old(Valid()) && b < |buckets| && buckets == old(buckets) && depths == old(depths)
      requires global_depth == old(global_depth) && Contents == old(Contents) && unchanged(store)
      requires Ever == old(Ever)
      requires forall i :: 0 <= i < |buckets| && buckets[i] != buckets[b] ==> unchanged(buckets[i])
      requires buckets[b].depth == old(buckets[b].depth) + 1 && buckets[b].size == old(buckets[b].size)
      requires buckets[b].PageNum == old(buckets[b].PageNum) && buckets[b].values == old(buckets[b].values)
      ensures Valid(buckets[b])
    {
      forall i | 0 <= i < |buckets|
        ensures BucketAt(i, buckets[b]) && buckets[i].Items() == old(buckets[i].Items())
      {
        assert old(BucketAt(i));
      }
      forall i, j | 0 <= i < |buckets| && 0 <= j < |buckets|
        ensures OwnPages(i, j)
      {
        assert old(OwnPages(i, j));
      }
      assert ItemsBySlot(buckets[b]) == old(ItemsBySlot());
    }

    /** Doubling the slots keeps what is stored. */
    twostate lemma Grown(over: ExBucket)
      requires old(Valid(over)) && global_depth == old(global_depth) + 1 <= D
      requires buckets == old(buckets) + old(buckets) && depths == old(depths) + old(depths)
      requires Contents == old(Contents) && Ever == old(Ever) && unchanged(store)
      requires forall i :: 0 <= i < |old(buckets)| ==> unchanged(old(buckets[i]))
      ensures Valid(over)
    {
      var slots, dep, g := old(buckets), old(depths), old(global_depth);
      GrowKeeps(slots, dep, g);
      GrowKeepsPartition(old(ItemsBySlot(over)), dep, g, Contents);
      forall i | 0 <= i < |buckets|
        ensures Low(i, g) < |slots| && buckets[i] == slots[Low(i, g)] && BucketAt(i, over)
        ensures buckets[i].Items() == old(ItemsBySlot(over))[Low(i, g)]
      {
        GrownSlot(slots, dep, g, i);
        assert old(BucketAt(Low(i, g), over));
      }
      forall i, j | 0 <= i < |buckets| && 0 <= j < |buckets|
        ensures OwnPages(i, j)
      {
        assert old(OwnPages(Low(i, g), Low(j, g)));
      }
      forall i | 0 <= i < |buckets|
        ensures ItemsBySlot(over)[i] == (old(ItemsBySlot(over)) + old(ItemsBySlot(over)))[i]
      {
        GrownSlot(old(ItemsBySlot(over)), dep, g, i);
      }
      assert ItemsBySlot(over) == old(ItemsBySlot(over)) + old(ItemsBySlot(over));
    }

    /** The second step of `split`: a sibling for the other half of the class, and the old entries taken out. */
    method MakeSibling(b: nat, local_depth: nat) returns (temp: seq<Entry>, newcomer: ExBucket)
      requires b < |buckets| && Valid(buckets[b]) && buckets[b].IsFull()
      requires local_depth == depths[b] + 1 <= global_depth
      modifies this`buckets, this`depths, this`Contents, buckets[b]
      ensures Valid()
      ensures Contents == Rest(old(Contents), old(depths[b]), b)
      ensures DistinctKeys(temp) && |temp| == bucket_size
      ensures ToMap(temp) == Class(old(Contents), old(depths[b]), b)
      ensures depths == SplitDepths(old(depths), b, local_depth - 1)
      ensures fresh(newcomer) && buckets == SplitSlots(old(buckets), b, local_depth - 1, newcomer)
      ensures old(buckets[b]).PageNum == old(buckets[b].PageNum)
    {
      temp, newcomer := RedirectPairClass(b, local_depth);
      depths := SplitDepths(depths, b, local_depth - 1);
      Contents := Rest(Contents, local_depth - 1, b);
      SiblingMade(b, newcomer);
    }

    /** The pair class gets a new bucket, and the old bucket's entries are taken out. */
    method RedirectPairClass(b: nat, local_depth: nat) returns (temp: seq<Entry>, newcomer: ExBucket)
      requires b < |buckets| && Valid(buckets[b]) && buckets[b].IsFull()
      requires local_depth == depths[b] + 1 <= global_depth
      modifies this`buckets, buckets[b]
      ensures fresh(newcomer) && buckets == SplitSlots(old(buckets), b, local_depth - 1, newcomer)
      ensures EmptyBucket(newcomer, local_depth) && newcomer.PageNum == None
      ensures EmptyBucket(old(buckets[b]), local_depth) && old(buckets[b]).PageNum == old(buckets[b].PageNum)
      ensures DistinctKeys(temp) && |temp| == bucket_size && ToMap(temp) == Class(old(Contents), old(depths[b]), b)
    {
      FlipStaysBelow(b, local_depth - 1, global_depth);
      FlipChangesOneBit(b, local_depth - 1);
      temp, newcomer := NewSibling(b, local_depth);
      RewritePairClass(b, local_depth, newcomer, old(buckets));
    }

    /** With the newcomer at the pair slot, the loops point the rest of the pair class to it. */
    method RewritePairClass(b: nat, local_depth: nat, ghost newcomer: ExBucket, ghost before: seq<ExBucket>)
      requires local_depth > 0 && PairIndex(b, local_depth) < |before|
      requires buckets == before[PairIndex(b, local_depth) := newcomer]
      modifies this`buckets
      ensures buckets == SplitSlots(before, b, local_depth - 1, newcomer)
    {
      RewriteAliases(PairIndex(b, local_depth), local_depth);
      RedirectedIsSplit(before, buckets, b, local_depth - 1, newcomer);
    }

    static lemma RedirectedIsSplit(before: seq<ExBucket>, after: seq<ExBucket>, b: nat, d: nat, newcomer: ExBucket)
      requires Flip(b, d) < |before|
      requires Redirected(before[Flip(b, d) := newcomer], after, Flip(b, d), d + 1, 0, |before|)
      ensures after == SplitSlots(before, b, d, newcomer)
    {
    }

    /** A new bucket at the pair slot, and the old bucket's entries taken out. */
    method NewSibling(b: nat, local_depth: nat) returns (temp: seq<Entry>, newcomer: ExBucket)
      requires b < |buckets| && Valid(buckets[b]) && buckets[b].IsFull() && local_depth == depths[b] + 1
      requires PairIndex(b, local_depth) < |buckets| && PairIndex(b, local_depth) != b
      modifies this`buckets, buckets[b]
      ensures fresh(newcomer) && buckets == old(buckets)[PairIndex(b, local_depth) := newcomer]
      ensures EmptyBucket(newcomer, local_depth) && newcomer.PageNum == None
      ensures EmptyBucket(old(buckets[b]), local_depth) && old(buckets[b]).PageNum == old(buckets[b].PageNum)
      ensures DistinctKeys(temp) && |temp| == bucket_size && ToMap(temp) == Class(old(Contents), old(depths[b]), b)
    {
      ghost var over := buckets[b];
      assert BucketAt(b, over);
      assert ItemsBySlot(over)[b] == Class(Contents, depths[b], b);
      newcomer := new ExBucket(local_depth, bucket_size, store);
      buckets := buckets[PairIndex(b, local_depth) := newcomer];
      temp := buckets[b].GetData();
      buckets[b].Allclear();
    }

    twostate lemma PagedAfterSplit(b: nat, new newcomer: ExBucket)
      requires b < |old(buckets)| && old(Valid(buckets[b])) && old(depths[b]) < global_depth == old(global_depth)
      requires base == old(base) && store.sectorpointer == old(store.sectorpointer)
      requires buckets == SplitSlots(old(buckets), b, old(depths[b]), newcomer)
      requires forall i :: 0 <= i < |old(buckets)| ==> old(buckets[i].PageNum) == old(buckets[i]).PageNum
      ensures old(Frugal()) ==> Frugal()
    {
      var slots, d := old(buckets), old(depths[b]);
      FlipChangesOneBit(b, d);
      forall i | 0 <= i < |slots|
        ensures slots[i] in buckets
      {
        SplitSide(b, d, i);
        assert SharesAsBits(slots, old(depths), b, i);
        assert buckets[b] == slots[b] && (Low(i, d) == Low(b, d) ==> slots[i] == slots[b]);
        assert Low(i, d) != Low(b, d) ==> buckets[i] == slots[i];
      }
      PagedKept();
    }

    /** With its two halves emptied, the split class is a directory of the other keys. */
    twostate lemma SiblingMade(b: nat, new newcomer: ExBucket)
      requires b < |old(buckets)| && old(Valid(buckets[b])) && old(depths[b]) < global_depth == old(global_depth)
      requires newcomer !in old(buckets) && unchanged(store) && Ever == old(Ever)
      requires buckets == SplitSlots(old(buckets), b, old(depths[b]), newcomer)
      requires depths == SplitDepths(old(depths), b, old(depths[b]))
      requires Contents == Rest(old(Contents), old(depths[b]), b)
      requires forall i :: 0 <= i < |old(buckets)| && old(buckets)[i] != old(buckets)[b] ==> unchanged(old(buckets)[i])
      requires EmptyBucket(newcomer, old(depths[b]) + 1) && newcomer.PageNum == None
      requires EmptyBucket(old(buckets)[b], old(depths[b]) + 1) && old(buckets)[b].PageNum == old(buckets[b].PageNum)
      ensures Valid()
    {
      var slots, dep, d := old(buckets), old(depths), old(depths[b]);
      SplitKeeps(slots, dep, global_depth, b, newcomer);
      forall i | 0 <= i < |buckets|
        ensures BucketAt(i)
        ensures buckets[i].Items() == if Low(i, d) == Low(b, d) then map[] else old(ItemsBySlot(buckets[b]))[i]
      {
        SplitSide(b, d, i);
        assert SharesAsBits(slots, dep, b, i);
        assert old(BucketAt(i, buckets[b]));
      }
      forall i, j | 0 <= i < |buckets| && 0 <= j < |buckets|
        ensures OwnPages(i, j)
      {
        assert old(OwnPages(i, j));
      }
      SplitKeepsPartition(slots, old(ItemsBySlot(buckets[b])), ItemsBySlot(), dep, global_depth, old(Contents), b);
    }

    ghost predicate EmptyBucket(b: ExBucket, d: nat)
      reads b, store
    {
      && b.store == store && b.maxsize == bucket_size
      && b.Valid() && b.size == 0 && b.depth == d
    }

    /** Two keys below `1 << D` that agree on `D` bits are equal, so a full bucket still has bits to split on. */
    lemma FullIsShallow(b: nat)
      requires Valid() && b < |buckets| && buckets[b].IsFull()
      ensures depths[b] < D
    {
      assert BucketAt(b);
      var m := buckets[b].Items();
      assert m == ItemsBySlot()[b] == Class(Contents, depths[b], b);
      buckets[b].SizeOfItems();
      var k :| k in m;
      assert |m.Keys - {k}| > 0;
      var k' :| k' in m.Keys - {k};
      if depths[b] == D {
        LowBounds(k, D);
        LowBounds(k', D);
      }
    }

    /** After the split of slot `b`'s bucket, whatever was hashed there finds a bucket one deeper. */
    lemma DeeperTarget(b: nat, d: nat, dep: seq<nat>, key: nat)
      requires Linked() && depths == SplitDepths(dep, b, d)
      requires d <= global_depth && Low(key, d) == Low(b, d)
      ensures TargetDepth(key) == d + 1
    {
      LowBounds(key, global_depth);
      LowOfLow(key, global_depth, d);
    }

    /** While fewer than `bucket_size` entries of the split class are back, neither half is full. */
    lemma HalvesHaveRoom(c: Items, temp: seq<Entry>, n: nat, b: nat, d: nat, key: nat)
      requires Valid() && n < bucket_size && n <= |temp| && DistinctKeys(temp)
      requires Contents == Rest(c, d, b) + ToMap(temp[..n])
      requires Low(key, d) == Low(b, d) && TargetDepth(key) == d + 1
      ensures !TargetFull(key)
    {
      LowBounds(key, global_depth);
      var s := Hash(key);
      LowOfLow(key, global_depth, d);
      assert BucketAt(s);
      assert buckets[s].Items() == ItemsBySlot()[s] == Class(Contents, d + 1, s);
      HalfIsSmall(c, temp, n, b, d, s);
      buckets[s].SizeOfItems();
    }

    static lemma HalfIsSmall(c: Items, temp: seq<Entry>, n: nat, b: nat, d: nat, s: nat)
      requires n <= |temp| && DistinctKeys(temp) && Low(s, d) == Low(b, d)
      ensures |Class(Rest(c, d, b) + ToMap(temp[..n]), d + 1, s)| <= n
    {
      MapSize(temp[..n]);
      HalfComesFrom(c, ToMap(temp[..n]), b, d, s);
      SubsetSize(Class(Rest(c, d, b) + ToMap(temp[..n]), d + 1, s).Keys, ToMap(temp[..n]).Keys);
    }

    static lemma HalfComesFrom(c: Items, t: Items, b: nat, d: nat, s: nat)
      requires Low(s, d) == Low(b, d)
      ensures Class(Rest(c, d, b) + t, d + 1, s).Keys <= t.Keys
    {
      forall k | k in Class(Rest(c, d, b) + t, d + 1, s).Keys
        ensures k in t.Keys
      {
        AgreeOnFewer(k, s, d + 1, d);
      }
    }

    /** Of the depths from `d` on, `d'` is the first at which the keys of `c` that agree with `key` do not fill a bucket. */
    ghost predicate FirstWithRoom(c: Items, key: nat, d: nat, d': nat) {
      d <= d' && |Class(c, d', key)| < bucket_size && (d < d' ==> |Class(c, d' - 1, key)| == bucket_size)
    }

    lemma TargetClass(key: nat)
      requires Valid()
      ensures TargetDepth(key) <= global_depth
      ensures if TargetFull(key) then |Class(Contents, TargetDepth(key), key)| == bucket_size
        else FirstWithRoom(Contents, key, TargetDepth(key), TargetDepth(key))
    {
      LowBounds(key, global_depth);
      assert BucketAt(Hash(key));
      LowOfLow(key, global_depth, TargetDepth(key));
      SizeAt(Hash(key));
      assert Class(Contents, TargetDepth(key), Hash(key)) == Class(Contents, TargetDepth(key), key);
    }

    /** Splits as long as the keys stored beside the new one fill its bucket; the directory grows with the bucket's depth. */
    method insert(key: nat, value: nat)
      requires Valid() && key < Pow2(D) && store.Room(PagesNeeded(key))
      modifies this, buckets, store
      ensures Valid() && Contents == old(Contents)[key := value] && Ever == old(Ever) + {key}
      ensures base == old(base) && (old(Frugal()) ==> Frugal())
      ensures store.sectorpointer <= old(store.sectorpointer + WS_MIN * PagesNeeded(key))
      ensures FirstWithRoom(old(Contents), key, old(TargetDepth(key)), TargetDepth(key))
      ensures global_depth == if TargetDepth(key) > old(global_depth) then TargetDepth(key) else old(global_depth)
      ensures !old(TargetFull(key)) ==>
        && buckets == old(buckets) && depths == old(depths) && global_depth == old(global_depth)
        && (!TargetFull(key) ==> store.sectorpointer == old(store.sectorpointer))
        && (forall i :: 0 <= i < |buckets| && (!buckets[i].IsFull() || !TargetFull(key)) ==>
              old(BucketAt(i)) && BucketAt(i) && PageAt(i) == old(PageAt(i)))
      ensures forall i :: 0 <= i < |buckets| ==> fresh(buckets[i]) || buckets[i] in old(buckets)
      decreases Rank(key), 2
    {
      LowBounds(key, global_depth);
      TargetClass(key);
      var bucket_no := Hash(key);
      if buckets[bucket_no].IsFull() {
        SplitAndInsert(bucket_no, key, value);
      } else {
        PutInto(bucket_no, key, value);
      }
    }

    /** The branch of `insert` on a full bucket. */
    method SplitAndInsert(bucket_no: nat, key: nat, value: nat)
      requires Valid() && key < Pow2(D) && store.Room(PagesNeeded(key))
      requires bucket_no == Hash(key) < |buckets| && buckets[bucket_no].IsFull() && TargetFull(key)
      modifies this, buckets, store
      ensures Valid() && Contents == old(Contents)[key := value] && Ever == old(Ever) + {key}
      ensures base == old(base) && (old(Frugal()) ==> Frugal())
      ensures store.sectorpointer <= old(store.sectorpointer + WS_MIN * PagesNeeded(key))
      ensures FirstWithRoom(old(Contents), key, old(TargetDepth(key)), TargetDepth(key))
      ensures global_depth == if TargetDepth(key) > old(global_depth) then TargetDepth(key) else old(global_depth)
      ensures forall i :: 0 <= i < |buckets| ==> fresh(buckets[i]) || buckets[i] in old(buckets)
      decreases Rank(key), 1
    {
      TargetClass(key);
      SplitOnce(bucket_no, key);
      ghost var between := buckets;
      insert(key, value);
      forall i | 0 <= i < |buckets|
        ensures fresh(buckets[i]) || buckets[i] in old(buckets)
      {
        if buckets[i] in between {
          var j :| 0 <= j < |between| && between[j] == buckets[i];
        }
      }
    }

    /** The stored map is the same, the key's bucket is one deeper, and the rest of the insertion has what it needs. */
    twostate predicate OneSplitNearer(key: nat)
      reads this, buckets, store
    {
      && Valid() && Contents == old(Contents) && Ever == old(Ever) && base == old(base) && (old(Frugal()) ==> Frugal())
      && old(Linked()) && Rank(key) < old(Rank(key)) && store.Room(PagesNeeded(key))
      && store.sectorpointer + WS_MIN * PagesNeeded(key) <= old(store.sectorpointer + WS_MIN * PagesNeeded(key))
      && TargetDepth(key) == old(TargetDepth(key)) + 1
      && global_depth == (if TargetDepth(key) > old(global_depth) then TargetDepth(key) else old(global_depth))
    }

    /** The split for a key that goes to a full bucket. */
    method SplitOnce(bucket_no: nat, key: nat)
      requires Valid() && key < Pow2(D) && store.Room(PagesNeeded(key))
      requires bucket_no == Hash(key) < |buckets| && buckets[bucket_no].IsFull() && TargetFull(key)
      modifies this, buckets, store
      ensures OneSplitNearer(key)
      ensures forall i :: 0 <= i < |buckets| ==> fresh(buckets[i]) || buckets[i] in old(buckets)
      decreases Rank(key), 0
    {
      LowBounds(key, global_depth);
      FullIsShallow(bucket_no);
      ghost var _ := split(bucket_no);
    }

    /** What an insertion into a bucket with room left leaves alone. */
    method InsertWithRoom(key: nat, value: nat)
      requires Valid() && key < Pow2(D) && !TargetFull(key) && store.Room(1)
      modifies this, buckets, store
      ensures Valid() && Contents == old(Contents)[key := value] && Ever == old(Ever) + {key}
      ensures base == old(base) && (old(Frugal()) ==> Frugal())
      ensures buckets == old(buckets) && depths == old(depths) && global_depth == old(global_depth)
      ensures store.sectorpointer <= old(store.sectorpointer) + WS_MIN
      ensures !TargetFull(key) ==> store.sectorpointer == old(store.sectorpointer)
      ensures forall i :: 0 <= i < |buckets| && (!buckets[i].IsFull() || !TargetFull(key)) ==>
        old(BucketAt(i)) && BucketAt(i) && PageAt(i) == old(PageAt(i))
      decreases Rank(key), 3
    {
      insert(key, value);
    }

    method split(bucket_no: nat) returns (ghost newcomer: ExBucket)
      requires Valid() && bucket_no < |buckets| && buckets[bucket_no].IsFull() && store.Room(1)
      modifies this, buckets, store
      ensures Valid() && Contents == old(Contents) && Ever == old(Ever)
      ensures base == old(base) && (old(Frugal()) ==> Frugal())
      ensures global_depth == if old(depths[bucket_no]) == old(global_depth) then old(global_depth) + 1 else old(global_depth)
      ensures depths == SplitDepths(Widened(old(depths), old(depths[bucket_no]), old(global_depth)), bucket_no, old(depths[bucket_no]))
      ensures fresh(newcomer) && buckets ==
        SplitSlots(Widened(old(buckets), old(depths[bucket_no]), old(global_depth)), bucket_no, old(depths[bucket_no]), newcomer)
      ensures forall key :: Low(key, old(global_depth)) == bucket_no ==> TargetDepth(key) == old(depths[bucket_no]) + 1
      ensures store.sectorpointer <= old(store.sectorpointer) + WS_MIN
      ensures forall i :: 0 <= i < |buckets| ==> fresh(buckets[i]) || buckets[i] in old(buckets)
      ensures bucket_no < |buckets| && buckets[bucket_no] == old(buckets[bucket_no])
      ensures !buckets[bucket_no].IsFull() ==>
        old(BucketAt(bucket_no)) && BucketAt(bucket_no) && PageAt(bucket_no) == old(PageAt(bucket_no))
      decreases 2 * (D - depths[bucket_no]) + 1
    {
      ghost var d, c := depths[bucket_no], Contents;
      var temp;
      ghost var dep;
      temp, dep, newcomer := Divide(bucket_no);
      Reinsert(temp, c, bucket_no, d, dep);
      RestPlusClass(c, d, bucket_no);
      forall key | Low(key, old(global_depth)) == bucket_no
        ensures TargetDepth(key) == d + 1
      {
        LowOfLow(key, old(global_depth), d);
        DeeperTarget(bucket_no, d, dep, key);
      }
    }

    /** What `split` does before the entries go back. */
    method Divide(b: nat) returns (temp: seq<Entry>, ghost dep: seq<nat>, ghost newcomer: ExBucket)
      requires Valid() && b < |buckets| && buckets[b].IsFull()
      modifies this`buckets, this`global_depth, this`depths, this`Contents, buckets[b]
      ensures global_depth == if old(depths[b]) == old(global_depth) then old(global_depth) + 1 else old(global_depth)
      ensures dep == Widened(old(depths), old(depths[b]), old(global_depth)) && fresh(newcomer)
      ensures buckets == SplitSlots(Widened(old(buckets), old(depths[b]), old(global_depth)), b, old(depths[b]), newcomer)
      ensures Halfway(temp, 0, old(Contents), b, old(depths[b]), dep)
      ensures b < |buckets| && buckets[b] == old(buckets[b]) && buckets[b].PageNum == old(buckets[b].PageNum)
      ensures old(Frugal()) ==> Frugal()
      ensures forall i :: 0 <= i < |buckets| ==> fresh(buckets[i]) || buckets[i] in old(buckets)
    {
      FullIsShallow(b);
      ghost var d, c := depths[b], Contents;
      var local_depth := Deepen(b);
      dep := depths;
      assert c == Contents && depths[b] == d;
      temp, newcomer := EmptyHalves(b, local_depth);
      assert Halfway(temp, 0, c, b, d, dep);
    }

    method EmptyHalves(b: nat, local_depth: nat) returns (temp: seq<Entry>, ghost newcomer: ExBucket)
      requires b < |buckets| && Valid(buckets[b]) && buckets[b].IsFull()
      requires local_depth == depths[b] + 1 <= global_depth && depths[b] < D
      modifies this`buckets, this`depths, this`Contents, buckets[b]
      ensures fresh(newcomer) && buckets == SplitSlots(old(buckets), b, old(depths[b]), newcomer)
      ensures Halfway(temp, 0, old(Contents), b, old(depths[b]), old(depths))
      ensures b < |buckets| && buckets[b] == old(buckets[b]) && buckets[b].PageNum == old(buckets[b].PageNum)
      ensures old(Frugal()) ==> Frugal()
      ensures forall i :: 0 <= i < |buckets| ==> fresh(buckets[i]) || buckets[i] in old(buckets)
    {
      temp, newcomer := MakeSibling(b, local_depth);
      SplitSide(b, local_depth - 1, b);
      PagedAfterSplit(b, newcomer);
      StartHalfway(temp, old(Contents), b, old(depths[b]), old(depths));
    }

    lemma StartHalfway(temp: seq<Entry>, c: Items, b: nat, d: nat, dep: seq<nat>)
      requires Valid() && |temp| == bucket_size && DistinctKeys(temp)
      requires ToMap(temp) == Class(c, d, b) && Contents == Rest(c, d, b)
      requires (forall k :: k in c ==> k < Pow2(D)) && c.Keys <= Ever
      requires d < D && d < global_depth && depths == SplitDepths(dep, b, d)
      ensures Halfway(temp, 0, c, b, d, dep)
    {
      assert temp[..0] == [];
      assert Rest(c, d, b) + map[] == Rest(c, d, b);
    }

    /** How far the re-insertion after a split has come: `n` of the old entries are back. */
    ghost predicate Halfway(temp: seq<Entry>, n: nat, c: Items, b: nat, d: nat, dep: seq<nat>)
      reads this, buckets, store
    {
      && Valid() && n <= |temp| == bucket_size && DistinctKeys(temp)
      && ToMap(temp) == Class(c, d, b) && (forall k :: k in c ==> k < Pow2(D)) && c.Keys <= Ever
      && Contents == Rest(c, d, b) + ToMap(temp[..n])
      && d < D && d < global_depth && depths == SplitDepths(dep, b, d)
    }

    /** Puts one entry back; its bucket has room before, and after unless this was the last. */
    method ReinsertOne(temp: seq<Entry>, i: nat, ghost c: Items, ghost b: nat, ghost d: nat, ghost dep: seq<nat>)
      requires i < |temp| && Halfway(temp, i, c, b, d, dep) && store.Room(1)
      modifies this, buckets, store
      ensures Halfway(temp, i + 1, c, b, d, dep)
      ensures buckets == old(buckets) && Ever == old(Ever)
      ensures base == old(base) && (old(Frugal()) ==> Frugal())
      ensures depths == old(depths) && global_depth == old(global_depth)
      ensures i + 1 < |temp| ==> store.sectorpointer == old(store.sectorpointer)
      ensures store.sectorpointer <= old(store.sectorpointer) + WS_MIN
      ensures forall j :: 0 <= j < |buckets| && (!buckets[j].IsFull() || i + 1 < |temp|) ==>
        old(BucketAt(j)) && BucketAt(j) && PageAt(j) == old(PageAt(j))
      decreases 2 * (D - d) - 1
    {
      var e := temp[i];
      assert e.key in Class(c, d, b) by {
        MapHasEntry(temp, i);
      }
      DeeperTarget(b, d, dep, e.key);
      HalvesHaveRoom(c, temp, i, b, d, e.key);
      InsertWithRoom(e.key, e.val);
      PlusOneEntry(Rest(c, d, b), temp, i);
      if i + 1 < |temp| {
        DeeperTarget(b, d, dep, e.key);
        HalvesHaveRoom(c, temp, i + 1, b, d, e.key);
      }
    }

    static lemma PlusOneEntry(rest: Items, temp: seq<Entry>, i: nat)
      requires i < |temp|
      ensures rest + ToMap(temp[..i + 1]) == (rest + ToMap(temp[..i]))[temp[i].key := temp[i].val]
    {
      assert temp[..i + 1][..i] == temp[..i];
    }

    /** The last step of `split`: no insertion here meets a full bucket, so none splits again. */
    method Reinsert(temp: seq<Entry>, ghost c: Items, ghost b: nat, ghost d: nat, ghost dep: seq<nat>)
      requires Halfway(temp, 0, c, b, d, dep) && store.Room(1)
      modifies this, buckets, store
      ensures Valid() && Contents == Rest(c, d, b) + ToMap(temp)
      ensures buckets == old(buckets) && depths == old(depths) && global_depth == old(global_depth)
      ensures Ever == old(Ever) && base == old(base) && (old(Frugal()) ==> Frugal())
      ensures store.sectorpointer <= old(store.sectorpointer) + WS_MIN
      ensures forall j :: 0 <= j < |buckets| && !buckets[j].IsFull() ==>
        old(BucketAt(j)) && BucketAt(j) && PageAt(j) == old(PageAt(j))
      decreases 2 * (D - d)
    {
      var i := 0;
      while i < |temp|
        invariant i <= |temp| && Halfway(temp, i, c, b, d, dep)
        invariant buckets == old(buckets) && depths == old(depths) && global_depth == old(global_depth)
        invariant Ever == old(Ever) && base == old(base) && (old(Frugal()) ==> Frugal())
        invariant i < |temp| ==> store.sectorpointer == old(store.sectorpointer)
        invariant store.sectorpointer <= old(store.sectorpointer) + WS_MIN
        invariant forall j :: 0 <= j < |buckets| && (!buckets[j].IsFull() || i < |temp|) ==>
          old(BucketAt(j)) && BucketAt(j) && PageAt(j) == old(PageAt(j))
      {
        ReinsertOne(temp, i, c, b, d, dep);
        i := i + 1;
      }
      assert temp[..|temp|] == temp;
    }

    lemma SizeAt(i: nat)
      requires Valid() && i < |buckets|
      ensures BucketAt(i) && buckets[i].Items() == Class(Contents, depths[i], i)
      ensures buckets[i].size == |Class(Contents, depths[i], i)|
    {
      assert BucketAt(i);
      assert ItemsBySlot()[i] == Class(Contents, depths[i], i);
      buckets[i].SizeOfItems();
    }

    // ---------- search ----------

    /** The key's bucket was emptied but its old page still has the key. */
    ghost predicate Stale(key: nat)
      requires Valid()
      reads this, buckets, store
    {
      LowBounds(key, global_depth);
      assert BucketAt(Hash(key));
      var b := buckets[Hash(key)];
      b.size == 0 && b.PageNum.Some? && key in ToMap(b.OwnPage())
    }

    ghost function StaleValue(key: nat): nat
      requires Valid() && Stale(key)
      reads this, buckets, store
    {
      LowBounds(key, global_depth);
      assert BucketAt(Hash(key));
      ToMap(buckets[Hash(key)].OwnPage())[key]
    }

    /** The key's bucket is empty and was never written, so the program's assertion stops the search. */
    ghost predicate NeverWritten(key: nat)
      requires Valid()
      reads this, buckets, store
    {
      LowBounds(key, global_depth);
      buckets[Hash(key)].size == 0 && buckets[Hash(key)].PageNum.None?
    }

    /** Only a key that was removed can be stale: after insertions alone no search sees an old page. */
    lemma StaleKeysWereRemoved(key: nat)
      requires Valid() && Stale(key)
      ensures key in Ever && key !in Contents
    {
      LowBounds(key, global_depth);
      assert BucketAt(Hash(key));
      LookupIsExact(ItemsBySlot(), depths, global_depth, Contents, key);
    }

    /** The key's bucket has entries in memory. */
    ghost predicate Resident(key: nat)
      requires Valid()
      reads this, buckets, store
    {
      LowBounds(key, global_depth);
      buckets[Hash(key)].values != []
    }

    /**
      The entry that the bucket answers with, None where the program's own assertion stops the search, and the
      program's verdict on it.  For an absent key the verdict is right exactly if the bucket has entries in
      memory and the key is not 0.
     */
    method search(key: nat) returns (r: Option<Entry>, found: bool)
      requires Valid()
      ensures r == None <==> NeverWritten(key)
      ensures found <==> r.Some? && r.value.key == key
      ensures key in Contents ==> found && r == Some(Entry(key, Contents[key]))
      ensures key !in Contents && r.Some? ==> (!found <==> Resident(key) && key != 0)
      ensures key !in Contents && r.Some? && !Stale(key) ==> r.value.val == 0
      ensures Stale(key) ==> r == Some(Entry(key, StaleValue(key)))
    {
      LowBounds(key, global_depth);
      LookupIsExact(ItemsBySlot(), depths, global_depth, Contents, key);
      assert BucketAt(Hash(key));
      var bucket_no := Hash(key);
      r := buckets[bucket_no].Search(key);
      found := r.Some? && r.value.key == key;
    }

    // ---------- merge, remove, shrink ----------

    /** The sibling slot's bucket has the same local depth. */
    ghost predicate SiblingIsLevel(bucket_no: nat)
      requires bucket_no < |depths| && depths[bucket_no] > 0
      reads this
    {
      && PairIndex(bucket_no, depths[bucket_no]) < |depths|
      && depths[PairIndex(bucket_no, depths[bucket_no])] == depths[bucket_no]
    }

    /** No bucket is new, and each has the page that it had. */
    twostate predicate KeepsPages()
      reads this, buckets
    {
      forall b :: b in buckets ==> b in old(buckets) && b.PageNum == old(b.PageNum)
    }

    /** Merges an empty bucket into its sibling when both have the same depth; no slot keeps pointing to it. */
    method merge(bucket_no: nat)
      requires Valid() && bucket_no < |buckets| && buckets[bucket_no].IsEmpty() && depths[bucket_no] > 0
      modifies this`buckets, this`depths, buckets
      ensures Valid()
      ensures !old(SiblingIsLevel(bucket_no)) ==> buckets == old(buckets) && depths == old(depths)
      ensures old(SiblingIsLevel(bucket_no)) ==>
        && buckets == MergeSlots(old(buckets), bucket_no, old(depths[bucket_no]) - 1)
        && depths == MergeDepths(old(depths), bucket_no, old(depths[bucket_no]) - 1)
        && old(buckets[bucket_no]) !in buckets
      ensures KeepsPages()
    {
      assert BucketAt(bucket_no);
      var local_depth := buckets[bucket_no].depth;
      FlipStaysBelow(bucket_no, local_depth - 1, global_depth);
      var pair_index := PairIndex(bucket_no, local_depth);
      assert BucketAt(pair_index);
      if buckets[pair_index].depth == local_depth {
        MergeInto(bucket_no, pair_index, local_depth);
      }
    }

    method MergeInto(bucket_no: nat, pair_index: nat, local_depth: nat)
      requires Valid() && bucket_no < |buckets| && buckets[bucket_no].IsEmpty()
      requires depths[bucket_no] == local_depth > 0 && SiblingIsLevel(bucket_no)
      requires pair_index == PairIndex(bucket_no, local_depth)
      modifies this`buckets, this`depths, buckets[pair_index]
      ensures Valid() && old(buckets[bucket_no]) !in buckets
      ensures buckets == MergeSlots(old(buckets), bucket_no, local_depth - 1)
      ensures depths == MergeDepths(old(depths), bucket_no, local_depth - 1)
      ensures KeepsPages()
    {
      ghost var d: nat, sibling := local_depth - 1, buckets[pair_index];
      FlipChangesOneBit(bucket_no, d);
      MergeKeeps(buckets, depths, global_depth, bucket_no, d);
      assert SharesAsBits(buckets, depths, bucket_no, pair_index);
      assert BucketAt(pair_index);
      var _ := buckets[pair_index].DecreaseDepth();
      PointToSibling(bucket_no, pair_index, local_depth);
      depths := MergeDepths(depths, bucket_no, d);
      Merged(bucket_no, d, sibling);
    }

    /** The bucket's slots all repeat the sibling slot. */
    method PointToSibling(bucket_no: nat, pair_index: nat, local_depth: nat)
      requires local_depth > 0 && bucket_no < |buckets| && pair_index == PairIndex(bucket_no, local_depth) < |buckets|
      modifies this`buckets
      ensures buckets == MergeSlots(old(buckets), bucket_no, local_depth - 1)
    {
      FlipChangesOneBit(bucket_no, local_depth - 1);
      buckets := buckets[bucket_no := buckets[pair_index]];
      RewriteAliases(bucket_no, local_depth);
    }

    twostate lemma Merged(b: nat, new d: nat, new sibling: ExBucket)
      requires old(Valid()) && b < |old(buckets)| && old(depths[b]) == d + 1 && old(buckets[b].size) == 0
      requires Flip(b, d) < |old(buckets)| && old(depths)[Flip(b, d)] == d + 1 && sibling == old(buckets)[Flip(b, d)]
      requires buckets == MergeSlots(old(buckets), b, d) && depths == MergeDepths(old(depths), b, d)
      requires global_depth == old(global_depth) && Contents == old(Contents) && Ever == old(Ever) && unchanged(store)
      requires forall i :: 0 <= i < |old(buckets)| && old(buckets)[i] != sibling ==> unchanged(old(buckets)[i])
      requires sibling.depth == d && sibling.size == old(sibling.size)
      requires sibling.values == old(sibling.values) && sibling.PageNum == old(sibling.PageNum)
      ensures Valid()
    {
      var slots, dep, p := old(buckets), old(depths), Flip(b, d);
      MergeKeeps(slots, dep, global_depth, b, d);
      assert old(BucketAt(b)) && old(BucketAt(p));
      forall i | 0 <= i < |buckets|
        ensures BucketAt(i)
        ensures buckets[i].Items() == if Low(i, d) == Low(b, d) then old(ItemsBySlot())[p] else old(ItemsBySlot())[i]
      {
        SplitSide(b, d, i);
        assert SharesAsBits(slots, dep, p, i);
        assert old(BucketAt(i));
      }
      MergedOwnPages(b, d);
      MergeKeepsPartition(slots, old(ItemsBySlot()), ItemsBySlot(), dep, global_depth, Contents, b, d);
    }

    twostate lemma MergedOwnPages(b: nat, new d: nat)
      requires Flip(b, d) < |old(buckets)| && buckets == MergeSlots(old(buckets), b, d)
      requires forall i, j :: 0 <= i < |old(buckets)| && 0 <= j < |old(buckets)| ==> old(OwnPages(i, j))
      requires forall i :: 0 <= i < |old(buckets)| ==> old(buckets)[i].PageNum == old(buckets[i].PageNum)
      ensures forall i, j :: 0 <= i < |buckets| && 0 <= j < |buckets| ==> OwnPages(i, j)
    {
      forall i, j | 0 <= i < |buckets| && 0 <= j < |buckets|
        ensures OwnPages(i, j)
      {
        var i0 := if Low(i, d + 1) == Low(b, d + 1) then Flip(b, d) else i;
        var j0 := if Low(j, d + 1) == Low(b, d + 1) then Flip(b, d) else j;
        assert old(OwnPages(i0, j0));
      }
    }

    /** The key is the only one of its bucket, whose depth is above 1, and the sibling slot's bucket has the same depth. */
    ghost predicate LeavesEmptyBesideLevel(key: nat)
      requires Valid()
      reads this, buckets, store
    {
      LowBounds(key, global_depth);
      var d := depths[Hash(key)];
      d > 1 && Class(Contents, d, Hash(key)).Keys == {key} && SiblingIsLevel(Hash(key))
    }

    /** `remove` of a key whose bucket is resident; merges exactly if this leaves the bucket empty and its sibling is level. */
    method remove(key: nat)
      requires Valid() && Hash(key) < |buckets| && buckets[Hash(key)].values != []
      modifies this`buckets, this`depths, this`Contents, buckets
      ensures Valid() && Contents == old(Contents) - {key} && Ever == old(Ever)
      ensures !old(LeavesEmptyBesideLevel(key)) ==> buckets == old(buckets) && depths == old(depths)
      ensures old(LeavesEmptyBesideLevel(key)) ==>
        && buckets == MergeSlots(old(buckets), Hash(key), old(depths[Hash(key)]) - 1)
        && old(buckets[Hash(key)]) !in buckets && TargetDepth(key) == old(TargetDepth(key)) - 1
        && depths == MergeDepths(old(depths), Hash(key), old(depths[Hash(key)]) - 1)
      ensures KeepsPages()
    {
      var bucket_no := Hash(key);
      LowBounds(key, global_depth);
      TakeOut(bucket_no, key);
      if buckets[bucket_no].IsEmpty() && buckets[bucket_no].depth > 1 {
        merge(bucket_no);
      }
    }

    /** The bucket is empty afterwards exactly if it held no other key. */
    method TakeOut(bucket_no: nat, key: nat)
      requires Valid() && bucket_no == Hash(key) < |buckets| && buckets[bucket_no].values != []
      modifies this`Contents, buckets[bucket_no]
      ensures Valid() && Contents == old(Contents) - {key}
      ensures BucketAt(bucket_no) && buckets[bucket_no].PageNum == old(buckets[bucket_no].PageNum)
      ensures buckets[bucket_no].IsEmpty() <==> Class(old(Contents), depths[bucket_no], bucket_no).Keys == {key}
    {
      SizeAt(bucket_no);
      RemoveFrom(bucket_no, key);
      SizeAt(bucket_no);
      ClassWithout(old(Contents), key, depths[bucket_no], bucket_no);
    }

    method RemoveFrom(bucket_no: nat, key: nat)
      requires Valid() && bucket_no == Hash(key) < |buckets| && buckets[bucket_no].values != []
      modifies this`Contents, buckets[bucket_no]
      ensures Valid() && Contents == old(Contents) - {key}
      ensures buckets[bucket_no].PageNum == old(buckets[bucket_no].PageNum)
    {
      assert BucketAt(bucket_no);
      var _ := buckets[bucket_no].Remove(key);
      Contents := Contents - {key};
      OneBucketChanged(bucket_no);
      DropKeepsPartition(buckets, old(ItemsBySlot()), ItemsBySlot(), depths, global_depth, old(Contents), key);
    }

    /** Taking out the key empties a class exactly if it was the only one. */
    static lemma ClassWithout(c: Items, key: nat, d: nat, i: nat)
      requires |Class(c, d, i)| > 0
      ensures |Class(c - {key}, d, i)| == 0 <==> Class(c, d, i).Keys == {key}
    {
      assert Class(c - {key}, d, i).Keys == Class(c, d, i).Keys - {key};
    }

    method shrink()
      requires Valid()
      modifies this`buckets, this`global_depth, this`depths
      ensures Valid()
      ensures (exists i :: 0 <= i < |old(depths)| && old(depths)[i] == old(global_depth)) ==>
        buckets == old(buckets) && global_depth == old(global_depth)
      ensures (forall i :: 0 <= i < |old(depths)| ==> old(depths)[i] < old(global_depth)) ==>
        old(buckets) == buckets + buckets && global_depth == old(global_depth) - 1
    {
      var i := 0;
      while i < |buckets|
        invariant i <= |buckets|
        invariant forall j :: 0 <= j < i ==> depths[j] < global_depth
      {
        assert BucketAt(i);
        if buckets[i].depth == global_depth {
          return;
        }
        i := i + 1;
      }
      PopUpperHalf();
    }

    method PopUpperHalf()
      requires Valid() && forall i :: 0 <= i < |depths| ==> depths[i] < global_depth
      modifies this`buckets, this`global_depth, this`depths
      ensures Valid() && old(buckets) == buckets + buckets && global_depth == old(global_depth) - 1
    {
      assert depths[0] < global_depth;
      ShrinkKeeps(buckets, depths, global_depth);
      global_depth := global_depth - 1;
      var n := Pow2(global_depth);
      var i := 0;
      while i < n
        invariant i <= n && |old(buckets)| == 2 * n && global_depth == old(global_depth) - 1
        invariant buckets == old(buckets)[..|old(buckets)| - i]
        invariant depths == old(depths)
      {
        buckets := buckets[..|buckets| - 1];
        i := i + 1;
      }
      depths := depths[..n];
      Shrunk();
    }

    twostate lemma Shrunk()
      requires old(Valid()) && unchanged(store) && old(global_depth) > 0
      requires forall i :: 0 <= i < |old(buckets)| ==> unchanged(old(buckets)[i])
      requires Pow2(global_depth) <= |old(buckets)| == |old(depths)| && global_depth == old(global_depth) - 1
      requires buckets == old(buckets)[..Pow2(global_depth)] && depths == old(depths)[..Pow2(global_depth)]
      requires Aliased(buckets, depths, global_depth) && Contents == old(Contents) && Ever == old(Ever)
      ensures Valid()
    {
      forall i | 0 <= i < |buckets|
        ensures BucketAt(i) && buckets[i].Items() == old(ItemsBySlot())[i]
      {
        assert old(BucketAt(i));
      }
      forall i, j | 0 <= i < |buckets| && 0 <= j < |buckets|
        ensures OwnPages(i, j)
      {
        assert old(OwnPages(i, j));
      }
      ShrinkKeepsPartition(old(ItemsBySlot()), old(depths), Contents, Pow2(global_depth));
      assert ItemsBySlot() == old(ItemsBySlot())[..Pow2(global_depth)];
    }

    // ---------- slots and pages ----------

    /** Every bucket is pointed to by `2^(global depth - local depth)` slots, and these counts add up to the directory. */
    lemma SlotsAreConserved()
      requires Linked()
      ensures forall i :: 0 <= i < |buckets| ==> Refs(buckets, buckets[i]) == Pow2(global_depth - depths[i])
      ensures TotalRefs((set b | b in buckets), buckets) == |buckets| == Pow2(global_depth)
    {
      forall i | 0 <= i < |buckets|
        ensures Refs(buckets, buckets[i]) == Pow2(global_depth - depths[i])
      {
        SlotsPerBucket(buckets, depths, global_depth, i);
      }
      RefsSumToSlots((set b | b in buckets), buckets);
    }

    /** Whether the pages that inserting `key` may take are left before the sector pointer starts over. */
    method RoomFor(key: nat) returns (room: bool)
      requires Valid()
      ensures room == store.Room(PagesNeeded(key))
    {
      LowBounds(key, global_depth);
      assert BucketAt(Hash(key));
      var b := buckets[Hash(key)];
      room := store.Room(if b.IsFull() then D - b.depth + 1 else 1);
    }

    /** A directory that hands out pages only to live buckets, of which there are no more than slots, has room while it is small enough. */
    lemma FrugalHasRoom(key: nat)
      requires Linked() && Frugal()
      ensures base + WS_MIN * (Pow2(global_depth) + D + 1) < WRAP ==> store.Room(PagesNeeded(key))
    {
      SetNoLargerThanSeq(Paged(), buckets);
    }

    static lemma {:induction false} SetNoLargerThanSeq(s: set<ExBucket>, q: seq<ExBucket>)
      requires forall x :: x in s ==> x in q
      ensures |s| <= |q|
      decreases |q|
    {
      if q == [] {
        assert s == {};
      } else {
        SetNoLargerThanSeq(s - {q[0]}, q[1..]);
        SubsetSize(s, (s - {q[0]}) + {q[0]});
      }
    }
  }

  /** The directory after the first `n` insertions of a run. */
  ghost predicate AfterInsertions(d: Directory, ops: seq<Entry>, n: nat, base: nat)
    requires n <= |ops|
    reads d, d.buckets, d.store
  {
    && d.Valid() && d.Frugal() && d.base == base
    && d.Contents == ToMap(ops[..n]) && d.Ever == d.Contents.Keys
  }

  method InsertNext(d: Directory, ops: seq<Entry>, n: nat, ghost base: nat)
    requires n < |ops| && AfterInsertions(d, ops, n, base) && ops[n].key < Pow2(d.D)
    requires d.store.Room(d.PagesNeeded(ops[n].key))
    modifies d, d.buckets, d.store
    ensures AfterInsertions(d, ops, n + 1, base)
    ensures forall j :: 0 <= j < |d.buckets| ==> fresh(d.buckets[j]) || d.buckets[j] in old(d.buckets)
  {
    OneMoreInsertion(ops, n);
    d.insert(ops[n].key, ops[n].val);
  }

  lemma OneMoreInsertion(ops: seq<Entry>, n: nat)
    requires n < |ops|
    ensures ToMap(ops[..n + 1]) == ToMap(ops[..n])[ops[n].key := ops[n].val]
    ensures ToMap(ops[..n + 1]).Keys == ToMap(ops[..n]).Keys + {ops[n].key}
  {
    assert ops[..n + 1][..n] == ops[..n];
  }

  method InsertWhileRoom(d: Directory, ops: seq<Entry>) returns (n: nat)
    requires AfterInsertions(d, ops, 0, d.base) && forall i :: 0 <= i < |ops| ==> ops[i].key < Pow2(d.D)
    modifies d, d.buckets, d.store
    ensures n <= |ops| && AfterInsertions(d, ops, n, old(d.base))
    ensures n < |ops| ==> !d.store.Room(d.PagesNeeded(ops[n].key))
  {
    ghost var owned := set b | b in d.buckets;
    n := 0;
    while n < |ops|
      invariant n <= |ops| && AfterInsertions(d, ops, n, old(d.base))
      invariant forall j :: 0 <= j < |d.buckets| ==> fresh(d.buckets[j]) || d.buckets[j] in owned
    {
      var room := d.RoomFor(ops[n].key);
      if !room {
        return;
      }
      InsertNext(d, ops, n, old(d.base));
      n := n + 1;
    }
  }

  /**
    Any run of insertions into a fresh directory, up to the first that could make the sector pointer start
    over: the directory stores, for every key, the last value inserted for it.  The run is cut short only
    when the directory's slots alone nearly use up the pages of a pass.
   */
  method InsertAll(d: Directory, ops: seq<Entry>) returns (n: nat)
    requires d.Valid() && d.Contents == map[] && d.Ever == {} && d.Frugal()
    requires forall i :: 0 <= i < |ops| ==> ops[i].key < Pow2(d.D)
    modifies d, d.buckets, d.store
    ensures n <= |ops| && d.Valid() && d.Contents == ToMap(ops[..n])
    ensures n < |ops| ==> !d.store.Room(d.PagesNeeded(ops[n].key))
    ensures n < |ops| ==> old(d.base) + WS_MIN * (Pow2(d.global_depth) + d.D + 1) >= WRAP
    ensures old(d.base) + WS_MIN * (Pow2(d.D) + d.D + 1) < WRAP ==> n == |ops|
    ensures forall key :: !d.Stale(key)
  {
    n := InsertWhileRoom(d, ops);
    if n < |ops| {
      d.FrugalHasRoom(ops[n].key);
      Pow2Monotone(d.global_depth, d.D);
    }
    NeverStale(d);
  }

  /**
    After such a run a search finds every inserted key with its last value.  A key that was not inserted is
    reported as not found exactly if its bucket has entries in memory and the key is not 0.
   */
  method InsertAllThenSearch(d: Directory, ops: seq<Entry>, key: nat) returns (n: nat, r: Option<Entry>, found: bool)
    requires d.Valid() && d.Contents == map[] && d.Ever == {} && d.Frugal()
    requires forall i :: 0 <= i < |ops| ==> ops[i].key < Pow2(d.D)
    modifies d, d.buckets, d.store
    ensures n <= |ops| && d.Valid() && d.Contents == ToMap(ops[..n])
    ensures n < |ops| ==> !d.store.Room(d.PagesNeeded(ops[n].key))
    ensures key in ToMap(ops[..n]) ==> found && r == Some(Entry(key, ToMap(ops[..n])[key]))
    ensures key !in ToMap(ops[..n]) && r.Some? ==> r.value.val == 0 && (!found <==> d.Resident(key) && key != 0)
    ensures r == None <==> d.NeverWritten(key)
  {
    n := InsertAll(d, ops);
    r, found := SearchFresh(d, key);
  }

  method SearchFresh(d: Directory, key: nat) returns (r: Option<Entry>, found: bool)
    requires d.Valid() && !d.Stale(key)
    ensures key in d.Contents ==> found && r == Some(Entry(key, d.Contents[key]))
    ensures key !in d.Contents && r.Some? ==> r.value.val == 0 && (!found <==> d.Resident(key) && key != 0)
    ensures r == None <==> d.NeverWritten(key)
  {
    r, found := d.search(key);
  }

  /** Without removals no search can meet an old page. */
  lemma NeverStale(d: Directory)
    requires d.Valid() && d.Ever == d.Contents.Keys
    ensures forall key :: !d.Stale(key)
  {
    forall key | d.Stale(key)
      ensures false
    {
      d.StaleKeysWereRemoved(key);
    }
  }

  // ---------- a run on which an old page answers ----------

  function TwoKeys(): Items {
    map[0 := 5, 1 := 6]
  }

  function ThreeKeys(): Items {
    map[0 := 5, 1 := 6, 3 := 7]
  }

  lemma ClassesOfKeys()
    ensures Class(TwoKeys(), 0, 0) == TwoKeys() && |TwoKeys()| == 2
    ensures forall i: nat :: Low(i, 1) == 0 ==> Class(TwoKeys(), 1, i) == Class(ThreeKeys(), 1, i) == map[0 := 5]
    ensures forall i: nat :: Low(i, 1) == 1 ==> |Class(TwoKeys(), 1, i)| == 1
    ensures forall i: nat :: Low(i, 1) == 0 ==> Class(ThreeKeys() - {0}, 1, i) == map[]
  {
    LastBits();
    forall i: nat | Low(i, 1) == 1
      ensures |Class(TwoKeys(), 1, i)| == 1
    {
      assert Class(TwoKeys(), 1, i) == map[1 := 6];
    }
  }

  lemma LastBits()
    ensures Low(0, 1) == 0 && Low(1, 1) == 1 && Low(3, 1) == 1 && Low(0, 0) == Low(1, 0) == 0
  {
  }

  method InsertFirst(d: Directory, key: nat, value: nat)
    requires d.Valid() && d.D == 2 && d.global_depth == 0 && |d.Contents| < 2 == d.bucket_size && key < 4 && d.store.sectorpointer <= 4
    modifies d, d.buckets, d.store
    ensures d.Valid() && d.buckets == old(d.buckets) && d.global_depth == 0 && d.depths == old(d.depths)
    ensures d.Contents == old(d.Contents)[key := value] && d.Ever == old(d.Ever) + {key}
    ensures d.store.sectorpointer <= old(d.store.sectorpointer) + WS_MIN
  {
    d.SizeAt(0);
    assert Class(d.Contents, d.depths[0], 0) == d.Contents;
    d.insert(key, value);
  }

  /** Slot 0 has a bucket of depth 1 that holds key 0 alone, over the page on which it once held keys 0 and 1. */
  ghost predicate OverOldPage(d: Directory)
    reads d, d.buckets, d.store
  {
    && d.Valid() && d.D == 2 && d.depths[0] == 1 && !d.buckets[0].IsFull()
    && d.BucketAt(0) && d.PageAt(0).Some? && ToMap(d.PageAt(0).value.1) == TwoKeys()
  }

  /** Keys 0 and 1 fill the one bucket; the insertion of key 3 finds it full, splits it and is then repeated. */
  method InsertThree(d: Directory)
    requires d.Valid() && d.D == 2 && d.global_depth == 0 && d.depths == [0] && d.store.sectorpointer == 0
    requires d.Contents == map[] && d.Ever == {} && d.bucket_size == 2
    modifies d, d.buckets, d.store
    ensures OverOldPage(d) && d.Contents == ThreeKeys() && d.Ever == {0, 1, 3}
    ensures forall i :: 0 <= i < |d.buckets| ==> fresh(d.buckets[i]) || d.buckets[i] in old(d.buckets)
  {
    FillBucket(d);
    SplitAndInsert(d);
  }

  method FillBucket(d: Directory)
    requires d.Valid() && d.D == 2 && d.global_depth == 0 && d.depths == [0] && d.store.sectorpointer == 0
    requires d.Contents == map[] && d.Ever == {} && d.bucket_size == 2
    modifies d, d.buckets, d.store
    ensures d.Valid() && d.buckets == old(d.buckets) && d.global_depth == 0 && d.depths == [0]
    ensures d.Contents == TwoKeys() && d.Ever == {0, 1} && d.store.sectorpointer <= 8
  {
    InsertFirst(d, 0, 5);
    InsertFirst(d, 1, 6);
    assert d.Contents == TwoKeys();
  }

  method SplitAndInsert(d: Directory)
    requires d.Valid() && d.D == 2 && d.global_depth == 0 && d.depths == [0] && d.store.sectorpointer <= 8
    requires d.Contents == TwoKeys() && d.Ever == {0, 1} && d.bucket_size == 2
    modifies d, d.buckets, d.store
    ensures OverOldPage(d) && d.Contents == ThreeKeys() && d.Ever == {0, 1, 3}
    ensures forall i :: 0 <= i < |d.buckets| ==> fresh(d.buckets[i]) || d.buckets[i] in old(d.buckets)
  {
    SplitTwo(d);
    InsertAfterSplit(d);
  }

  method SplitTwo(d: Directory)
    requires d.Valid() && d.D == 2 && d.global_depth == 0 && d.depths == [0] && d.store.sectorpointer <= 8
    requires d.Contents == TwoKeys() && d.Ever == {0, 1} && d.bucket_size == 2
    modifies d, d.buckets, d.store
    ensures OverOldPage(d) && d.Contents == TwoKeys() && d.Ever == {0, 1} && d.store.sectorpointer <= 12
    ensures d.TargetDepth(0) == d.TargetDepth(3) == 1
    ensures forall i :: 0 <= i < |d.buckets| ==> fresh(d.buckets[i]) || d.buckets[i] in old(d.buckets)
  {
    ClassesOfKeys();
    d.SizeAt(0);
    assert ToMap(d.PageAt(0).value.1) == TwoKeys();
    ghost var _ := d.split(0);
    assert Low(0, 0) == Low(3, 0) == 0;
    LowBounds(0, d.global_depth);
    ZeroAlone(d);
  }

  method InsertAfterSplit(d: Directory)
    requires OverOldPage(d) && d.Contents == TwoKeys() && d.Ever == {0, 1} && d.bucket_size == 2
    requires d.TargetDepth(3) == 1 && d.store.sectorpointer <= 12
    modifies d, d.buckets, d.store
    ensures OverOldPage(d) && d.Contents == ThreeKeys() && d.Ever == {0, 1, 3}
    ensures forall i :: 0 <= i < |d.buckets| ==> fresh(d.buckets[i]) || d.buckets[i] in old(d.buckets)
  {
    ThirdHasRoom(d);
    d.insert(3, 7);
    assert d.Contents == ThreeKeys();
    ZeroAlone(d);
  }

  lemma ThirdHasRoom(d: Directory)
    requires d.Valid() && d.Contents == TwoKeys() && d.bucket_size == 2 && d.TargetDepth(3) == 1
    ensures !d.TargetFull(3) && d.PagesNeeded(3) == 1
  {
    ClassesOfKeys();
    LowBounds(3, d.global_depth);
    LowOfLow(3, d.global_depth, 1);
    assert Low(d.Hash(3), 1) == 1;
    d.SizeAt(d.Hash(3));
  }

  lemma ZeroAlone(d: Directory)
    requires d.Valid() && d.depths[0] == 1 && d.bucket_size == 2
    requires d.Contents == TwoKeys() || d.Contents == ThreeKeys()
    ensures d.buckets[0].size == 1 && !d.buckets[0].IsFull() && d.buckets[0].values != []
  {
    ClassesOfKeys();
    assert Low(0, 1) == 0;
    d.SizeAt(0);
  }

  lemma ZeroGone(d: Directory)
    requires d.Valid() && d.depths[0] == 1 && d.Contents == ThreeKeys() - {0}
    ensures d.buckets[0].size == 0
  {
    ClassesOfKeys();
    assert Low(0, 1) == 0;
    d.SizeAt(0);
  }

  /**
    Buckets of two entries, keys 0, 1 and 3 inserted into an empty directory of depth 0, key 0 removed: the directory
    stores keys 1 and 3, and a search for key 0 finds its old value.
   */
  method RemovedKeyIsFound(d: Directory) returns (r: Option<Entry>, found: bool)
    requires d.Valid() && d.D == 2 && d.global_depth == 0 && d.depths == [0] && d.store.sectorpointer == 0
    requires d.Contents == map[] && d.Ever == {} && d.bucket_size == 2
    modifies d, d.buckets, d.store
    ensures d.Valid() && d.Ever == {0, 1, 3} && d.Contents == map[1 := 6, 3 := 7]
    ensures d.Stale(0) && found && r == Some(Entry(0, 5))
  {
    InsertThree(d);
    r, found := RemoveAndSearch(d);
  }

  method RemoveAndSearch(d: Directory) returns (r: Option<Entry>, found: bool)
    requires OverOldPage(d) && d.Contents == ThreeKeys() && d.Ever == {0, 1, 3} && d.bucket_size == 2
    modifies d, d.buckets
    ensures d.Valid() && d.Ever == {0, 1, 3} && d.Contents == map[1 := 6, 3 := 7]
    ensures d.Stale(0) && found && r == Some(Entry(0, 5))
  {
    MakeStale(d);
    r, found := SearchStale(d, 0);
  }

  method MakeStale(d: Directory)
    requires OverOldPage(d) && d.Contents == ThreeKeys() && d.bucket_size == 2
    modifies d, d.buckets
    ensures d.Valid() && d.Ever == old(d.Ever) && d.Contents == map[1 := 6, 3 := 7]
    ensures d.Stale(0) && d.StaleValue(0) == 5
  {
    RemoveZero(d);
    ZeroIsStale(d);
  }

  method SearchStale(d: Directory, key: nat) returns (r: Option<Entry>, found: bool)
    requires d.Valid() && d.Stale(key)
    ensures found && r == Some(Entry(key, d.StaleValue(key)))
  {
    r, found := d.search(key);
  }

  method RemoveZero(d: Directory)
    requires OverOldPage(d) && d.Contents == ThreeKeys() && d.bucket_size == 2
    modifies d, d.buckets
    ensures d.Valid() && d.Ever == old(d.Ever) && d.Contents == ThreeKeys() - {0} && d.depths[0] == 1
    ensures d.BucketAt(0) && d.PageAt(0).Some? && ToMap(d.PageAt(0).value.1) == TwoKeys()
  {
    LowBounds(0, d.global_depth);
    ZeroAlone(d);
    d.remove(0);
    assert d.BucketAt(0);
  }

  lemma ZeroIsStale(d: Directory)
    requires d.Valid() && d.Contents == ThreeKeys() - {0} && d.depths[0] == 1
    requires d.BucketAt(0) && d.PageAt(0).Some? && ToMap(d.PageAt(0).value.1) == TwoKeys()
    ensures d.Contents == map[1 := 6, 3 := 7] && d.Stale(0) && d.StaleValue(0) == 5
  {
    LowBounds(0, d.global_depth);
    ZeroGone(d);
  }
}
