/** The bucket of the extendible hash: resident until it is full, then one sorted page of the store. */
module ExtendibleBucket {
  import opened Entries
  import opened PageStore

  class ExBucket {
    const maxsize: nat
    const store: Store
    var depth: nat
    var size: nat
    var PageNum: Option<nat>
    var values: seq<Entry>

    constructor (depth: nat, msize: nat, store: Store)
      requires 0 < msize == store.capacity
      ensures Valid() && Items() == map[] && size == 0 && PageNum == None
      ensures this.depth == depth && maxsize == msize && this.store == store
    {
      this.depth, this.maxsize, this.store := depth, msize, store;
      size, PageNum, values := 0, None, [];
    }

    predicate IsFull()
      reads this
    {
      size >= maxsize
    }

    predicate IsEmpty()
      reads this
    {
      size == 0
    }

    /** The page of the bucket, when it has one. */
    ghost function OwnPage(): Page
      requires PageNum.Some? && Dev2Gen(PageNum.value) in store.media
      reads this, store
    {
      store.PageRead(PageNum.value)
    }

    /** Resident entries below `maxsize`, and exactly one full page at it. */
    ghost predicate Valid()
      reads this, store
    {
      && 0 < maxsize == store.capacity
      && DistinctKeys(values)
      && (PageNum.Some? ==> Dev2Gen(PageNum.value) in store.media && |OwnPage()| == maxsize && DistinctKeys(OwnPage()))
      && (size < maxsize ==> |values| == size)
      && (size >= maxsize ==> size == maxsize && values == [] && PageNum.Some?)
    }

    /** What the bucket stores.  The page of a bucket that is not full is not part of it. */
    ghost function Items(): map<nat, nat>
      requires Valid()
      reads this, store
    {
      if IsFull() then ToMap(OwnPage()) else ToMap(values)
    }

    lemma SizeOfItems()
      requires Valid()
      ensures |Items()| == size
    {
      if IsFull() {
        MapSize(OwnPage());
      } else {
        MapSize(values);
      }
    }

    /** Between two states of the store at most page `p` changed. */
    static ghost predicate OnlyPage(m: Media, m': Media, p: Option<nat>) {
      m' == m || (p.Some? && Dev2Gen(p.value) in m' && m' == m[Dev2Gen(p.value) := m'[Dev2Gen(p.value)]])
    }

    /** A change to another bucket's page, or to another bucket, is not seen by this one. */
    twostate lemma Unaffected(new p: Option<nat>)
      requires old(Valid()) && unchanged(this)
      requires OnlyPage(old(store.media), store.media, p)
      requires p.Some? && PageNum.Some? ==> p != PageNum
      ensures Valid() && Items() == old(Items())
      ensures PageNum.Some? ==> OwnPage() == old(OwnPage())
    {
      if PageNum.Some? && p.Some? && Dev2Gen(p.value) == Dev2Gen(PageNum.value) {
        Dev2GenIsInjective(p.value, PageNum.value);
      }
    }

    /** Writes the resident entries out, to a fresh page the first time and in place afterwards. */
    method PageWrite()
      requires store.Valid() && 0 < maxsize == store.capacity
      requires size == maxsize == |values| && DistinctKeys(values)
      requires PageNum.Some? ==> Dev2Gen(PageNum.value) in store.media
      requires PageNum.None? ==> store.Room(1)
      modifies this, store
      ensures store.Valid() && Valid() && IsFull()
      ensures Items() == ToMap(old(values)) && Ascending(OwnPage())
      ensures depth == old(depth)
      ensures old(PageNum).Some? ==> PageNum == old(PageNum) && store.sectorpointer == old(store.sectorpointer)
      ensures old(PageNum).None? ==> PageNum == Some(old(store.sectorpointer)) && Dev2Gen(PageNum.value) !in old(store.media)
                                     && store.sectorpointer == old(store.sectorpointer) + WS_MIN
      ensures OnlyPage(old(store.media), store.media, PageNum)
    {
      SortKeepsMap(values);
      SortedByKey(values);
      values := SortByKey(values);
      if PageNum.Some? {
        PageIsWhole(PageNum.value);
      }
      var page := store.SingleBucketWrite(values, PageNum);
      PageNum := Some(page);
      assert OwnPage() == values;
      values := [];
    }

    /** Puts one entry into a bucket that is not full; 1 when the bucket stays resident after growing. */
    method Insert(key: nat, value: nat) returns (code: nat)
      requires store.Valid() && Valid() && !IsFull()
      requires PageNum.None? ==> store.Room(1)
      modifies this, store
      ensures store.Valid() && Valid()
      ensures Items() == old(Items())[key := value]
      ensures code == 1 <==> key !in old(Items()) && !IsFull()
      ensures depth == old(depth)
      ensures OnlyPage(old(store.media), store.media, PageNum)
      ensures !IsFull() ==> PageNum == old(PageNum) && store.media == old(store.media) && store.sectorpointer == old(store.sectorpointer)
      ensures old(PageNum).Some? ==> PageNum == old(PageNum) && store.sectorpointer == old(store.sectorpointer)
      ensures PageNum != old(PageNum) ==> PageNum == Some(old(store.sectorpointer)) && Dev2Gen(PageNum.value) !in old(store.media)
                                          && store.sectorpointer == old(store.sectorpointer) + WS_MIN
      ensures IsFull() ==> PageNum.Some? && Ascending(OwnPage())
    {
      var i := FindKey(values, key);
      if i < |values| {
        MapAfterOverwrite(values, i, value);
        values := values[i := Entry(values[i].key, value)];
        return 0;
      }
      MapAfterAppend(values, Entry(key, value));
      values := values + [Entry(key, value)];
      size := size + 1;
      if IsFull() {
        PageWrite();
        return 0;
      }
      return 1;
    }

    /** What a search of this bucket reports: nothing when the program's own assertion stops it. */
    ghost function Answer(key: nat): Option<Entry>
      requires Valid()
      reads this, store
    {
      if values != [] then Some(if key in ToMap(values) then Entry(key, ToMap(values)[key]) else Entry(0, 0))
      else if PageNum.None? then None
      else Some(if key in ToMap(OwnPage()) then Entry(key, ToMap(OwnPage())[key]) else Entry(key, 0))
    }

    method Search(key: nat) returns (r: Option<Entry>)
      requires Valid()
      ensures r == Answer(key)
    {
      if |values| != 0 {
        var i := FindKey(values, key);
        if i != |values| {
          MapHasEntry(values, i);
          return Some(values[i]);
        }
        return Some(Entry(0, 0));
      }
      if PageNum.None? {
        return None;
      }
      var entries := store.PageRead(PageNum.value);
      var i := FindKey(entries, key);
      if i != |entries| {
        MapHasEntry(entries, i);
        return Some(entries[i]);
      }
      return Some(Entry(key, 0));
    }

    /** The branch of `Remove` on a resident bucket. */
    method Remove(key: nat) returns (code: nat)
      requires Valid() && values != []
      modifies this
      ensures Valid() && !IsFull()
      ensures Items() == old(Items()) - {key}
      ensures code == 0 <==> key in old(Items())
      ensures depth == old(depth) && PageNum == old(PageNum)
    {
      var i := FindKey(values, key);
      if i < |values| {
        EraseKeepsDistinct(values, i);
        MapAfterErase(values, i);
        values := Erase(values, i);
        size := size - 1;
        return 0;
      }
      return 1;
    }

    method GetData() returns (data: seq<Entry>)
      requires Valid()
      ensures IsFull() ==> data == OwnPage()
      ensures values != [] ==> data == values
      ensures values == [] && !IsFull() ==> data == if PageNum.Some? then OwnPage() else []
    {
      if PageNum.Some? && |values| == 0 {
        return store.PageRead(PageNum.value);
      }
      return values;
    }

    method IncreaseDepth() returns (d: nat)
      modifies this`depth
      ensures d == depth == old(depth) + 1
    {
      depth := depth + 1;
      return depth;
    }

    method DecreaseDepth() returns (d: nat)
      requires depth > 0
      modifies this`depth
      ensures d == depth == old(depth) - 1
    {
      depth := depth - 1;
      return depth;
    }

    method Allclear()
      requires Valid()
      modifies this
      ensures Valid() && size == 0 && Items() == map[]
      ensures depth == old(depth) && PageNum == old(PageNum)
    {
      values := [];
      size := 0;
    }
  }
}
