/**
  The page store under both hash indexes: an erase-only device of chunks and the host code that
  hands out fresh pages and rewrites old ones by reading, erasing and rewriting a whole chunk.

  A page is `WS_MIN` sectors long and is named by its first sector.
 */
module PageStore {
  import opened Entries

  const WS_MIN: nat := 4          // sectors written by one command
  const NSECTR: nat := 4096       // sectors of a chunk
  const WRAP: nat := 923648       // where the sector pointer starts over
  const WRAP_CHUNKS: nat := 150   // chunks erased when it does

  type Page = seq<Entry>

  /** A device address. */
  datatype Addr = Addr(chunk: nat, sectr: nat)

  /** `nvm_addr_dev2gen`: the device address of a page number. */
  function Dev2Gen(page: nat): Addr {
    Addr(page / NSECTR, page % NSECTR)
  }

  lemma Dev2GenIsInjective(p: nat, q: nat)
    requires Dev2Gen(p) == Dev2Gen(q)
    ensures p == q
  {
  }

  lemma NextPage(sectr: nat, end: nat)
    requires sectr % WS_MIN == 0 && end % WS_MIN == 0 && sectr < end
    ensures sectr + WS_MIN <= end && (sectr + WS_MIN) % WS_MIN == 0
  {
  }

  /** Sectors of chunk `c` that lie below `sp`. */
  function Fill(sp: nat, c: nat): nat {
    if sp >= (c + 1) * NSECTR then NSECTR
    else if sp > c * NSECTR then sp - c * NSECTR
    else 0
  }

  lemma FillIsWhole(sp: nat, c: nat)
    requires sp % WS_MIN == 0
    ensures Fill(sp, c) % WS_MIN == 0 && Fill(sp, c) <= NSECTR
  {
  }

  /** `unordered_map::operator[]`: an absent chunk counts as zero. */
  function At(m: map<nat, nat>, c: nat): nat {
    if c in m then m[c] else 0
  }

  /** Every chunk is used up to what lies below `sp`. */
  ghost predicate Fills(usage: map<nat, nat>, sp: nat) {
    forall c: nat :: At(usage, c) == Fill(sp, c)
  }

  /** Handing out one page fills the chunk under the sector pointer by one page and no other chunk. */
  lemma FillsOneMore(usage: map<nat, nat>, sp: nat)
    requires sp % WS_MIN == 0 && Fills(usage, sp)
    ensures At(usage, sp / NSECTR) == sp % NSECTR
    ensures Fills(usage[sp / NSECTR := sp % NSECTR + WS_MIN], sp + WS_MIN)
  {
    var q := sp / NSECTR;
    assert At(usage, q) == Fill(sp, q) == sp % NSECTR;
    var usage' := usage[q := sp % NSECTR + WS_MIN];
    forall c: nat
      ensures At(usage', c) == Fill(sp + WS_MIN, c)
    {
      assert At(usage, c) == Fill(sp, c);
      assert Fill(sp + WS_MIN, c) == Fill(sp, c) + if c == q then WS_MIN else 0;
    }
  }

  /** The chunks below `i` are empty, the others used up to the wrap. */
  ghost predicate EmptyBelow(usage: map<nat, nat>, i: nat) {
    forall c: nat :: At(usage, c) == if c < i then 0 else Fill(WRAP, c)
  }

  lemma EmptyOneMore(usage: map<nat, nat>, i: nat)
    requires EmptyBelow(usage, i)
    ensures EmptyBelow(usage[i := 0], i + 1)
  {
    forall c: nat
      ensures At(usage[i := 0], c) == if c < i + 1 then 0 else Fill(WRAP, c)
    {
      assert At(usage, c) == if c < i then 0 else Fill(WRAP, c);
    }
  }

  type Media = map<Addr, Page>

  /** The pages that do not belong to chunk `c`. */
  ghost function Outside(m: Media, c: nat): Media {
    map a | a in m && a.chunk != c :: m[a]
  }

  lemma PageIsWhole(page: nat)
    ensures page % WS_MIN == 0 <==> Dev2Gen(page).sectr % WS_MIN == 0
  {
  }

  /** The pages present are exactly those below the chunks' write pointers. */
  ghost predicate Written(m: Media, pointers: map<nat, nat>, capacity: nat) {
    && (forall a :: a in m <==> a.sectr % WS_MIN == 0 && a.sectr < At(pointers, a.chunk))
    && (forall a :: a in m ==> |m[a]| == capacity)
  }

  lemma WrittenOneMore(m: Media, pointers: map<nat, nat>, capacity: nat, a: Addr, data: Page)
    requires Written(m, pointers, capacity) && a.sectr == At(pointers, a.chunk) && a.sectr % WS_MIN == 0 && |data| == capacity
    ensures Written(m[a := data], pointers[a.chunk := a.sectr + WS_MIN], capacity) && a !in m
  {
    var m', pointers' := m[a := data], pointers[a.chunk := a.sectr + WS_MIN];
    forall x: Addr | true
      ensures x in m' <==> x.sectr % WS_MIN == 0 && x.sectr < At(pointers', x.chunk)
    {
      assert x in m <==> x.sectr % WS_MIN == 0 && x.sectr < At(pointers, x.chunk);
    }
  }

  /** The host counts on every chunk what the device has written there, in whole pages. */
  ghost predicate Agree(usage: map<nat, nat>, pointers: map<nat, nat>) {
    forall c: nat :: At(usage, c) == At(pointers, c) <= NSECTR && At(usage, c) % WS_MIN == 0
  }

  lemma FillsAgree(usage: map<nat, nat>, pointers: map<nat, nat>, sp: nat)
    requires Fills(usage, sp) && Fills(pointers, sp) && sp % WS_MIN == 0
    ensures Agree(usage, pointers)
  {
    forall c: nat
      ensures At(usage, c) == At(pointers, c) <= NSECTR && At(usage, c) % WS_MIN == 0
    {
      assert At(usage, c) == Fill(sp, c) && At(pointers, c) == Fill(sp, c);
      FillIsWhole(sp, c);
    }
  }

  /** Exactly the page at `a` changed, and it now starts with `entries`. */
  ghost predicate Rewritten(m: Media, m': Media, a: Addr, entries: Page) {
    && a in m'
    && entries <= m'[a]
    && m' == m[a := m'[a]]
  }

  class Store {
    // the device
    var writePointer: map<nat, nat>
    var media: Media

    // the host
    const capacity: nat
    var chunkusage: map<nat, nat>
    var sectorpointer: nat
    var writeBuffer: Page

    constructor (capacity: nat)
      ensures Valid() && media == map[] && sectorpointer == 0 && this.capacity == capacity
    {
      this.capacity := capacity;
      writePointer, media, chunkusage, sectorpointer := map[], map[], map[], 0;
      writeBuffer := seq(capacity, i => Entry(0, 0));
    }

    /** Host bookkeeping and device agree, and the pages present are exactly those handed out. */
    ghost predicate Valid()
      reads this
    {
      && |writeBuffer| == capacity
      && sectorpointer % WS_MIN == 0 && sectorpointer < WRAP
      && Fills(chunkusage, sectorpointer) && Fills(writePointer, sectorpointer)
      && Written(media, writePointer, capacity)
    }

    /** Host bookkeeping and device agree, wherever the sector pointer is. */
    ghost predicate Consistent()
      reads this
    {
      |writeBuffer| == capacity && Agree(chunkusage, writePointer) && Written(media, writePointer, capacity)
    }

    /** The pass after the sector pointer has started over. */
    ghost predicate InSecondPass()
      reads this
    {
      && |writeBuffer| == capacity
      && sectorpointer % WS_MIN == 0 && sectorpointer <= WRAP_CHUNKS * NSECTR
      && SecondPass(chunkusage, sectorpointer) && SecondPass(writePointer, sectorpointer)
      && Written(media, writePointer, capacity)
    }

    /** So many fresh pages can still be handed out without the sector pointer starting over. */
    predicate Room(pages: nat)
      reads this
    {
      sectorpointer + WS_MIN * pages < WRAP
    }

    // ---------- device commands ----------

    /** The device accepts a write only at the chunk's write pointer, and refuses any other. */
    method NvmWrite(a: Addr, data: Page) returns (err: int)
      modifies this`writePointer, this`media
      ensures err == 0 <==> a.sectr == At(old(writePointer), a.chunk)
      ensures err == 0 ==> media == old(media)[a := data] && writePointer == old(writePointer)[a.chunk := a.sectr + WS_MIN]
      ensures err != 0 ==> media == old(media) && writePointer == old(writePointer)
    {
      if a.sectr != At(writePointer, a.chunk) {
        return -1;
      }
      media := media[a := data];
      writePointer := writePointer[a.chunk := a.sectr + WS_MIN];
      return 0;
    }

    /** The device erases only a chunk that has been written to its end. */
    method NvmErase(c: nat)
      requires At(writePointer, c) == NSECTR
      modifies this`writePointer, this`media
      ensures media == Outside(old(media), c)
      ensures writePointer == old(writePointer)[c := 0]
    {
      media := map a | a in media && a.chunk != c :: media[a];
      writePointer := writePointer[c := 0];
    }

    // ---------- WriteDisk.cpp ----------

    /** Pads chunk `c` to its end with whatever lies in the transfer buffer. */
    method CompensateFun(c: nat)
      requires At(writePointer, c) == At(chunkusage, c) < NSECTR && At(chunkusage, c) % WS_MIN == 0
      modifies this`writePointer, this`media
      ensures writePointer == old(writePointer)[c := NSECTR]
      ensures Outside(media, c) == Outside(old(media), c)
    {
      var sectr := At(chunkusage, c);
      while sectr < NSECTR
        invariant sectr % WS_MIN == 0 && sectr <= NSECTR && At(writePointer, c) == sectr
        invariant sectr > At(chunkusage, c) ==> writePointer == old(writePointer)[c := sectr]
        invariant sectr == At(chunkusage, c) ==> writePointer == old(writePointer)
        invariant sectr >= At(chunkusage, c)
        invariant Outside(media, c) == Outside(old(media), c)
      {
        var padding: Page := *;
        var err := NvmWrite(Addr(c, sectr), padding);
        assert err == 0;
        sectr := sectr + WS_MIN;
      }
    }

    method EraseChunk(c: nat)
      requires At(writePointer, c) == At(chunkusage, c) <= NSECTR && At(chunkusage, c) % WS_MIN == 0
      modifies this`writePointer, this`media
      ensures writePointer == old(writePointer)[c := 0]
      ensures media == Outside(old(media), c)
    {
      if At(chunkusage, c) < NSECTR {
        CompensateFun(c);
      }
      NvmErase(c);
    }

    /** Accounts for a fresh page just written, in the first pass or in the `second`; past the last sector the pass starts over. */
    method PointerRenew(ghost second: bool)
      requires sectorpointer % WS_MIN == 0 && |writeBuffer| == capacity && Written(media, writePointer, capacity)
      requires if second
        then sectorpointer < WRAP_CHUNKS * NSECTR && SecondPass(chunkusage, sectorpointer) && SecondPass(writePointer, sectorpointer + WS_MIN)
        else sectorpointer < WRAP && Fills(chunkusage, sectorpointer) && Fills(writePointer, sectorpointer + WS_MIN)
      modifies this`chunkusage, this`sectorpointer, this`writePointer, this`media
      ensures second || old(Room(1)) ==>
        && sectorpointer == old(sectorpointer) + WS_MIN && media == old(media) && writePointer == old(writePointer)
        && if second then InSecondPass() else Valid()
      ensures !second && !old(Room(1)) ==> Wrapped() && InSecondPass() && media == Tail(old(media), WRAP_CHUNKS)
    {
      LastOrNot(sectorpointer, second);
      OneMore(chunkusage, sectorpointer, second);
      chunkusage := chunkusage[sectorpointer / NSECTR := At(chunkusage, sectorpointer / NSECTR) + WS_MIN];
      sectorpointer := sectorpointer + WS_MIN;
      if sectorpointer >= WRAP {
        StartOver();
      }
    }

    method StartOver()
      requires Fills(chunkusage, WRAP) && Fills(writePointer, WRAP)
      requires |writeBuffer| == capacity && Written(media, writePointer, capacity)
      modifies this`chunkusage, this`sectorpointer, this`writePointer, this`media
      ensures Wrapped() && InSecondPass() && media == Tail(old(media), WRAP_CHUNKS)
    {
      sectorpointer := 0;
      EraseFirst();
      TailIsWritten(old(media), old(writePointer), writePointer, capacity);
      SecondPassStarts(chunkusage);
      SecondPassStarts(writePointer);
    }

    method EraseFirst()
      requires Fills(chunkusage, WRAP) && Fills(writePointer, WRAP)
      modifies this`chunkusage, this`writePointer, this`media
      ensures EmptyBelow(chunkusage, WRAP_CHUNKS) && EmptyBelow(writePointer, WRAP_CHUNKS)
      ensures media == Tail(old(media), WRAP_CHUNKS)
    {
      var i := 0;
      while i < WRAP_CHUNKS
        invariant i <= WRAP_CHUNKS
        invariant EmptyBelow(chunkusage, i) && EmptyBelow(writePointer, i)
        invariant media == Tail(old(media), i)
      {
        EmptyOneMore(chunkusage, i);
        EmptyOneMore(writePointer, i);
        assert At(chunkusage, i) == At(writePointer, i) == Fill(WRAP, i) == NSECTR;
        EraseChunk(i);
        chunkusage := chunkusage[i := 0];
        assert Outside(Tail(old(media), i), i) == Tail(old(media), i + 1);
        i := i + 1;
      }
    }

    /** The state after the pass started over: the first chunks are empty, the later ones still full. */
    ghost predicate Wrapped()
      reads this
    {
      && sectorpointer == 0
      && EmptyBelow(chunkusage, WRAP_CHUNKS) && EmptyBelow(writePointer, WRAP_CHUNKS)
    }

    // ---------- writer.cpp and reader.cpp ----------

    /** `EBucketRead`, `PageRead` */
    function PageRead(page: nat): Page
      requires Dev2Gen(page) in media
      reads this
    {
      media[Dev2Gen(page)]
    }

    /** `BucketWrite`: the entries overwrite the front of the shared transfer buffer, the rest of it goes out as it was. */
    method BucketWrite(entries: Page, a: Addr) returns (err: int)
      requires |entries| <= capacity == |writeBuffer|
      modifies this`writePointer, this`media, this`writeBuffer
      ensures writeBuffer == entries + old(writeBuffer)[|entries|..]
      ensures err == 0 <==> a.sectr == At(old(writePointer), a.chunk)
      ensures err == 0 ==> media == old(media)[a := writeBuffer] && writePointer == old(writePointer)[a.chunk := a.sectr + WS_MIN]
      ensures err != 0 ==> media == old(media) && writePointer == old(writePointer)
    {
      writeBuffer := entries + writeBuffer[|entries|..];
      err := NvmWrite(a, writeBuffer);
    }

    method ReadChunk(c: nat, cur: nat) returns (temp: map<nat, Page>)
      requires Consistent() && cur == At(chunkusage, c)
      ensures forall s: nat :: s in temp <==> s % WS_MIN == 0 && s < cur
      ensures forall s :: s in temp ==> Addr(c, s) in media && temp[s] == media[Addr(c, s)]
    {
      temp := map[];
      var sectr := 0;
      while sectr < cur
        invariant sectr % WS_MIN == 0 && sectr <= cur
        invariant forall s: nat :: s in temp <==> s % WS_MIN == 0 && s < sectr
        invariant forall s :: s in temp ==> Addr(c, s) in media && temp[s] == media[Addr(c, s)]
      {
        NextPage(sectr, cur);
        temp := temp[sectr := media[Addr(c, sectr)]];
        sectr := sectr + WS_MIN;
      }
    }

    /** Between `m` and `m'` the sectors of `temp` below `upto` were put on chunk `c`, and nothing else. */
    ghost predicate Restored(m: Media, m': Media, c: nat, upto: nat, temp: map<nat, Page>) {
      && Outside(m', c) == m
      && (forall s :: s in temp && s < upto ==> Addr(c, s) in m' && |m'[Addr(c, s)]| == capacity && temp[s] <= m'[Addr(c, s)])
      && (forall a :: a in m' && a.chunk == c ==> a.sectr in temp && a.sectr < upto)
    }

    lemma RestoredStep(m: Media, m': Media, c: nat, sectr: nat, temp: map<nat, Page>, data: Page)
      requires Restored(m, m', c, sectr, temp) && sectr in temp && sectr % WS_MIN == 0
      requires forall s :: s in temp ==> s % WS_MIN == 0
      requires |data| == capacity && temp[sectr] <= data
      ensures Restored(m, m'[Addr(c, sectr) := data], c, sectr + WS_MIN, temp)
    {
    }

    method RewriteChunk(c: nat, cur: nat, temp: map<nat, Page>)
      requires |writeBuffer| == capacity && cur % WS_MIN == 0 && At(writePointer, c) == 0
      requires forall s: nat :: s % WS_MIN == 0 && s < cur ==> s in temp
      requires forall s :: s in temp ==> s % WS_MIN == 0 && |temp[s]| <= capacity
      requires media == Outside(media, c)
      modifies this`writePointer, this`media, this`writeBuffer
      ensures |writeBuffer| == capacity
      ensures forall x :: At(writePointer, x) == if x == c then cur else At(old(writePointer), x)
      ensures Restored(old(media), media, c, cur, temp)
    {
      var sectr := 0;
      while sectr < cur
        invariant sectr % WS_MIN == 0 && sectr <= cur && |writeBuffer| == capacity
        invariant forall x :: At(writePointer, x) == if x == c then sectr else At(old(writePointer), x)
        invariant Restored(old(media), media, c, sectr, temp)
      {
        NextPage(sectr, cur);
        ghost var before := media;
        var err := BucketWrite(temp[sectr], Addr(c, sectr));
        assert err == 0;
        RestoredStep(old(media), before, c, sectr, temp, writeBuffer);
        sectr := sectr + WS_MIN;
      }
    }

    /**
      Replaces one page of a chunk by reading, erasing and rewriting the whole chunk.  A page behind the chunk's
      pages, as one that was erased when the pointer started over, is not written at all.
     */
    method PageUpdate(page: nat, entries: Page)
      requires Consistent() && page % WS_MIN == 0 && |entries| <= capacity
      modifies this`writePointer, this`media, this`writeBuffer
      ensures Consistent() && forall c :: At(writePointer, c) == At(old(writePointer), c)
      ensures if Dev2Gen(page) in old(media) then Rewritten(old(media), media, Dev2Gen(page), entries) else media == old(media)
    {
      var chunkno, updatesec := page / NSECTR, page % NSECTR;
      var cur := At(chunkusage, chunkno);
      var temp: map<nat, Page> := ReadChunk(chunkno, cur);
      EraseChunk(chunkno);
      temp := temp[updatesec := entries];
      RewriteChunk(chunkno, cur, temp);
      ChunkRewritten(old(media), media, chunkno, updatesec, cur, entries, temp);
      StillConsistent(chunkusage, old(writePointer), writePointer, old(media), media, capacity);
    }

    /** A chunk restored sector by sector differs from before only in the page replaced, if that is one of its pages. */
    lemma ChunkRewritten(m: Media, m': Media, c: nat, sec: nat, cur: nat, entries: Page, temp: map<nat, Page>)
      requires forall s: nat :: Addr(c, s) in m <==> s % WS_MIN == 0 && s < cur
      requires forall s: nat :: s in temp <==> s == sec || (s % WS_MIN == 0 && s < cur)
      requires forall a :: a in m ==> |m[a]| == capacity
      requires sec % WS_MIN == 0 && temp[sec] == entries
      requires forall s :: s in temp && s != sec ==> temp[s] == m[Addr(c, s)]
      requires Restored(Outside(m, c), m', c, cur, temp)
      ensures if Addr(c, sec) in m then Rewritten(m, m', Addr(c, sec), entries) else m' == m
      ensures forall a :: a in m' ==> |m'[a]| == capacity
    {
      forall a | a in m'
        ensures a in m && (a != Addr(c, sec) ==> m'[a] == m[a]) && |m'[a]| == capacity
      {
        if a.chunk == c {
          assert a == Addr(c, a.sectr);
        } else {
          assert a in Outside(m', c);
        }
      }
      forall a | a in m
        ensures a in m'
      {
        if a.chunk == c {
          assert a == Addr(c, a.sectr);
        } else {
          assert a in Outside(m, c);
        }
      }
    }

    /** Writes a page at the sector pointer, which moves past it if the device accepts the page. */
    method FreshPage(entries: Page) returns (page: nat)
      requires (Valid() || InSecondPass()) && |entries| <= capacity
      modifies this
      ensures page == old(sectorpointer) && writeBuffer == entries + old(writeBuffer)[|entries|..]
      ensures old(Valid()) ==> Dev2Gen(page) in media && media[Dev2Gen(page)] == writeBuffer
      ensures old(Valid() && Room(1)) ==> Valid() && sectorpointer == old(sectorpointer) + WS_MIN
      ensures old(Valid() && Room(1)) ==> Dev2Gen(page) !in old(media) && Rewritten(old(media), media, Dev2Gen(page), entries)
      ensures old(Valid() && !Room(1)) ==> Wrapped() && InSecondPass() && WrapStep(old(media), media, page, entries)
      ensures old(InSecondPass()) ==> InSecondPass() && SecondPassStep(old(media), media, old(sectorpointer), sectorpointer, entries)
    {
      page := sectorpointer;
      ghost var second := InSecondPass();
      FreshWrite();
      if Valid() {
        NotBoth();
      }
      var err := BucketWrite(entries, Dev2Gen(page));
      if err == 0 {
        TailAfterLastPage(old(media), page, writeBuffer);
        WrittenOneMore(old(media), old(writePointer), capacity, Dev2Gen(page), writeBuffer);
        PointerRenew(second);
      }
    }

    /** What the device does with the next fresh page: in the first pass it accepts it, in the second on the erased chunks only. */
    lemma FreshWrite()
      requires Valid() || InSecondPass()
      ensures var a, sp := Dev2Gen(sectorpointer), sectorpointer;
        if InSecondPass()
        then (a.sectr == At(writePointer, a.chunk) <==> sp < WRAP_CHUNKS * NSECTR)
          && (sp < WRAP_CHUNKS * NSECTR ==> SecondPass(writePointer[a.chunk := a.sectr + WS_MIN], sp + WS_MIN))
          && (sp == WRAP_CHUNKS * NSECTR ==> a in media)
        else a.sectr == At(writePointer, a.chunk) && Fills(writePointer[a.chunk := a.sectr + WS_MIN], sp + WS_MIN)
    {
      if InSecondPass() {
        SecondPassIsBlocked(writePointer, sectorpointer);
        if sectorpointer < WRAP_CHUNKS * NSECTR {
          SecondPassOneMore(writePointer, sectorpointer);
        }
      } else {
        FillsOneMore(writePointer, sectorpointer);
      }
    }

    lemma NotBoth()
      requires Valid()
      ensures !InSecondPass()
    {
      assert At(writePointer, WRAP / NSECTR) == Fill(sectorpointer, WRAP / NSECTR) < Fill(WRAP, WRAP / NSECTR);
    }

    /** `SingleBucketWrite`: a bucket without a page gets the page at the sector pointer, a bucket with a page has it rewritten. */
    method SingleBucketWrite(entries: Page, pageno: Option<nat>) returns (page: nat)
      requires (Valid() || InSecondPass()) && |entries| <= capacity
      requires pageno.Some? ==> pageno.value % WS_MIN == 0
      modifies this
      ensures pageno.Some? ==> page == pageno.value && sectorpointer == old(sectorpointer)
      ensures pageno.Some? ==> (old(Valid()) ==> Valid()) && (old(InSecondPass()) ==> InSecondPass())
      ensures pageno.None? ==> page == old(sectorpointer)
      ensures pageno.None? && old(Valid() && Room(1)) ==>
        Valid() && Dev2Gen(page) !in old(media) && sectorpointer == old(sectorpointer) + WS_MIN
      ensures pageno.Some? && Dev2Gen(pageno.value) !in old(media) ==> media == old(media)
      ensures (if pageno.Some? then Dev2Gen(pageno.value) in old(media) else old(Valid() && Room(1))) ==>
        Rewritten(old(media), media, Dev2Gen(page), entries)
      ensures pageno.None? && old(Valid() && !Room(1)) ==>
        Wrapped() && InSecondPass() && WrapStep(old(media), media, page, entries)
      ensures pageno.None? && old(InSecondPass()) ==>
        InSecondPass() && SecondPassStep(old(media), media, old(sectorpointer), sectorpointer, entries)
    {
      if pageno.None? {
        page := FreshPage(entries);
      } else {
        page := pageno.value;
        IsConsistent();
        PageUpdate(page, entries);
      }
    }

    lemma IsConsistent()
      requires Valid() || InSecondPass()
      ensures Consistent()
    {
      if Valid() {
        FillsAgree(chunkusage, writePointer, sectorpointer);
      } else {
        SecondPassAgrees(chunkusage, writePointer, sectorpointer);
      }
    }
  }

  /** With the same write pointers and pages in the same places, host and device still agree. */
  lemma StillConsistent(usage: map<nat, nat>, p: map<nat, nat>, p': map<nat, nat>, m: Media, m': Media, capacity: nat)
    requires Agree(usage, p) && Written(m, p, capacity) && forall c: nat :: At(p', c) == At(p, c)
    requires m'.Keys == m.Keys && forall a :: a in m' ==> |m'[a]| == capacity
    ensures Agree(usage, p') && Written(m', p', capacity)
  {
    forall a: Addr | true
      ensures a in m' <==> a.sectr % WS_MIN == 0 && a.sectr < At(p', a.chunk)
    {
      assert a in m' <==> a in m;
      assert a in m <==> a.sectr % WS_MIN == 0 && a.sectr < At(p, a.chunk);
    }
  }

  /** What is left of the medium when the chunks below `c` are gone. */
  ghost function Tail(m: Media, c: nat): Media {
    map a | a in m && a.chunk >= c :: m[a]
  }

  /** What the last fresh page of the first pass does to the medium: the pages of the first chunks go, the page itself is
      written on a later chunk, where nothing was, and every other page of the later chunks stays. */
  ghost predicate WrapStep(m: Media, m': Media, page: nat, entries: Page) {
    Dev2Gen(page) !in m && Dev2Gen(page).chunk >= WRAP_CHUNKS && Rewritten(Tail(m, WRAP_CHUNKS), m', Dev2Gen(page), entries)
  }

  lemma TailAfterLastPage(m: Media, page: nat, data: Page)
    ensures page + WS_MIN >= WRAP ==>
      Dev2Gen(page).chunk >= WRAP_CHUNKS
      && Tail(m[Dev2Gen(page) := data], WRAP_CHUNKS) == Tail(m, WRAP_CHUNKS)[Dev2Gen(page) := data]
  {
  }

  lemma TailIsWritten(m: Media, pointers: map<nat, nat>, pointers': map<nat, nat>, capacity: nat)
    requires Written(m, pointers, capacity) && Fills(pointers, WRAP) && EmptyBelow(pointers', WRAP_CHUNKS)
    ensures Written(Tail(m, WRAP_CHUNKS), pointers', capacity)
  {
    forall a: Addr | true
      ensures a in Tail(m, WRAP_CHUNKS) <==> a.sectr % WS_MIN == 0 && a.sectr < At(pointers', a.chunk)
    {
      assert At(pointers, a.chunk) == Fill(WRAP, a.chunk);
      assert At(pointers', a.chunk) == if a.chunk < WRAP_CHUNKS then 0 else Fill(WRAP, a.chunk);
    }
  }

  /** The write pointers while the second pass has handed out the pages below `p`: only the first chunks were erased for it. */
  ghost predicate SecondPass(pointers: map<nat, nat>, p: nat) {
    forall c: nat :: At(pointers, c) == if c < WRAP_CHUNKS then Fill(p, c) else Fill(WRAP, c)
  }

  /** What a fresh page of the second pass does to the medium: on the chunks that were erased it is written where
      nothing was, behind them it is an occupied page, is not written, and the pointer stays. */
  ghost predicate SecondPassStep(m: Media, m': Media, sp: nat, sp': nat, entries: Page) {
    if sp < WRAP_CHUNKS * NSECTR then
      Dev2Gen(sp) !in m && Rewritten(m, m', Dev2Gen(sp), entries) && sp' == sp + WS_MIN
    else
      Dev2Gen(sp) in m && m' == m && sp' == sp
  }

  lemma SecondPassOneMore(pointers: map<nat, nat>, p: nat)
    requires SecondPass(pointers, p) && p % WS_MIN == 0 && p < WRAP_CHUNKS * NSECTR
    ensures At(pointers, p / NSECTR) == p % NSECTR
    ensures SecondPass(pointers[p / NSECTR := p % NSECTR + WS_MIN], p + WS_MIN)
  {
    var q := p / NSECTR;
    assert At(pointers, q) == Fill(p, q) == p % NSECTR;
    var pointers' := pointers[q := p % NSECTR + WS_MIN];
    forall c: nat
      ensures At(pointers', c) == if c < WRAP_CHUNKS then Fill(p + WS_MIN, c) else Fill(WRAP, c)
    {
      assert At(pointers, c) == if c < WRAP_CHUNKS then Fill(p, c) else Fill(WRAP, c);
      assert Fill(p + WS_MIN, c) == Fill(p, c) + if c == q then WS_MIN else 0;
    }
  }

  /** The page before the wrap is the last of the first pass, and the second pass does not get there. */
  lemma LastOrNot(sp: nat, second: bool)
    requires sp % WS_MIN == 0 && if second then sp < WRAP_CHUNKS * NSECTR else sp < WRAP
    ensures if second || sp + WS_MIN < WRAP then sp + WS_MIN < WRAP else sp + WS_MIN == WRAP
    ensures (sp + WS_MIN) % WS_MIN == 0 && (second ==> sp + WS_MIN <= WRAP_CHUNKS * NSECTR)
  {
  }

  lemma OneMore(usage: map<nat, nat>, sp: nat, second: bool)
    requires sp % WS_MIN == 0 && if second then sp < WRAP_CHUNKS * NSECTR && SecondPass(usage, sp) else Fills(usage, sp)
    ensures var usage' := usage[sp / NSECTR := At(usage, sp / NSECTR) + WS_MIN];
      if second then SecondPass(usage', sp + WS_MIN) else Fills(usage', sp + WS_MIN)
  {
    if second {
      SecondPassOneMore(usage, sp);
    } else {
      FillsOneMore(usage, sp);
    }
  }

  lemma SecondPassAgrees(usage: map<nat, nat>, pointers: map<nat, nat>, sp: nat)
    requires SecondPass(usage, sp) && SecondPass(pointers, sp) && sp % WS_MIN == 0
    ensures Agree(usage, pointers)
  {
    forall c: nat
      ensures At(usage, c) == At(pointers, c) <= NSECTR && At(usage, c) % WS_MIN == 0
    {
      var upto := if c < WRAP_CHUNKS then sp else WRAP;
      assert At(usage, c) == Fill(upto, c) && At(pointers, c) == Fill(upto, c);
      FillIsWhole(upto, c);
    }
  }

  lemma SecondPassStarts(pointers: map<nat, nat>)
    requires EmptyBelow(pointers, WRAP_CHUNKS)
    ensures SecondPass(pointers, 0)
  {
  }

  /** The device accepts the next fresh page of the second pass exactly on the chunks that were erased; the first one behind them is still full. */
  lemma SecondPassIsBlocked(pointers: map<nat, nat>, p: nat)
    requires SecondPass(pointers, p) && p % WS_MIN == 0 && p < WRAP
    ensures Dev2Gen(p).sectr == At(pointers, Dev2Gen(p).chunk) <==> p < WRAP_CHUNKS * NSECTR
  {
    var c := p / NSECTR;
    assert At(pointers, c) == if c < WRAP_CHUNKS then Fill(p, c) else Fill(WRAP, c);
    assert Fill(p, c) == p % NSECTR;
    if c >= WRAP_CHUNKS {
      assert Fill(WRAP, c) == NSECTR || (c == WRAP / NSECTR && Fill(WRAP, c) == WRAP % NSECTR > p % NSECTR);
    }
  }

  // ---------- runs of fresh pages in the second pass ----------

  /** The page that the `i`-th fresh write of the second pass hands out. */
  function SecondPassPage(i: nat): nat {
    if WS_MIN * i < WRAP_CHUNKS * NSECTR then WS_MIN * i else WRAP_CHUNKS * NSECTR
  }

  /** Fresh writes alone, from the start of the second pass on, whatever they write. */
  method SecondPassRun(store: Store, writes: seq<Page>) returns (pages: seq<nat>)
    requires store.InSecondPass() && store.sectorpointer == 0
    requires forall i :: 0 <= i < |writes| ==> |writes[i]| <= store.capacity
    modifies store
    ensures store.InSecondPass() && |pages| == |writes|
    ensures forall i :: 0 <= i < |pages| ==> pages[i] == SecondPassPage(i)
  {
    pages := [];
    for i := 0 to |writes|
      invariant store.InSecondPass() && |pages| == i && store.sectorpointer == SecondPassPage(i)
      invariant forall j :: 0 <= j < i ==> pages[j] == SecondPassPage(j)
    {
      var page := store.SingleBucketWrite(writes[i], None);
      pages := pages + [page];
    }
  }

  ghost predicate HandedOutOnce(p: nat) {
    forall i, j :: SecondPassPage(i) == p && SecondPassPage(j) == p ==> i == j
  }

  /** In the second pass a page is handed out once exactly if it lies on an erased chunk; the first page behind
      them, 614400, is handed out by every further write. */
  lemma OnceExactlyWhen(p: nat)
    requires exists i :: SecondPassPage(i) == p
    ensures HandedOutOnce(p) <==> p < WRAP_CHUNKS * NSECTR
  {
    if p >= WRAP_CHUNKS * NSECTR {
      assert WRAP_CHUNKS * NSECTR == 614400;
      assert SecondPassPage(153600) == p && SecondPassPage(153601) == p;
    }
  }
}
