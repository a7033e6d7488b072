/** The LSM tree: a buffer over levels that flush into each other. */
module Tree {
  import opened Arithmetic
  import opened Bits
  import opened Entries
  import opened Merge
  import opened Buffer
  import opened Level
  import Flush

  /** Of the entries `es`, `out` is released, in order and above all that is still queued. */
  ghost predicate Draining(out: seq<Entry>, queue: multiset<Entry>, es: seq<Entry>) {
    && multiset(out) + queue == multiset(es)
    && InOrder(out)
    && (forall o, q :: o in out && q in queue ==> !Less(o, q))
  }

  lemma Released(out: seq<Entry>, queue: multiset<Entry>, es: seq<Entry>, e: Entry)
    requires Draining(out, queue, es) && e in queue
    requires forall q :: q in queue ==> !Less(e, q)
    ensures Draining(out + [e], queue - multiset{e}, es)
  {
    var out' := out + [e];
    forall i, j | 0 <= i < j < |out'|
      ensures !Less(out'[i], out'[j])
    {
      assert out'[i] == out[i];
      if j < |out| {
        assert out'[j] == out[j];
      }
    }
    assert multiset(out') + (queue - multiset{e}) == multiset(out) + queue;
    forall o, q | o in out' && q in queue - multiset{e}
      ensures !Less(o, q)
    {
      assert q in queue;
    }
  }

  lemma ReleasedLive(out: seq<Entry>, queue: multiset<Entry>, es: seq<Entry>, e: Entry)
    requires multiset(out) + queue == multiset(es) && e in queue
    ensures |Flush.Live(out)| < |es|
    ensures Flush.Live(out + [e]) == Flush.Live(out) + if e.val != 0 then [e] else []
  {
    StillToCome(out, queue, es);
    Flush.LiveIsRest(out);
    Flush.LiveOfMore(out, e);
  }

  lemma StillToCome(out: seq<Entry>, queue: multiset<Entry>, es: seq<Entry>)
    requires multiset(out) + queue == multiset(es)
    ensures |out| + |queue| == |es|
  {
    assert |multiset(out)| == |out| && |multiset(es)| == |es|;
  }

  lemma Drained(out: seq<Entry>, es: seq<Entry>)
    requires Draining(out, multiset{}, es)
    ensures out == Arranged(es)
  {
    ArrangedIsInOrder(es);
    OrderIsUnique(out, Arranged(es));
  }

  /** Empties the merge context into a level, leaving out the tombstones. */
  method Drain(mergecon: MergeContext, next: NoFTLKVLevel, ghost es: seq<Entry>)
    requires next.Valid() && next.Data() == []
    requires mergecon.queue == multiset(es) && |es| <= 2 * next.MaxRunSize
    modifies mergecon, next.Runs[0], next.Runs[1]
    ensures next.Valid() && next.Data() == Flush.Live(Arranged(es))
  {
    ghost var out: seq<Entry> := [];
    while !mergecon.IsEmpty()
      invariant next.Valid() && next.Data() == Flush.Live(out)
      invariant Draining(out, mergecon.queue, es)
      decreases |mergecon.queue|
    {
      out := DrainOne(mergecon, next, out, es);
    }
    Drained(out, es);
  }

  method DrainOne(mergecon: MergeContext, next: NoFTLKVLevel, ghost out: seq<Entry>, ghost es: seq<Entry>) returns (ghost out': seq<Entry>)
    requires next.Valid() && next.Data() == Flush.Live(out) && !mergecon.IsEmpty()
    requires Draining(out, mergecon.queue, es) && |es| <= 2 * next.MaxRunSize
    modifies mergecon, next.Runs[0], next.Runs[1]
    ensures next.Valid() && next.Data() == Flush.Live(out')
    ensures Draining(out', mergecon.queue, es) && |mergecon.queue| < |old(mergecon.queue)|
  {
    ghost var queue := mergecon.queue;
    var entry := mergecon.Contextpop1();
    Released(out, queue, es, entry);
    ReleasedLive(out, queue, es, entry);
    if entry.val != 0 {
      next.PutValue(entry);
    }
    out' := out + [entry];
  }

  lemma NothingDropped(es: seq<Entry>)
    requires Flush.NoTombstones(es)
    ensures Flush.Live(Arranged(es)) == Arranged(es)
  {
    var a := Arranged(es);
    forall e | e in a
      ensures e.val != 0
    {
      assert e in multiset(a);
    }
    Flush.LiveIsRest(a);
  }

  class LSMTreeNoFTL {
    const buffer: MemoryBuffer
    const Levels: seq<NoFTLKVLevel>
    ghost const runs: set<Run>             // the runs of all levels
    ghost var view: Flush.Levels           // the entries of each level
    ghost var flushed: seq<seq<Entry>>     // the buffers flushed so far, oldest first

    /** The levels are sound, apart from each other and hold what `view` says. */
    ghost predicate Holds()
      reads this`view, runs
    {
      && buffer.MaxSize > 0 && |Levels| > 0 && |view| == |Levels|
      && (forall i :: 0 <= i < |Levels| ==> HoldsAt(i))
    }

    ghost predicate HoldsAt(i: nat)
      requires i < |Levels|
      reads this`view, runs
    {
      && i < |view| && Levels[i].LevelNumber == i + 1
      && |Levels[i].Runs| == 2 && Levels[i].Runs[0] in runs && Levels[i].Runs[1] in runs
      && Levels[i].Valid() && Levels[i].Data() == view[i]
      && Levels[i].MaxRunSize == Flush.RunSize(buffer.MaxSize, i)
    }

    /** A tree that has seen no other: level `i` gets number `i + 1` from the program's counter. */
    constructor (BufferSize: nat, levelnum: nat, pagesize: nat)
      requires BufferSize > 0 && levelnum > 0 && pagesize > 0
      ensures Valid() && |Levels| == levelnum && buffer.MaxSize == pagesize * BufferSize
      ensures flushed == [] && buffer.Entries == map[]
    {
      var empty := new MemoryBuffer(BufferSize, pagesize);
      NonZero(pagesize, BufferSize);
      TimesIsMultiple(pagesize, BufferSize);
      buffer := empty;
      var levels: seq<NoFTLKVLevel> := [];
      ghost var all: set<Run> := {};
      for i := 0 to levelnum
        invariant |levels| == i && FreshLevels(levels, empty.MaxSize, all) && fresh(all)
        invariant empty.Valid() && empty.Entries == map[]
      {
        levels, all := AddLevel(levels, all, empty.MaxSize, pagesize);
      }
      Levels := levels;
      runs := all;
      flushed := [];
      view := seq(levelnum, i => []);
      new;
      Built(buffer.MaxSize);
    }

    lemma Built(b: nat)
      requires FreshLevels(Levels, b, runs) && |Levels| > 0 && b == buffer.MaxSize > 0
      requires view == seq(|Levels|, i => [])
      ensures Holds() && Flushed([], b, |Levels|) && view == Flush.AfterFlushes([], b, |Levels|)
    {
      forall i | 0 <= i < |Levels|
        ensures HoldsAt(i)
      {
        assert FreshLevel(Levels[i], b, i, runs);
      }
    }

    ghost predicate Valid()
      reads this`view, this`flushed, buffer, runs
    {
      Sound() && buffer.Valid() && (forall k :: k in buffer.Entries ==> buffer.Entries[k] != 0)
    }

    /** The levels are those of the flushes so far. */
    ghost predicate Sound()
      reads this`view, this`flushed, runs
    {
      && Holds()
      && Flushed(flushed, buffer.MaxSize, |Levels|)
      && view == Flush.AfterFlushes(flushed, buffer.MaxSize, |Levels|)
    }

    /** A level's runs are whole, as many as the digit of the flush count says, and read one after the other they are in order. */
    lemma LevelOfTree(i: nat)
      requires Valid() && i < |Levels|
      ensures Levels[i].Valid() && Levels[i].Settled()
      ensures |Levels[i].Data()| == Flush.Digit(|flushed|, i) * Levels[i].MaxRunSize
      ensures InOrder(Levels[i].Data())
    {
      assert HoldsAt(i) && Flush.SettledAt(view, buffer.MaxSize, i);
      Flush.RunsAfterFlushes(flushed, buffer.MaxSize, |Levels|, i);
      Flush.AfterFlushesSorted(flushed, buffer.MaxSize, |Levels|);
    }

    /** The levels hold every entry as often as it was flushed to them. */
    lemma EntriesOfTree(e: Entry)
      requires Valid()
      ensures Flush.Occurs(view, e) == Flush.Occurs(flushed, e)
    {
      Flush.AfterFlushesConserves(flushed, buffer.MaxSize, |Levels|, e);
    }

    /** A level holds the entries of consecutive flushes, each newer than those on deeper levels. */
    lemma AgesOfTree(i: nat, e: Entry)
      requires Valid() && i < |view|
      ensures Flush.Oldest(|flushed|, i + 1) <= Flush.Oldest(|flushed|, i) <= |flushed|
      ensures multiset(view[i])[e] == Flush.Occurs(flushed[Flush.Oldest(|flushed|, i + 1)..Flush.Oldest(|flushed|, i)], e)
    {
      Flush.LevelHoldsStretch(flushed, buffer.MaxSize, |Levels|, i, e);
    }

    /** Puts into the buffer, which is flushed first when it is full. */
    method PutValue(key: nat, val: nat)
      requires Valid() && val != 0
      requires |buffer.Entries| == buffer.MaxSize ==> |flushed| < 2 * (Pow2(|Levels|) - 1)
      modifies this`view, this`flushed, runs, buffer
      ensures Valid()
      ensures |old(buffer.Entries)| < buffer.MaxSize ==>
        flushed == old(flushed) && buffer.Entries == old(buffer.Entries)[key := val]
      ensures |old(buffer.Entries)| == buffer.MaxSize ==>
        && |flushed| == |old(flushed)| + 1 && flushed[..|old(flushed)|] == old(flushed)
        && Lists(flushed[|old(flushed)|], old(buffer.Entries)) && buffer.Entries == map[key := val]
    {
      var room := PutBuffered(key, val);
      if !room {
        FlushBuffer();
        buffer.AllClear();
        var ok := PutBuffered(key, val);
        assert ok;
      }
    }

    method PutBuffered(key: nat, val: nat) returns (ok: bool)
      requires Valid() && val != 0
      modifies buffer
      ensures Valid() && ok == (old(|buffer.Entries|) < buffer.MaxSize)
      ensures buffer.Entries == if ok then old(buffer.Entries)[key := val] else old(buffer.Entries)
    {
      ok := buffer.PutValue(key, val);
    }

    method FlushBuffer()
      requires Valid() && |buffer.Entries| == buffer.MaxSize && |flushed| < 2 * (Pow2(|Levels|) - 1)
      modifies this`view, this`flushed, runs
      ensures Valid()
      ensures |flushed| == |old(flushed)| + 1 && flushed[..|old(flushed)|] == old(flushed)
      ensures Lists(flushed[|old(flushed)|], buffer.Entries)
    {
      CanFlushFirst(flushed, buffer.MaxSize, |Levels|);
      ghost var es := FlushDown();
      OneMoreFlush(flushed, buffer.MaxSize, |Levels|, es);
      assert view == Flush.AfterFlushes(flushed + [es], buffer.MaxSize, |Levels|);
      flushed := flushed + [es];
    }

    method FlushDown() returns (ghost es: seq<Entry>)
      requires Holds() && buffer.Valid() && |buffer.Entries| == buffer.MaxSize
      requires forall k :: k in buffer.Entries ==> buffer.Entries[k] != 0
      requires CanFlush(view, buffer.MaxSize, 0)
      modifies this`view, runs
      ensures Holds() && view == Flush.FlushBuffer(old(view), buffer.MaxSize, es)
      ensures Lists(es, buffer.Entries) && |es| == buffer.MaxSize && Flush.NoTombstones(es)
      ensures unchanged(buffer) && flushed == old(flushed)
    {
      FirstHasSpace(view, buffer.MaxSize);
      FlushInto(0);
      var bufferdata := buffer.GetEntries();
      ListingIsAlive(bufferdata, buffer.Entries);
      PutDown(bufferdata);
      es := bufferdata;
    }

    /** The buffer's entries into the first level, which holds at most one run. */
    method PutDown(es: seq<Entry>)
      requires Holds() && HasSpace(view, buffer.MaxSize) && |es| == buffer.MaxSize
      requires InOrder(es) && Flush.NoTombstones(es)
      modifies this`view, runs
      ensures Holds() && view == old(view)[0 := Arranged(es + old(view)[0])]
    {
      ghost var all := es + view[0];
      PutFirst(es, all);
      view := view[0 := Arranged(all)];
      OtherLevelsHold();
    }

    method PutFirst(es: seq<Entry>, ghost all: seq<Entry>)
      requires Holds() && HasSpace(view, buffer.MaxSize) && |es| == buffer.MaxSize
      requires InOrder(es) && Flush.NoTombstones(es) && all == es + view[0]
      modifies runs
      ensures Levels[0].Valid() && Levels[0].Data() == Arranged(all)
      ensures forall r :: r in runs && r.level != 1 ==> unchanged(r)
    {
      assert HoldsAt(0);
      var empty := IsEmptyAt(0);
      if empty {
        AlreadyArranged(es, all);
        FillLevel(Levels[0], es);
      } else {
        MergeAlive(Levels[0], es, all);
      }
    }

    twostate lemma OtherLevelsHold()
      requires old(Holds()) && |view| == |Levels|
      requires forall i :: 1 <= i < |Levels| ==> view[i] == old(view)[i]
      requires forall r :: r in runs && r.level != 1 ==> unchanged(r)
      requires Levels[0].Valid() && Levels[0].Data() == view[0]
      ensures Holds()
    {
      assert old(HoldsAt(0));
      forall i | 1 <= i < |Levels|
        ensures HoldsAt(i)
      {
        assert old(HoldsAt(i));
        StillHoldsAt(i);
      }
    }

    /** Makes room at level `cur`. */
    method FlushInto(cur: nat)
      requires Holds() && CanFlush(view, buffer.MaxSize, cur)
      modifies this`view, runs
      ensures Holds() && view == Flush.FlushInto(old(view), buffer.MaxSize, cur)
      decreases |Levels| - cur, 0
    {
      assert Flush.SettledAt(view, buffer.MaxSize, cur);
      var full := IsFullAt(cur);
      if full {
        ReadyToMerge(view, buffer.MaxSize, cur);
        FlushNext(cur + 1);
        MergeDown(cur);
      }
    }

    /** The recursive step, with the program's assertion that it empties the level. */
    method FlushNext(next: nat)
      requires Holds() && CanFlush(view, buffer.MaxSize, next)
      modifies this`view, runs
      ensures Holds() && view == Flush.FlushInto(old(view), buffer.MaxSize, next)
      decreases |Levels| - next, 1
    {
      assert Flush.SettledAt(view, buffer.MaxSize, next);
      var full := IsFullAt(next);
      if full {
        FlushInto(next);
        var empty := IsEmptyAt(next);
        assert empty;
      }
    }

    method IsFullAt(i: nat) returns (full: bool)
      requires Holds() && i < |Levels| && Flush.SettledAt(view, buffer.MaxSize, i)
      ensures full == Flush.Full(view, buffer.MaxSize, i)
    {
      assert HoldsAt(i);
      full := Levels[i].IsFull();
    }

    method IsEmptyAt(i: nat) returns (empty: bool)
      requires Holds() && i < |Levels| && Flush.SettledAt(view, buffer.MaxSize, i)
      ensures empty == (view[i] == [])
    {
      assert HoldsAt(i);
      empty := Levels[i].IsEmpty();
    }

    /** The two levels' own merge of a full level into the next. */
    method MergeDown(cur: nat)
      requires Holds() && CanMerge(view, buffer.MaxSize, cur)
      modifies this`view, runs
      ensures Holds()
      ensures view == old(view)[cur + 1 := Arranged(old(view)[cur] + old(view)[cur + 1])][cur := []]
    {
      ghost var es := view[cur] + view[cur + 1];
      MergeRuns(cur, es);
      view := view[cur + 1 := Arranged(es)][cur := []];
      OthersHold(cur);
    }

    method MergeRuns(cur: nat, ghost es: seq<Entry>)
      requires Holds() && CanMerge(view, buffer.MaxSize, cur) && es == view[cur] + view[cur + 1]
      modifies runs
      ensures Levels[cur].Valid() && Levels[cur].Data() == []
      ensures Levels[cur + 1].Valid() && Levels[cur + 1].Data() == Arranged(es)
      ensures forall r :: r in runs && r.level != cur + 1 && r.level != cur + 2 ==> unchanged(r)
    {
      Neighbours(cur, es);
      MergeInto(Levels[cur], Levels[cur + 1], es);
    }

    lemma Neighbours(cur: nat, es: seq<Entry>)
      requires Holds() && CanMerge(view, buffer.MaxSize, cur) && es == view[cur] + view[cur + 1]
      ensures HoldsAt(cur) && HoldsAt(cur + 1)
      ensures Levels[cur].Settled() && Levels[cur + 1].Settled()
      ensures es == Levels[cur].Data() + Levels[cur + 1].Data()
      ensures |es| <= 2 * Levels[cur + 1].MaxRunSize && Flush.NoTombstones(es)
    {
      assert HoldsAt(cur) && HoldsAt(cur + 1);
    }

    /** Merging level `cur` into the next one does not touch the other levels. */
    twostate lemma OthersHold(cur: nat)
      requires old(Holds()) && cur + 1 < |Levels| && |view| == |Levels|
      requires forall i :: 0 <= i < |Levels| && i != cur && i != cur + 1 ==> view[i] == old(view)[i]
      requires forall r :: r in runs && r.level != cur + 1 && r.level != cur + 2 ==> unchanged(r)
      requires Levels[cur].Valid() && Levels[cur].Data() == view[cur]
      requires Levels[cur + 1].Valid() && Levels[cur + 1].Data() == view[cur + 1]
      ensures Holds()
    {
      assert old(HoldsAt(cur)) && old(HoldsAt(cur + 1));
      forall i | 0 <= i < |Levels| && i != cur && i != cur + 1
        ensures HoldsAt(i)
      {
        assert old(HoldsAt(i));
        StillHoldsAt(i);
      }
    }

    twostate lemma StillHoldsAt(i: nat)
      requires i < |Levels| && old(HoldsAt(i)) && |old(view)| == |view| && view[i] == old(view)[i]
      requires unchanged(Levels[i].Runs[0]) && unchanged(Levels[i].Runs[1])
      ensures HoldsAt(i)
    {
      SameLevel(Levels[i]);
    }
  }

  /** Moves a level's entries into the next one, in order. */
  method MergeInto(current: NoFTLKVLevel, next: NoFTLKVLevel, ghost es: seq<Entry>)
    requires current.Valid() && current.Settled() && next.Valid() && next.Settled() && current.LevelNumber != next.LevelNumber
    requires es == current.Data() + next.Data() && |es| <= 2 * next.MaxRunSize && Flush.NoTombstones(es)
    modifies current.Runs[0], current.Runs[1], next.Runs[0], next.Runs[1]
    ensures current.Valid() && current.Data() == []
    ensures next.Valid() && next.Data() == Arranged(es)
  {
    var mergecon := Collect(current, next, es);
    NothingDropped(es);
    DrainBeside(current, mergecon, next, es);
  }

  /** `Drain` leaves the level above alone. */
  method DrainBeside(ghost current: NoFTLKVLevel, mergecon: MergeContext, next: NoFTLKVLevel, ghost es: seq<Entry>)
    requires current.Valid() && next.Valid() && next.Data() == [] && current.LevelNumber != next.LevelNumber
    requires mergecon.queue == multiset(es) && |es| <= 2 * next.MaxRunSize
    modifies mergecon, next.Runs[0], next.Runs[1]
    ensures current.Valid() && current.Data() == old(current.Data())
    ensures next.Valid() && next.Data() == Flush.Live(Arranged(es))
  {
    Drain(mergecon, next, es);
    SameLevel(current);
  }

  /** Reads both levels into a new merge context and empties them. */
  method Collect(current: NoFTLKVLevel, next: NoFTLKVLevel, ghost es: seq<Entry>) returns (mergecon: MergeContext)
    requires current.Valid() && current.Settled() && next.Valid() && next.Settled() && current.LevelNumber != next.LevelNumber
    requires es == current.Data() + next.Data()
    modifies current.Runs[0], current.Runs[1], next.Runs[0], next.Runs[1]
    ensures fresh(mergecon) && mergecon.queue == multiset(es)
    ensures current.Valid() && current.Data() == []
    ensures next.Valid() && next.Data() == []
  {
    mergecon := new MergeContext();
    ReadBoth(current, next, mergecon, es);
    SameLevel(current);
    SameLevel(next);
    ghost var read := mergecon.queue;
    ResetBoth(current, next);
    assert mergecon.queue == read;
  }

  lemma JoinMultisets(a: seq<Entry>, b: seq<Entry>)
    ensures multiset(a + b) == multiset(a) + multiset(b)
  {
  }

  method ReadBoth(current: NoFTLKVLevel, next: NoFTLKVLevel, mergecon: MergeContext, ghost es: seq<Entry>)
    requires current.Valid() && current.Settled() && next.Valid() && next.Settled()
    requires es == current.Data() + next.Data()
    requires mergecon.queue == multiset{}
    modifies mergecon
    ensures mergecon.queue == multiset(es)
  {
    ghost var a, b := current.Data(), next.Data();
    JoinMultisets(a, b);
    current.ReadInto(mergecon);
    assert mergecon.queue == multiset(a);
    SameLevel(next);
    next.ReadInto(mergecon);
    assert mergecon.queue == multiset(a) + multiset(b);
  }

  method ResetBoth(current: NoFTLKVLevel, next: NoFTLKVLevel)
    requires current.Valid() && next.Valid() && current.LevelNumber != next.LevelNumber
    modifies current.Runs[0], current.Runs[1], next.Runs[0], next.Runs[1]
    ensures current.Valid() && current.Data() == []
    ensures next.Valid() && next.Data() == []
  {
    next.ResetRuns();
    SameLevel(current);
    label NextEmptied:
    current.ResetRuns();
    SameLevel@NextEmptied(next);
  }

  ghost predicate FreshLevel(l: NoFTLKVLevel, b: nat, i: nat, all: set<Run>)
    reads all
  {
    && l.LevelNumber == i + 1 && |l.Runs| == 2 && l.Runs[0] in all && l.Runs[1] in all
    && l.Valid() && l.Data() == [] && l.MaxRunSize == Flush.RunSize(b, i)
  }

  ghost predicate FreshLevels(levels: seq<NoFTLKVLevel>, b: nat, all: set<Run>)
    reads all
  {
    && (forall i :: 0 <= i < |levels| ==> FreshLevel(levels[i], b, i, all))
  }

  /** The next level of a new tree, with the number that the program's counter then has. */
  method AddLevel(levels: seq<NoFTLKVLevel>, ghost all: set<Run>, b: nat, pagesize: nat)
    returns (levels': seq<NoFTLKVLevel>, ghost all': set<Run>)
    requires FreshLevels(levels, b, all) && b > 0 && pagesize > 0 && b % pagesize == 0
    ensures |levels'| == |levels| + 1 && FreshLevels(levels', b, all') && fresh(all' - all)
  {
    Flush.RunSizeIsProduct(b, |levels|);
    var temp := new NoFTLKVLevel(b, |levels| + 1, pagesize);
    all' := all + {temp.Runs[0], temp.Runs[1]};
    levels' := levels + [temp];
    forall i | 0 <= i < |levels|
      ensures FreshLevel(levels[i], b, i, all') 
    {
      assert old(FreshLevel(levels[i], b, i, all));
      SameLevel(levels[i]);
    }
  }

  ghost predicate Alive(s: Flush.Levels) {
    forall i :: 0 <= i < |s| ==> Flush.NoTombstones(s[i])
  }

  lemma FlushIntoAlive(s: Flush.Levels, b: nat, cur: nat)
    requires Alive(s) && Flush.HasRoom(s, b, cur)
    ensures Alive(Flush.FlushInto(s, b, cur))
  {
    var r := Flush.FlushInto(s, b, cur);
    forall i: nat, e: Entry | i < |r| && e in r[i]
      ensures e.val != 0
    {
      Flush.OccursOnALevel(r, i, e);
      Flush.FlushIntoConserves(s, b, cur, e);
      Flush.OccursSomewhere(s, e);
    }
  }

  ghost predicate CanFlush(s: Flush.Levels, b: nat, cur: nat) {
    Flush.Settled(s, b) && Alive(s) && Flush.HasRoom(s, b, cur)
  }

  ghost predicate HasSpace(s: Flush.Levels, b: nat) {
    |s| > 0 && (|s[0]| == 0 || |s[0]| == Flush.RunSize(b, 0)) && Flush.NoTombstones(s[0])
  }

  lemma AlreadyArranged(es: seq<Entry>, all: seq<Entry>)
    requires InOrder(es) && all == es + []
    ensures Arranged(all) == es
  {
    assert all == es;
    ArrangedIsInOrder(all);
    OrderIsUnique(es, Arranged(all));
  }

  lemma CanFlushFirst(h: seq<seq<Entry>>, b: nat, depth: nat)
    requires Flushed(h, b, depth) && |h| < 2 * (Pow2(depth) - 1)
    ensures CanFlush(Flush.AfterFlushes(h, b, depth), b, 0)
  {
    Flush.AfterFlushesAlive(h, b, depth);
    Flush.RoomAfterFlushes(h, b, depth);
  }

  lemma FirstHasSpace(s: Flush.Levels, b: nat)
    requires CanFlush(s, b, 0)
    ensures HasSpace(Flush.FlushInto(s, b, 0), b)
  {
    FlushIntoAlive(s, b, 0);
    assert Flush.SettledAt(s, b, 0);
  }

  lemma ListingIsAlive(es: seq<Entry>, m: map<nat, nat>)
    requires Lists(es, m) && forall k :: k in m ==> m[k] != 0
    ensures Flush.NoTombstones(es) && InOrder(es)
  {
    ListingIsInOrder(es, m);
  }

  lemma OneMoreFlush(h: seq<seq<Entry>>, b: nat, depth: nat, es: seq<Entry>)
    requires Flushed(h, b, depth) && |h| < 2 * (Pow2(depth) - 1)
    requires |es| == b && Flush.NoTombstones(es)
    ensures Flushed(h + [es], b, depth)
    ensures var s := Flush.AfterFlushes(h, b, depth);
      |s| > 0 && Flush.HasRoom(s, b, 0) && Flush.AfterFlushes(h + [es], b, depth) == Flush.FlushBuffer(s, b, es)
  {
    var h' := h + [es];
    assert h'[..|h|] == h;
    Flush.LastFlush(h', b, depth);
  }

  /** Fills an empty level entry by entry. */
  method FillLevel(level: NoFTLKVLevel, es: seq<Entry>)
    requires level.Valid() && level.Data() == [] && |es| <= 2 * level.MaxRunSize
    modifies level.Runs[0], level.Runs[1]
    ensures level.Valid() && level.Data() == es
  {
    for i := 0 to |es|
      invariant level.Valid() && level.Data() == es[..i]
    {
      level.PutValue(es[i]);
      assert es[..i + 1] == es[..i] + [es[i]];
    }
    assert es[..|es|] == es;
  }

  /** Merges the buffer's entries with those of the level. */
  method MergeBuffer(level: NoFTLKVLevel, bufferdata: seq<Entry>, ghost es: seq<Entry>)
    requires level.Valid() && level.Settled() && es == bufferdata + level.Data()
    requires |es| <= 2 * level.MaxRunSize
    modifies level.Runs[0], level.Runs[1]
    ensures level.Valid() && level.Data() == Flush.Live(Arranged(es))
  {
    var mergecon := CollectWith(level, bufferdata, es);
    Drain(mergecon, level, es);
  }

  method MergeAlive(level: NoFTLKVLevel, bufferdata: seq<Entry>, ghost es: seq<Entry>)
    requires level.Valid() && level.Settled() && es == bufferdata + level.Data()
    requires |es| <= 2 * level.MaxRunSize && Flush.NoTombstones(es)
    modifies level.Runs[0], level.Runs[1]
    ensures level.Valid() && level.Data() == Arranged(es)
  {
    NothingDropped(es);
    MergeBuffer(level, bufferdata, es);
  }

  /** Reads the buffer's entries and the level into a new merge context and empties the level. */
  method CollectWith(level: NoFTLKVLevel, bufferdata: seq<Entry>, ghost es: seq<Entry>) returns (mergecon: MergeContext)
    requires level.Valid() && level.Settled() && es == bufferdata + level.Data()
    modifies level.Runs[0], level.Runs[1]
    ensures fresh(mergecon) && mergecon.queue == multiset(es)
    ensures level.Valid() && level.Data() == []
  {
    mergecon := ReadWith(level, bufferdata, es);
    ghost var read := mergecon.queue;
    SameLevel(level);
    level.ResetRuns();
    assert mergecon.queue == read;
  }

  method ReadWith(level: NoFTLKVLevel, bufferdata: seq<Entry>, ghost es: seq<Entry>) returns (mergecon: MergeContext)
    requires level.Valid() && level.Settled() && es == bufferdata + level.Data()
    ensures fresh(mergecon) && mergecon.queue == multiset(es)
  {
    ghost var data := level.Data();
    JoinMultisets(bufferdata, data);
    mergecon := new MergeContext();
    mergecon.Insert(bufferdata);
    SameLevel(level);
    level.ReadInto(mergecon);
    assert mergecon.queue == multiset(bufferdata) + multiset(data);
  }

  /** After one or two runs' worth of entries was drained into a level, its runs are whole exactly when the tombstones dropped make up whole runs. */
  lemma WholeRunsAfterDrain(level: NoFTLKVLevel, es: seq<Entry>)
    requires level.Valid() && level.Data() == Flush.Live(Arranged(es))
    requires |es| == level.MaxRunSize || |es| == 2 * level.MaxRunSize
    ensures level.Settled() <==> Flush.Dead(es) % level.MaxRunSize == 0
  {
    level.SettledByLength();
    Flush.WholeRunsExactlyWhen(es, level.MaxRunSize);
  }

  lemma ArrangedBehind(x: seq<Entry>, y: seq<Entry>, es: seq<Entry>)
    requires InOrder(y + x) && es == x + y
    ensures Arranged(es) == y + x
  {
    JoinMultisets(x, y);
    JoinMultisets(y, x);
    ArrangedIsInOrder(es);
    OrderIsUnique(Arranged(es), y + x);
  }

  lemma FourInOrder(es: seq<Entry>)
    requires |es| == 4 && es[0].key < es[1].key < es[2].key < es[3].key
    ensures InOrder(es)
  {
  }

  /** A run of two behind which a buffer of two, the first a tombstone, is arranged. */
  lemma OneDead(bufferdata: seq<Entry>, run: seq<Entry>, es: seq<Entry>, left: seq<Entry>)
    requires |bufferdata| == |run| == 2 && es == bufferdata + run && left == [run[0], run[1], bufferdata[1]]
    requires run[0].key < run[1].key < bufferdata[0].key < bufferdata[1].key
    requires run[0].val != 0 && run[1].val != 0 && bufferdata[0].val == 0 && bufferdata[1].val != 0
    ensures Flush.Live(Arranged(es)) == left
  {
    FourInOrder(run + bufferdata);
    ArrangedBehind(bufferdata, run, es);
    LiveOfFour(run + bufferdata);
  }

  lemma LiveOfFour(es: seq<Entry>)
    requires |es| == 4 && es[0].val != 0 && es[1].val != 0 && es[2].val == 0 && es[3].val != 0
    ensures Flush.Live(es) == [es[0], es[1], es[3]]
  {
    var a, b, c := es[..1], es[..2], es[..3];
    assert a == [] + [es[0]] && b == a + [es[1]] && c == b + [es[2]] && es == c + [es[3]];
    Flush.LiveOfMore([], es[0]);
    Flush.LiveOfMore(a, es[1]);
    Flush.LiveOfMore(b, es[2]);
    Flush.LiveOfMore(c, es[3]);
  }

  /** A first level with runs of two entries that holds the run 1, 2, and a buffer of 3 with a tombstone and 4 merged into it: three entries stay, one run full and one part-filled. */
  method TombstoneLeavesPartRun(level: NoFTLKVLevel)
    requires level.Valid() && level.MaxRunSize == 2 && level.Data() == [Entry(1, 1), Entry(2, 2)]
    modifies level.Runs[0], level.Runs[1]
    ensures level.Valid() && level.Data() == [Entry(1, 1), Entry(2, 2), Entry(4, 4)] && !level.Settled()
  {
    var bufferdata := [Entry(3, 0), Entry(4, 4)];
    ghost var run := level.Data();
    ghost var es := bufferdata + run;
    OneDead(bufferdata, run, es, [Entry(1, 1), Entry(2, 2), Entry(4, 4)]);
    level.SettledByLength();
    MergeBuffer(level, bufferdata, es);
    level.SettledByLength();
  }

  ghost predicate CanMerge(s: Flush.Levels, b: nat, cur: nat) {
    && cur + 1 < |s| && Flush.SettledAt(s, b, cur) && Flush.SettledAt(s, b, cur + 1)
    && |s[cur] + s[cur + 1]| <= 2 * Flush.RunSize(b, cur + 1)
    && Flush.NoTombstones(s[cur]) && Flush.NoTombstones(s[cur + 1])
  }

  /** With the next level made ready, a full level can be merged into it. */
  lemma ReadyToMerge(s: Flush.Levels, b: nat, cur: nat)
    requires CanFlush(s, b, cur) && Flush.Full(s, b, cur)
    ensures cur + 1 < |s| && CanFlush(s, b, cur + 1)
    ensures var s1 := Flush.FlushInto(s, b, cur + 1);
      && |s1| == |s| && CanMerge(s1, b, cur)
      && Flush.FlushInto(s, b, cur) == s1[cur + 1 := Arranged(s1[cur] + s1[cur + 1])][cur := []]
  {
    Flush.MergedFits(s, b, cur);
    FlushIntoAlive(s, b, cur + 1);
    Flush.FlushIntoSettled(s, b, cur + 1);
    assert Flush.SettledAt(s, b, cur) && Flush.SettledAt(s, b, cur + 1);
  }

  /** Full buffers without tombstones, no more of them than the levels can take. */
  ghost predicate Flushed(h: seq<seq<Entry>>, b: nat, depth: nat) {
    && b > 0 && |h| <= 2 * (Pow2(depth) - 1)
    && (forall i :: 0 <= i < |h| ==> |h[i]| == b && Flush.NoTombstones(h[i]))
  }
}
