/** Runs and levels of the LSM tree. */
module Level {
  import opened Arithmetic
  import opened Bits
  import opened Entries
  import opened Merge

  const UINT64_MAX: nat := 0xFFFF_FFFF_FFFF_FFFF

  function Greatest(es: seq<Entry>): nat {
    if es == [] then 0 else Max(Greatest(es[..|es| - 1]), es[|es| - 1].key)
  }

  function Least(es: seq<Entry>): nat {
    if es == [] then UINT64_MAX else Min(Least(es[..|es| - 1]), es[|es| - 1].key)
  }

  function Max(a: nat, b: nat): nat {
    if a > b then a else b
  }

  function Min(a: nat, b: nat): nat {
    if a < b then a else b
  }

  /** No key lies outside, and both bounds are keys, as long as there is one and keys are 64 bits wide. */
  lemma {:induction false} BoundsAreKeys(es: seq<Entry>)
    ensures forall e :: e in es ==> Least(es) <= e.key <= Greatest(es)
    ensures es != [] ==> exists e :: e in es && e.key == Greatest(es)
    ensures es != [] && (forall e :: e in es ==> e.key <= UINT64_MAX) ==> exists e :: e in es && e.key == Least(es)
    decreases |es|
  {
    if es != [] {
      var front, last := es[..|es| - 1], es[|es| - 1];
      assert es == front + [last];
      BoundsAreKeys(front);
      assert last in es;
    }
  }

  class Run {
    const max_size: nat
    const pagesize: nat            // entries of one flash page
    ghost const level: nat         // the level it belongs to
    var Size: nat
    var MaxKey: nat
    var MinKey: nat
    var Rundata: seq<Entry>        // entries not yet written
    var flash: seq<Entry>          // what the pages named by run_param hold
    var FencePointers: seq<nat>

    constructor (maxsize: nat, pagesize: nat, ghost level: nat)
      requires pagesize > 0 && maxsize > 0 && maxsize % pagesize == 0
      ensures Valid() && Fenced() && Size == 0 && max_size == maxsize && this.pagesize == pagesize && this.level == level
    {
      this.level := level;
      max_size, this.pagesize := maxsize, pagesize;
      Size, MaxKey, MinKey := 0, 0, UINT64_MAX;
      Rundata, flash, FencePointers := [], [], [];
    }

    /** The entries of the run: on flash once it is full, in memory before. */
    ghost function Data(): seq<Entry>
      reads this
    {
      if Size == max_size then flash else Rundata
    }

    ghost predicate Valid()
      reads this
    {
      && pagesize > 0 && max_size > 0 && max_size % pagesize == 0
      && Size <= max_size && |Data()| == Size
      && (Size == max_size ==> Rundata == [])
      && (forall e :: e in Data() ==> MinKey <= e.key <= MaxKey)
    }

    /** `MinKey` and `MaxKey` are the least and the greatest key, and a full run has its last key as a fence pointer. */
    ghost predicate Fenced()
      requires Valid()
      reads this
    {
      && MinKey == Least(Data()) && MaxKey == Greatest(Data())
      && FencePointers == if Size == max_size then [Data()[max_size - 1].key] else []
    }

    predicate IsFull()
      reads this
    {
      Size >= max_size
    }

    /** Writes the run out; refused when it does not fill whole pages. */
    method RunDataWrite() returns (err: int)
      requires pagesize > 0
      modifies this`flash, this`Rundata
      ensures err == 0 <==> |old(Rundata)| % pagesize == 0
      ensures err == 0 ==> flash == old(Rundata) && Rundata == []
      ensures err != 0 ==> flash == old(flash) && Rundata == old(Rundata)
    {
      if |Rundata| % pagesize == 0 {
        flash := Rundata;
        Rundata := [];
        return 0;
      }
      return -1;
    }

    method PutValue(entry: Entry)
      requires Valid() && Size < max_size
      modifies this
      ensures Valid() && Data() == old(Data()) + [entry] && (old(Fenced()) ==> Fenced())
    {
      ghost var before := Data();
      assert (Data() + [entry])[..|Data()|] == Data();
      Rundata := Rundata + [entry];
      MaxKey := Max(entry.key, MaxKey);
      MinKey := Min(entry.key, MinKey);
      Size := Size + 1;
      assert forall e :: e in before + [entry] ==> e in before || e == entry;
      if Size == max_size {
        FencePointers := FencePointers + [entry.key];
        var err := RunDataWrite();
        assert err == 0;
      }
    }

    /** `SingleRunRead` reads `max_size` entries through run_param, so it returns the run only when that is written. */
    method SingleRunRead() returns (entries: seq<Entry>)
      requires Valid() && Size == max_size
      ensures entries == Data()
    {
      entries := flash;
    }

    method Reset()
      requires Valid()
      modifies this
      ensures Valid() && Fenced() && Size == 0 && Data() == []
    {
      FencePointers := [];
      Size := 0;
      Rundata := [];
      MaxKey := 0;
      MinKey := UINT64_MAX;
    }
  }

  class NoFTLKVLevel {
    const LevelNumber: nat
    const MaxRunSize: nat
    const Runs: seq<Run>

    /** The first level holds runs of the buffer's size, each further one runs of twice the size. */
    constructor (buffersize: nat, levelNumber: nat, pagesize: nat)
      requires pagesize > 0 && buffersize > 0 && buffersize % pagesize == 0 && levelNumber > 0
      ensures Valid() && Data() == [] && MaxRunSize == buffersize * Pow2(levelNumber - 1)
      ensures LevelNumber == levelNumber && fresh(Runs[0]) && fresh(Runs[1])
    {
      var size := buffersize * Pow2(levelNumber - 1);
      WholePages(buffersize, Pow2(levelNumber - 1), pagesize);
      var run0 := new Run(size, pagesize, levelNumber);
      var run1 := new Run(size, pagesize, levelNumber);
      LevelNumber, MaxRunSize, Runs := levelNumber, size, [run0, run1];
    }

    /** Two runs, filled in order. */
    ghost predicate Valid()
      reads Runs
    {
      && |Runs| == 2 && Runs[0] != Runs[1] && MaxRunSize > 0
      && Runs[0].level == LevelNumber && Runs[1].level == LevelNumber
      && Runs[0].Valid() && Runs[0].max_size == MaxRunSize
      && Runs[1].Valid() && Runs[1].max_size == MaxRunSize
      && (Runs[1].Size > 0 ==> Runs[0].Size == MaxRunSize)
    }

    /** The entries of run 0 followed by those of run 1. */
    ghost function Data(): seq<Entry>
      requires |Runs| == 2
      reads Runs
    {
      Runs[0].Data() + Runs[1].Data()
    }

    /** Every run is empty or exactly full. */
    ghost predicate Settled()
      requires Valid()
      reads Runs
    {
      && Runs[0].Size in {0, MaxRunSize}
      && Runs[1].Size in {0, MaxRunSize}
    }

    /** Whole runs show in the number of entries. */
    lemma SettledByLength()
      requires Valid()
      ensures Settled() <==> |Data()| == 0 || |Data()| == MaxRunSize || |Data()| == 2 * MaxRunSize
    {
      assert |Data()| == Runs[0].Size + Runs[1].Size;
    }

    /** Appends to the first run that is not full; with both full the entry is lost. */
    method PutValue(entry: Entry)
      requires Valid()
      modifies Runs[0], Runs[1]
      ensures Valid()
      ensures Data() == if |old(Data())| < 2 * MaxRunSize then old(Data()) + [entry] else old(Data())
    {
      var i := 0;
      while i < |Runs|
        invariant i <= 2 && Valid() && Data() == old(Data())
        invariant forall j :: 0 <= j < i ==> Runs[j].Size == MaxRunSize
        invariant forall r :: r in Runs ==> unchanged(r)
      {
        if !Runs[i].IsFull() {
          Runs[i].PutValue(entry);
          if i == 0 {
            assert Runs[1].Data() == [];
          } else {
            assert Data() == old(Data()) + [entry];
          }
          return;
        }
        i := i + 1;
      }
    }

    method IsEmpty() returns (r: bool)
      requires Valid()
      ensures r <==> Runs[0].Size != MaxRunSize && Runs[1].Size != MaxRunSize
      ensures Settled() ==> (r <==> Data() == [])
    {
      for i := 0 to |Runs|
        invariant forall j :: 0 <= j < i ==> Runs[j].Size != MaxRunSize
      {
        if Runs[i].Size != 0 && Runs[i].Size == MaxRunSize {
          return false;
        }
      }
      return true;
    }

    method IsFull() returns (r: bool)
      requires Valid()
      ensures r <==> Runs[0].Size != 0 && Runs[1].Size != 0
      ensures Settled() ==> (r <==> |Data()| == 2 * MaxRunSize)
    {
      for i := 0 to |Runs|
        invariant forall j :: 0 <= j < i ==> Runs[j].Size != 0
      {
        if Runs[i].Size != MaxRunSize && Runs[i].Size == 0 {
          return false;
        }
      }
      return true;
    }

    /** The loop that hands the non-empty runs to a merge context. */
    method ReadInto(mergecon: MergeContext)
      requires Valid() && Settled()
      modifies mergecon
      ensures mergecon.queue == old(mergecon.queue) + multiset(Data())
    {
      for i := 0 to |Runs|
        invariant i == 0 ==> mergecon.queue == old(mergecon.queue)
        invariant i == 1 ==> mergecon.queue == old(mergecon.queue) + multiset(Runs[0].Data())
        invariant i == 2 ==> mergecon.queue == old(mergecon.queue) + multiset(Runs[0].Data()) + multiset(Runs[1].Data())
      {
        if Runs[i].Size != 0 {
          var entries := Runs[i].SingleRunRead();
          mergecon.Insert(entries);
        } else {
          assert Runs[i].Data() == [];
        }
      }
    }

    method ResetRuns()
      requires Valid()
      modifies Runs[0], Runs[1]
      ensures Valid() && Settled() && Data() == []
    {
      Runs[0].Reset();
      Runs[1].Reset();
    }
  }

  /** A level is the same while its runs are. */
  twostate lemma SameLevel(l: NoFTLKVLevel)
    requires old(l.Valid()) && unchanged(l.Runs[0]) && unchanged(l.Runs[1])
    ensures l.Valid() && l.Data() == old(l.Data()) && (old(l.Settled()) ==> l.Settled())
  {
    assert l.Runs[0].Valid() && l.Runs[1].Valid();
  }

  lemma WholePages(size: nat, times: nat, pagesize: nat)
    requires pagesize > 0 && size > 0 && size % pagesize == 0 && times > 0
    ensures size * times > 0 && (size * times) % pagesize == 0
  {
    assert size * times == pagesize * (size / pagesize * times);
    TimesIsMultiple(pagesize, size / pagesize * times);
  }
}
