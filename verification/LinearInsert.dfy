/** `Insert` of the linear hash table, exactly when it works, and what happens otherwise. */
module LinearInsert {
  import opened Arithmetic
  import opened Entries
  import opened LinearHash

  lemma PutKeepsGood(t: Table, cap: nat, e: Entry)
    requires Good(t, cap) && Address(t, e.key) < |t.buckets| && t.buckets[Address(t, e.key)].size < cap
    ensures var a := Address(t, e.key); Good(t.(buckets := t.buckets[a := PutIn(t.buckets[a], e, cap)]), cap)
  {
    var a := Address(t, e.key);
    var t1 := t.(buckets := t.buckets[a := PutIn(t.buckets[a], e, cap)]);
    forall key: nat | true
      ensures Address(t1, key) == Address(t, key)
    {
    }
    forall i | 0 <= i < |t1.buckets|
      ensures GoodAt(t1, cap, i)
    {
      assert GoodAt(t, cap, i);
      if i == a {
        PutGoodAt(t, t1, cap, e);
      } else {
        GoodAtTransfers(t, t1, cap, i);
      }
    }
  }

  lemma PutGoodAt(t: Table, t1: Table, cap: nat, e: Entry)
    requires Good(t, cap) && Address(t, e.key) < |t.buckets| && t.buckets[Address(t, e.key)].size < cap
    requires var a := Address(t, e.key); t1 == t.(buckets := t.buckets[a := PutIn(t.buckets[a], e, cap)])
    ensures Shaped(t1) && GoodAt(t1, cap, Address(t, e.key))
  {
    var a := Address(t, e.key);
    var was, now := t.buckets[a], t1.buckets[a];
    assert GoodAt(t, cap, a);
    PutInAddsOne(was, e, cap, e);
    AddressCases(t, e.key);
    forall x | x in Content(now)
      ensures Address(t1, x.key) == a
    {
      PutInHolds(was, e, cap, x);
    }
  }

  lemma PutInHolds(b: LBucket, e: Entry, cap: nat, x: Entry)
    requires Whole(b, cap) && b.size < cap && x in Content(PutIn(b, e, cap))
    ensures x == e || x in Content(b)
  {
    PutInAddsOne(b, e, cap, x);
    assert x in multiset(Content(PutIn(b, e, cap)));
    assert x == e || x in multiset(Content(b));
  }

  /** `Insert` goes to the addressed bucket; a full one is split and the bucket chosen by `h2`, whatever the level is then. */
  ghost function Inserted(t: Table, cap: nat, e: Entry): Table
    requires CanInsert(t, cap, e.key)
  {
    var a := Address(t, e.key);
    if t.buckets[a].size == cap then PutBySplit(Split(t, cap, a), cap, e)
    else t.(buckets := t.buckets[a := PutIn(t.buckets[a], e, cap)])
  }

  ghost function PutBySplit(t: Table, cap: nat, e: Entry): Table
    requires t.h1 > 0 && e.key % (2 * t.h1) < |t.buckets|
  {
    var i := e.key % (2 * t.h1);
    t.(buckets := t.buckets[i := PutIn(t.buckets[i], e, cap)])
  }

  /** Between two operations some bucket of the level is unsplit. */
  ghost predicate LevelOpen(t: Table) {
    t.h1 <= |t.flags| && !AllSet(t.flags, t.h1)
  }

  /** The buckets that `Insert` goes to are in the table. */
  ghost predicate CanInsert(t: Table, cap: nat, key: nat) {
    && Good(t, cap) && LevelOpen(t) && Address(t, key) < |t.buckets|
    && (t.buckets[Address(t, key)].size == cap ==>
      && 2 * t.h1 <= FLAGS
      && var t1 := Split(t, cap, Address(t, key)); t1.h1 > 0 && key % (2 * t1.h1) < |t1.buckets|)
  }

  /** The bucket is split for the first time and one of its entries belongs into the other half. */
  ghost predicate SplitMakesRoom(t: Table, key: nat)
    requires Shaped(t) && Address(t, key) < |t.buckets|
  {
    && !t.flags[key % t.h1]
    && exists e :: e in Content(t.buckets[Address(t, key)]) && e.key % (2 * t.h1) != key % (2 * t.h1)
  }

  ghost predicate HasRoom(t: Table, cap: nat, key: nat)
    requires Shaped(t) && Address(t, key) < |t.buckets|
  {
    t.buckets[Address(t, key)].size < cap || SplitMakesRoom(t, key)
  }

  // ---------- the split of a full bucket ----------

  lemma FirstOrAgain(t: Table, cap: nat, key: nat)
    requires Good(t, cap) && Address(t, key) < |t.buckets| && t.buckets[Address(t, key)].size == cap
    ensures !t.flags[key % t.h1] ==> CanSplit(t, cap, Address(t, key)) && Address(t, key) == key % t.h1
    ensures t.flags[key % t.h1] ==> Address(t, key) == key % (2 * t.h1)
  {
  }

  /** A key of the bucket that is split. */
  ghost predicate Together(t: Table, key: nat, other: nat)
    requires Shaped(t)
  {
    Address(t, other) == Address(t, key)
  }

  lemma SameModulus(key: nat, h1: nat, d: nat)
    requires h1 > 0 && d == 2 * h1
    ensures key % (2 * d) < d ==> key % (2 * d) == key % d
  {
    HalvesOfRemainder(key, d, 2 * d);
  }

  /** Whatever the level is after the split, the chosen bucket is the one for the old `h2`, and the keys of the split bucket are addressed by it. */
  lemma ChosenBucket(t: Table, cap: nat, key: nat, other: nat)
    requires CanInsert(t, cap, key) && t.buckets[Address(t, key)].size == cap && Together(t, key, other)
    ensures var t1 := Split(t, cap, Address(t, key));
      && key % (2 * t1.h1) == key % (2 * t.h1) && 0 < t1.h1 <= |t1.flags|
      && Address(t1, other) == other % (2 * t.h1)
  {
    var a := Address(t, key);
    FirstOrAgain(t, cap, key);
    AddressCases(t, key);
    AddressCases(t, other);
    if t.flags[key % t.h1] {
      AgainKeepsLevel(t, cap, key);
    } else {
      SplitWidth(t, cap, a);
      SameModulus(key, t.h1, 2 * t.h1);
    }
  }

  /** Splitting a half again leaves the level and all addresses as they are. */
  lemma AgainKeepsLevel(t: Table, cap: nat, key: nat)
    requires Good(t, cap) && LevelOpen(t) && Address(t, key) < |t.buckets|
    requires t.flags[key % t.h1] && Address(t, key) < FLAGS
    ensures var t1 := Split(t, cap, Address(t, key));
      t1.h1 == t.h1 && |t1.flags| == FLAGS && forall j :: 0 <= j < t.h1 ==> t1.flags[j] == t.flags[j]
  {
    AddressCases(t, key);
    var j :| 0 <= j < t.h1 && !t.flags[j];
    assert !t.flags[Address(t, key) := true][j];
  }

  /** An entry put into a full bucket is the only one that a search then sees; one put into another bucket hides nothing. */
  lemma PutHidesWhenFull(c: LBucket, e: Entry, cap: nat)
    requires Whole(c, cap) && cap > 0
    ensures c.size == cap ==> Searched(PutIn(c, e, cap)) == [e]
    ensures c.size < cap ==> forall x :: x in Content(c) ==> x in Searched(PutIn(c, e, cap))
  {
    if c.size < cap {
      forall x | x in Content(c)
        ensures x in Searched(PutIn(c, e, cap))
      {
        PutInAddsOne(c, e, cap, x);
        assert x in multiset(Content(c));
        assert x in multiset(Content(PutIn(c, e, cap)));
      }
    }
  }

  lemma {:induction false} AllBack(bs: seq<LBucket>, h1: nat, es: seq<Entry>, cap: nat, i: nat)
    requires 0 < h1 <= |bs| && i < |bs| && forall e :: e in es ==> e.key % (2 * h1) == i
    ensures PutAll(bs, h1, es, cap) == bs[i := PutEach(bs[i], es, cap)]
    decreases |es|
  {
    if es != [] {
      var n := |es| - 1;
      assert es == es[..n] + [es[n]];
      AllBack(bs, h1, es[..n], cap, i);
    }
  }

  lemma SameSplitHalf(t: Table, key: nat, other: nat)
    requires Shaped(t) && t.flags[key % t.h1] && Address(t, other) == Address(t, key)
    ensures other % (2 * t.h1) == Address(t, key)
  {
    AddressCases(t, key);
    AddressCases(t, other);
  }

  lemma AgainFills(t: Table, cap: nat, key: nat, x: Entry)
    requires Good(t, cap) && Address(t, key) < |t.buckets| && Address(t, key) < FLAGS
    requires t.buckets[Address(t, key)].size == cap && t.flags[key % t.h1]
    ensures var a := Address(t, key); var bs := Redistributed(t, cap, a);
      && a < |bs| && Whole(bs[a], cap) && bs[a].size == cap
      && multiset(Content(bs[a]))[x] == multiset(Content(t.buckets[a]))[x]
      && Count(bs, x) == Count(t.buckets, x)
  {
    var a := Address(t, key);
    var c, es := t.buckets[a], Content(t.buckets[a]);
    InMemory(t, cap, a);
    forall e | e in es
      ensures e.key % (2 * t.h1) == a
    {
      SameSplitHalf(t, key, e.key);
    }
    AllBack(t.buckets[a := Erased(c)], t.h1, es, cap, a);
    RefilledBucket(t.buckets, a, es, cap, x);
  }

  lemma RefilledBucket(bs: seq<LBucket>, a: nat, es: seq<Entry>, cap: nat, x: Entry)
    requires a < |bs| && Whole(bs[a], cap) && cap > 0 && es == Content(bs[a]) && |es| == cap
    ensures var r := bs[a := Erased(bs[a])][a := PutEach(Erased(bs[a]), es, cap)];
      && Whole(r[a], cap) && r[a].size == cap && multiset(Content(r[a]))[x] == multiset(es)[x] && Count(r, x) == Count(bs, x)
  {
    var c := PutEach(Erased(bs[a]), es, cap);
    PutEachAdds(Erased(bs[a]), es, cap, x);
    CountAfterUpdate(bs, a, c, x);
    assert bs[a := Erased(bs[a])][a := c] == bs[a := c];
  }

  lemma EmptyHalf(c: LBucket, i: nat, h1: nat, cap: nat, es: seq<Entry>)
    requires Half(c, i, h1, cap, es) && forall e :: e in es ==> e.key % (2 * h1) != i
    ensures c.size == 0
  {
    if Content(c) != [] {
      HalfIsPlaced(c, i, h1, cap, es, Content(c)[0]);
    }
  }

  /** When all entries of a bucket belong into one half, that half is full after the split. */
  lemma FirstFills(t: Table, cap: nat, b: nat, key: nat, x: Entry)
    requires CanSplit(t, cap, b) && key % t.h1 == b && key % (2 * t.h1) < |Redistributed(t, cap, b)|
    requires forall e :: e in Content(t.buckets[b]) ==> e.key % (2 * t.h1) == key % (2 * t.h1)
    ensures var c := Redistributed(t, cap, b)[key % (2 * t.h1)];
      Whole(c, cap) && c.size == cap && multiset(Content(c))[x] == multiset(Content(t.buckets[b]))[x]
  {
    var r, es := Redistributed(t, cap, b), Content(t.buckets[b]);
    SplitHalves(t, cap, b);
    FullBucket(t, cap, b);
    HalvesOfRemainder(key, t.h1, 2 * t.h1);
    EmptyHalf(At(r, if key % (2 * t.h1) == b then b + t.h1 else b), if key % (2 * t.h1) == b then b + t.h1 else b, t.h1, cap, es);
  }

  /** Without room made by the split, the chosen bucket is full again; no entry was lost so far. */
  lemma FullAfterSplit(t: Table, cap: nat, key: nat, x: Entry)
    requires CanInsert(t, cap, key) && t.buckets[Address(t, key)].size == cap && !SplitMakesRoom(t, key)
    ensures var t1 := Split(t, cap, Address(t, key)); var i := key % (2 * t.h1);
      && i < |t1.buckets| && Whole(t1.buckets[i], cap) && t1.buckets[i].size == cap
      && multiset(Content(t1.buckets[i]))[x] == multiset(Content(t.buckets[Address(t, key)]))[x]
      && Count(t1.buckets, x) == Count(t.buckets, x)
  {
    FirstOrAgain(t, cap, key);
    ChosenBucket(t, cap, key, key);
    if t.flags[key % t.h1] {
      AgainFills(t, cap, key, x);
    } else {
      FirstFills(t, cap, Address(t, key), key, x);
      SplitConserves(t, cap, Address(t, key), x);
    }
  }

  // ---------- when the insertion works ----------

  /** An entry in one half leaves room in the other. */
  lemma HalfLeavesRoom(low: LBucket, high: LBucket, page: Option<seq<Entry>>, h1: nat, cap: nat, b: nat, es: seq<Entry>, e: Entry)
    requires b < h1 && Halves(low, high, page, h1, cap, b, es) && |es| <= cap && e in es
    ensures e.key % (2 * h1) == b ==> high.size < cap
    ensures e.key % (2 * h1) == b + h1 ==> low.size < cap
  {
    var upper: nat := b + h1;
    if e.key % (2 * h1) == b && low.size == 0 {
      NotInEmptyHalf(low, b, h1, cap, es, e);
    }
    if e.key % (2 * h1) == upper && high.size == 0 {
      NotInEmptyHalf(high, upper, h1, cap, es, e);
    }
  }

  lemma HalfHasRoom(t: Table, cap: nat, key: nat)
    requires t.h1 > 0 && CanSplit(t, cap, key % t.h1) && Address(t, key) == key % t.h1 && SplitMakesRoom(t, key)
    requires key % (2 * t.h1) < |Redistributed(t, cap, key % t.h1)|
    ensures Redistributed(t, cap, key % t.h1)[key % (2 * t.h1)].size < cap
  {
    var a := key % t.h1;
    SplitHalves(t, cap, a);
    FullBucket(t, cap, a);
    var e :| e in Content(t.buckets[a]) && e.key % (2 * t.h1) != key % (2 * t.h1);
    HalvesOfRemainder(e.key, t.h1, 2 * t.h1);
    HalvesOfRemainder(key, t.h1, 2 * t.h1);
    OtherHalfHasRoom(Redistributed(t, cap, a), t.h1, cap, a, Content(t.buckets[a]), e, key % (2 * t.h1));
  }

  lemma OtherHalfHasRoom(r: seq<LBucket>, h1: nat, cap: nat, b: nat, es: seq<Entry>, e: Entry, i: nat)
    requires b < h1 && Halves(At(r, b), At(r, b + h1), Some(es), h1, cap, b, es) && |es| <= cap && e in es
    requires (e.key % (2 * h1) == b && i == b + h1) || (e.key % (2 * h1) == b + h1 && i == b)
    requires i < |r|
    ensures r[i].size < cap
  {
    HalfLeavesRoom(At(r, b), At(r, b + h1), Some(es), h1, cap, b, es, e);
  }

  lemma RoomDoubles(t: Table, cap: nat, key: nat)
    requires t.h1 > 0 && CanSplit(t, cap, key % t.h1) && Address(t, key) == key % t.h1 && SplitMakesRoom(t, key)
    requires key % (2 * t.h1) < |Redistributed(t, cap, key % t.h1)|
    ensures |Redistributed(t, cap, key % t.h1)| == 2 * t.h1
  {
    var a := key % t.h1;
    SplitWidth(t, cap, a);
    FullBucket(t, cap, a);
    var e :| e in Content(t.buckets[a]) && e.key % (2 * t.h1) != key % (2 * t.h1);
    HalvesOfRemainder(e.key, t.h1, 2 * t.h1);
    HalvesOfRemainder(key, t.h1, 2 * t.h1);
  }

  /** With room made by the split, the table is good before the entry is put, and the entry has its place. */
  lemma ReadyAfterSplit(t: Table, cap: nat, key: nat, x: Entry)
    requires CanInsert(t, cap, key) && t.buckets[Address(t, key)].size == cap && SplitMakesRoom(t, key)
    ensures var t1 := Split(t, cap, Address(t, key)); var i := key % (2 * t.h1);
      && Good(t1, cap) && Address(t1, key) == i < |t1.buckets| && t1.buckets[i].size < cap
      && Count(t1.buckets, x) == Count(t.buckets, x)
  {
    FirstOrAgain(t, cap, key);
    ChosenBucket(t, cap, key, key);
    HalfHasRoom(t, cap, key);
    RoomDoubles(t, cap, key);
    SplitWidth(t, cap, Address(t, key));
    SplitGoodExactlyWhen(t, cap, Address(t, key));
    SplitConserves(t, cap, Address(t, key), x);
  }

  lemma PutBySplitIs(t: Table, cap: nat, e: Entry)
    requires CanInsert(t, cap, e.key) && t.buckets[Address(t, e.key)].size == cap
    ensures var t1 := Split(t, cap, Address(t, e.key)); var i := e.key % (2 * t.h1);
      i < |t1.buckets| && Inserted(t, cap, e) == t1.(buckets := t1.buckets[i := PutIn(t1.buckets[i], e, cap)])
  {
    ChosenBucket(t, cap, e.key, e.key);
  }

  /** `Insert` keeps every entry where `Search` looks exactly if the addressed bucket is not full, or is split for the first time and has an entry for the other half. */
  lemma InsertGoodExactlyWhen(t: Table, cap: nat, e: Entry)
    requires CanInsert(t, cap, e.key)
    ensures Good(Inserted(t, cap, e), cap) <==> HasRoom(t, cap, e.key)
  {
    var a := Address(t, e.key);
    InMemory(t, cap, a);
    if t.buckets[a].size < cap {
      PutKeepsGood(t, cap, e);
    } else {
      PutBySplitIs(t, cap, e);
      if SplitMakesRoom(t, e.key) {
        ReadyAfterSplit(t, cap, e.key, e);
        PutKeepsGood(Split(t, cap, a), cap, e);
      } else {
        FullAfterSplit(t, cap, e.key, e);
        OverfullIsBad(Inserted(t, cap, e), cap, e.key % (2 * t.h1));
      }
    }
  }

  lemma OverfullIsBad(t: Table, cap: nat, i: nat)
    requires i < |t.buckets|
    ensures t.buckets[i].size > cap ==> !Good(t, cap)
  {
    if Good(t, cap) {
      assert GoodAt(t, cap, i);
    }
  }

  ghost predicate AddsOne(t: Table, t1: Table, e: Entry) {
    forall x :: Count(t1.buckets, x) == Count(t.buckets, x) + if x == e then 1 else 0
  }

  /** Under the same condition, and only then, the table afterwards holds just the new entry more. */
  lemma InsertAddsOneExactlyWhen(t: Table, cap: nat, e: Entry)
    requires CanInsert(t, cap, e.key)
    ensures AddsOne(t, Inserted(t, cap, e), e) <==> HasRoom(t, cap, e.key)
  {
    var a := Address(t, e.key);
    InMemory(t, cap, a);
    if HasRoom(t, cap, e.key) {
      forall x | true
        ensures Count(Inserted(t, cap, e).buckets, x) == Count(t.buckets, x) + if x == e then 1 else 0
      {
        InsertAdds(t, cap, e, x);
      }
    } else {
      InsertLoses(t, cap, e);
    }
  }

  lemma InsertAdds(t: Table, cap: nat, e: Entry, x: Entry)
    requires CanInsert(t, cap, e.key) && HasRoom(t, cap, e.key)
    ensures Count(Inserted(t, cap, e).buckets, x) == Count(t.buckets, x) + if x == e then 1 else 0
  {
    var a := Address(t, e.key);
    InMemory(t, cap, a);
    if t.buckets[a].size < cap {
      PutInAddsOne(t.buckets[a], e, cap, x);
      CountAfterUpdate(t.buckets, a, PutIn(t.buckets[a], e, cap), x);
    } else {
      var t1, i := Split(t, cap, a), e.key % (2 * t.h1);
      PutBySplitIs(t, cap, e);
      ReadyAfterSplit(t, cap, e.key, x);
      InMemory(t1, cap, i);
      PutInAddsOne(t1.buckets[i], e, cap, x);
      CountAfterUpdate(t1.buckets, i, PutIn(t1.buckets[i], e, cap), x);
    }
  }

  lemma InsertLoses(t: Table, cap: nat, e: Entry)
    requires CanInsert(t, cap, e.key) && !HasRoom(t, cap, e.key)
    ensures exists x :: Count(Inserted(t, cap, e).buckets, x) < Count(t.buckets, x) + if x == e then 1 else 0
  {
    InMemory(t, cap, Address(t, e.key));
    PutBySplitIs(t, cap, e);
    var t1, i := Split(t, cap, Address(t, e.key)), e.key % (2 * t.h1);
    FullAfterSplit(t, cap, e.key, e);
    var x := Content(t1.buckets[i])[0];
    FullAfterSplit(t, cap, e.key, x);
    PutOnFullLoses(t1.buckets, i, cap, e);
  }

  lemma PutOnFullLoses(bs: seq<LBucket>, i: nat, cap: nat, e: Entry)
    requires i < |bs| && cap > 0 && Whole(bs[i], cap) && bs[i].size == cap
    ensures var x := Content(bs[i])[0]; Count(bs[i := PutIn(bs[i], e, cap)], x) < Count(bs, x) + if x == e then 1 else 0
  {
    var x := Content(bs[i])[0];
    assert x in multiset(Content(bs[i]));
    CountAfterUpdate(bs, i, PutIn(bs[i], e, cap), x);
    assert Content(PutIn(bs[i], e, cap)) == [e];
  }

  /** After any insertion the level is open. */
  lemma InsertLeavesLevelOpen(t: Table, cap: nat, e: Entry)
    requires CanInsert(t, cap, e.key)
    ensures LevelOpen(Inserted(t, cap, e))
  {
    InMemory(t, cap, Address(t, e.key));
    if t.buckets[Address(t, e.key)].size == cap {
      PutBySplitIs(t, cap, e);
      var flags := t.flags[Address(t, e.key) := true];
      if AllSet(flags, t.h1) {
        assert !NoFlags()[0];
      }
    }
  }

  // ---------- what happens otherwise ----------

  /** Without room, a search afterwards finds none of the bucket's older entries, though none was deleted. */
  lemma InsertHides(t: Table, cap: nat, e: Entry, key: nat)
    requires CanInsert(t, cap, e.key) && !HasRoom(t, cap, e.key)
    requires key != e.key && Stored(t, key) && Together(t, e.key, key)
    ensures var t1 := Inserted(t, cap, e);
      0 < t1.h1 <= |t1.flags| && Address(t1, key) < |t1.buckets| && !Finds(t1, key)
  {
    InMemory(t, cap, Address(t, e.key));
    PutBySplitIs(t, cap, e);
    FullAfterSplit(t, cap, e.key, e);
    ChosenBucket(t, cap, e.key, key);
    SameHalf(t, cap, e.key, key);
    HiddenBehind(Split(t, cap, Address(t, e.key)), cap, e.key % (2 * t.h1), e, key);
  }

  /** Without room the new entry is alone in memory, over the page with the bucket's older entries, and a search finds it. */
  lemma InsertStandsAlone(t: Table, cap: nat, e: Entry, x: Entry)
    requires CanInsert(t, cap, e.key) && !HasRoom(t, cap, e.key)
    ensures var t1, i := Inserted(t, cap, e), e.key % (2 * t.h1);
      && 0 < t1.h1 <= |t1.flags| && i < |t1.buckets| && Address(t1, e.key) == i
      && t1.buckets[i].bucket == [e] && t1.buckets[i].size == cap + 1 && Finds(t1, e.key)
      && t1.buckets[i].page.Some?
      && multiset(t1.buckets[i].page.value)[x] == multiset(Content(t.buckets[Address(t, e.key)]))[x]
  {
    InMemory(t, cap, Address(t, e.key));
    PutBySplitIs(t, cap, e);
    FullAfterSplit(t, cap, e.key, x);
    ChosenBucket(t, cap, e.key, e.key);
    AloneOverPage(Split(t, cap, Address(t, e.key)), cap, e.key % (2 * t.h1), e);
  }

  lemma AloneOverPage(t: Table, cap: nat, i: nat, e: Entry)
    requires 0 < t.h1 <= |t.flags| && cap > 0 && Address(t, e.key) == i < |t.buckets|
    requires Whole(t.buckets[i], cap) && t.buckets[i].size == cap
    ensures var t1 := t.(buckets := t.buckets[i := PutIn(t.buckets[i], e, cap)]);
      && Finds(t1, e.key) && t1.buckets[i] == LBucket([e], Some(Content(t.buckets[i])), cap + 1)
  {
    PutHidesWhenFull(t.buckets[i], e, cap);
  }

  lemma HiddenBehind(t: Table, cap: nat, i: nat, e: Entry, key: nat)
    requires 0 < t.h1 <= |t.flags| && cap > 0 && Address(t, key) == i < |t.buckets| && key != e.key
    requires Whole(t.buckets[i], cap) && t.buckets[i].size == cap
    ensures !Finds(t.(buckets := t.buckets[i := PutIn(t.buckets[i], e, cap)]), key)
  {
    PutHidesWhenFull(t.buckets[i], e, cap);
  }

  lemma SameHalf(t: Table, cap: nat, key: nat, other: nat)
    requires Good(t, cap) && Address(t, key) < |t.buckets| && !SplitMakesRoom(t, key)
    requires Stored(t, other) && Together(t, key, other)
    ensures other % (2 * t.h1) == key % (2 * t.h1)
  {
    var i, x :| 0 <= i < |t.buckets| && x in Content(t.buckets[i]) && x.key == other;
    InMemory(t, cap, i);
    assert i == Address(t, key);
    if t.flags[key % t.h1] {
      SameSplitHalf(t, key, other);
      SameSplitHalf(t, key, key);
    }
  }

  /** The table is doubled before the entry is put. */
  ghost predicate Doubled(t: Table, b: nat)
    requires t.h1 > 0 && b < |t.buckets|
  {
    |t.buckets| == 2 * t.h1 || exists e :: e in Content(t.buckets[b]) && e.key % (2 * t.h1) == b + t.h1
  }

  /**
    An insertion that splits a bucket for the first time stays in the table exactly if the index, by the `h2` that
    holds after the split, is below the table's length then; after the end of a level every key of the upper half
    goes beyond it.
   */
  lemma InsertStaysInTableExactlyWhen(t: Table, cap: nat, key: nat)
    requires Good(t, cap) && LevelOpen(t) && Address(t, key) < |t.buckets| && 2 * t.h1 <= FLAGS
    requires t.buckets[Address(t, key)].size == cap && !t.flags[key % t.h1]
    ensures CanInsert(t, cap, key) <==>
      (if AllSet(t.flags[key % t.h1 := true], t.h1) then key % (2 * (2 * t.h1)) else key % (2 * t.h1))
      < (if Doubled(t, key % t.h1) then 2 * t.h1 else t.h1)
  {
    FirstOrAgain(t, cap, key);
    SplitWidth(t, cap, key % t.h1);
  }

  lemma InsertAfterLevelEnd(t: Table, cap: nat, key: nat)
    requires Good(t, cap) && LevelOpen(t) && Address(t, key) < |t.buckets| && 2 * t.h1 <= FLAGS
    requires t.buckets[Address(t, key)].size == cap && !t.flags[key % t.h1] && AllSet(t.flags[key % t.h1 := true], t.h1)
    requires key % (2 * (2 * t.h1)) >= 2 * t.h1
    ensures !CanInsert(t, cap, key)
  {
    InsertStaysInTableExactlyWhen(t, cap, key);
  }
}
