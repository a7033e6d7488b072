/**
  The aliasing discipline of the extendible-hash directory, on plain sequences.

  `slots[i]` is the bucket that slot `i` points to, `dep[i]` that bucket's local depth and `g`
  the global depth.  Two slots share a bucket exactly when they agree on its low `dep` bits.
 */
module Aliasing {
  import opened Bits

  ghost predicate Shape<T>(slots: seq<T>, dep: seq<nat>, g: nat) {
    && |slots| == |dep| == Pow2(g)
    && (forall i :: 0 <= i < |dep| ==> dep[i] <= g)
  }

  ghost predicate SharesAsBits<T>(slots: seq<T>, dep: seq<nat>, i: nat, j: nat)
    requires i < |slots| == |dep| && j < |slots|
  {
    && (slots[i] == slots[j] <==> Low(i, dep[i]) == Low(j, dep[i]))
    && (slots[i] == slots[j] ==> dep[i] == dep[j])
  }

  ghost predicate Aliased<T>(slots: seq<T>, dep: seq<nat>, g: nat) {
    && Shape(slots, dep, g)
    && (forall i, j :: 0 <= i < |slots| && 0 <= j < |slots| ==> SharesAsBits(slots, dep, i, j))
  }

  /** The slot that a key is hashed to holds bucket `slots[i]` exactly when the key agrees with `i` on its bits. */
  lemma SlotOfKey<T>(slots: seq<T>, dep: seq<nat>, g: nat, key: nat, i: nat)
    requires Aliased(slots, dep, g) && i < |slots|
    ensures Low(key, g) < |slots|
    ensures slots[Low(key, g)] == slots[i] <==> Low(key, dep[i]) == Low(i, dep[i])
    ensures Low(key, dep[Low(key, g)]) == Low(Low(key, g), dep[Low(key, g)])
  {
    LowBounds(key, g);
    LowOfLow(key, g, dep[i]);
    LowOfLow(key, g, dep[Low(key, g)]);
    assert SharesAsBits(slots, dep, i, Low(key, g));
  }

  // ---------- grow and shrink ----------

  /** What `grow` does to the slots: every pointer is pushed once more. */
  lemma GrowKeeps<T>(slots: seq<T>, dep: seq<nat>, g: nat)
    requires Aliased(slots, dep, g)
    ensures Aliased(slots + slots, dep + dep, g + 1)
  {
    forall i, j | 0 <= i < |slots + slots| && 0 <= j < |slots + slots|
      ensures SharesAsBits(slots + slots, dep + dep, i, j)
    {
      GrownSlot(slots, dep, g, i);
      GrownSlot(slots, dep, g, j);
      var d := (dep + dep)[i];
      assert SharesAsBits(slots, dep, Low(i, g), Low(j, g));
      LowOfLow(i, g, d);
      LowOfLow(j, g, d);
    }
  }

  lemma GrownSlot<T>(slots: seq<T>, dep: seq<nat>, g: nat, i: nat)
    requires Shape(slots, dep, g) && i < |slots + slots|
    ensures Low(i, g) < |slots|
    ensures (slots + slots)[i] == slots[Low(i, g)]
    ensures (dep + dep)[i] == dep[Low(i, g)]
  {
    LowBounds(i, g);
    if i >= Pow2(g) {
      LowAfterStride(i - Pow2(g), g);
      LowBounds(i - Pow2(g), g);
    }
  }

  /** With no bucket at the global depth the upper half repeats the lower half, so popping it loses nothing. */
  lemma ShrinkKeeps<T>(slots: seq<T>, dep: seq<nat>, g: nat)
    requires Aliased(slots, dep, g) && g > 0
    requires forall i :: 0 <= i < |dep| ==> dep[i] < g
    ensures Aliased(slots[..Pow2(g - 1)], dep[..Pow2(g - 1)], g - 1)
    ensures slots == slots[..Pow2(g - 1)] + slots[..Pow2(g - 1)]
    ensures dep == dep[..Pow2(g - 1)] + dep[..Pow2(g - 1)]
  {
    var h := Pow2(g - 1);
    forall i | 0 <= i < h
      ensures slots[h + i] == slots[i] && dep[h + i] == dep[i]
    {
      LowAfterStride(i, g - 1);
      AgreeOnFewer(i + h, i, g - 1, dep[i]);
      assert SharesAsBits(slots, dep, i, h + i);
    }
    forall i, j | 0 <= i < h && 0 <= j < h
      ensures SharesAsBits(slots[..h], dep[..h], i, j)
    {
      assert SharesAsBits(slots, dep, i, j);
    }
  }

  // ---------- split ----------

  /** The slots after a split of the bucket at slot `b`: the sibling class points to `fresh`. */
  function SplitSlots<T>(slots: seq<T>, b: nat, d: nat, newcomer: T): (r: seq<T>) {
    seq(|slots|, i requires 0 <= i < |slots| => if Low(i, d + 1) == Low(Flip(b, d), d + 1) then newcomer else slots[i])
  }

  /** The depths after a split: both halves of the old class are one deeper. */
  function SplitDepths(dep: seq<nat>, b: nat, d: nat): (r: seq<nat>) {
    seq(|dep|, i requires 0 <= i < |dep| => if Low(i, d) == Low(b, d) then d + 1 else dep[i])
  }

  lemma SplitKeeps<T>(slots: seq<T>, dep: seq<nat>, g: nat, b: nat, newcomer: T)
    requires Aliased(slots, dep, g) && b < |slots| && dep[b] < g
    requires newcomer !in slots
    ensures Aliased(SplitSlots(slots, b, dep[b], newcomer), SplitDepths(dep, b, dep[b]), g)
  {
    var d := dep[b];
    var slots', dep' := SplitSlots(slots, b, d, newcomer), SplitDepths(dep, b, d);
    forall i, j | 0 <= i < |slots| && 0 <= j < |slots|
      ensures SharesAsBits(slots', dep', i, j)
    {
      SplitPair(slots, dep, g, b, newcomer, i, j);
    }
  }

  /** Where a slot stands relative to the class being split. */
  lemma SplitSide(b: nat, d: nat, i: nat)
    ensures Low(i, d) == Low(b, d) <==> (Low(i, d + 1) == Low(b, d + 1) || Low(i, d + 1) == Low(Flip(b, d), d + 1))
    ensures Low(Flip(b, d), d + 1) != Low(b, d + 1)
  {
    HalvesOfAClass(i, b, d);
    FlipChangesOneBit(b, d);
  }

  lemma SplitPair<T>(slots: seq<T>, dep: seq<nat>, g: nat, b: nat, newcomer: T, i: nat, j: nat)
    requires Aliased(slots, dep, g) && b < |slots| && dep[b] < g
    requires newcomer !in slots && i < |slots| && j < |slots|
    ensures SharesAsBits(SplitSlots(slots, b, dep[b], newcomer), SplitDepths(dep, b, dep[b]), i, j)
  {
    var d := dep[b];
    SplitSide(b, d, i);
    SplitSide(b, d, j);
    assert SharesAsBits(slots, dep, b, i) && SharesAsBits(slots, dep, b, j);
    assert SharesAsBits(slots, dep, i, j);
  }

  // ---------- merge ----------

  /** The slots after merging the bucket at slot `b` (depth `d + 1`) into its sibling. */
  function MergeSlots<T>(slots: seq<T>, b: nat, d: nat): (r: seq<T>)
    requires Flip(b, d) < |slots|
  {
    seq(|slots|, i requires 0 <= i < |slots| => if Low(i, d + 1) == Low(b, d + 1) then slots[Flip(b, d)] else slots[i])
  }

  function MergeDepths(dep: seq<nat>, b: nat, d: nat): (r: seq<nat>) {
    seq(|dep|, i requires 0 <= i < |dep| => if Low(i, d) == Low(b, d) then d else dep[i])
  }

  lemma MergeKeeps<T>(slots: seq<T>, dep: seq<nat>, g: nat, b: nat, d: nat)
    requires Aliased(slots, dep, g) && b < |slots| && dep[b] == d + 1
    requires Flip(b, d) < |slots| && dep[Flip(b, d)] == d + 1
    ensures Aliased(MergeSlots(slots, b, d), MergeDepths(dep, b, d), g)
    ensures slots[b] !in MergeSlots(slots, b, d)
  {
    var slots', dep' := MergeSlots(slots, b, d), MergeDepths(dep, b, d);
    forall i, j | 0 <= i < |slots| && 0 <= j < |slots|
      ensures SharesAsBits(slots', dep', i, j)
    {
      MergePair(slots, dep, g, b, d, i, j);
    }
    forall i | 0 <= i < |slots|
      ensures slots'[i] != slots[b]
    {
      FlipChangesOneBit(b, d);
      assert SharesAsBits(slots, dep, b, i) && SharesAsBits(slots, dep, b, Flip(b, d));
    }
  }

  lemma MergePair<T>(slots: seq<T>, dep: seq<nat>, g: nat, b: nat, d: nat, i: nat, j: nat)
    requires Aliased(slots, dep, g) && b < |slots| && dep[b] == d + 1
    requires Flip(b, d) < |slots| && dep[Flip(b, d)] == d + 1
    requires i < |slots| && j < |slots|
    ensures SharesAsBits(MergeSlots(slots, b, d), MergeDepths(dep, b, d), i, j)
  {
    var p := Flip(b, d);
    SplitSide(b, d, i);
    SplitSide(b, d, j);
    assert SharesAsBits(slots, dep, b, i) && SharesAsBits(slots, dep, b, j);
    assert SharesAsBits(slots, dep, p, i) && SharesAsBits(slots, dep, p, j);
    assert SharesAsBits(slots, dep, i, j);
  }

  /** Merging the sibling that a split created gives the slots and depths of before the split. */
  lemma MergeUndoesSplit<T>(slots: seq<T>, dep: seq<nat>, g: nat, b: nat, newcomer: T)
    requires Aliased(slots, dep, g) && b < |slots| && dep[b] < g
    requires newcomer !in slots
    ensures Flip(b, dep[b]) < |slots| && Flip(Flip(b, dep[b]), dep[b]) == b
    ensures MergeSlots(SplitSlots(slots, b, dep[b], newcomer), Flip(b, dep[b]), dep[b])
         == slots
    ensures MergeDepths(SplitDepths(dep, b, dep[b]), Flip(b, dep[b]), dep[b]) == dep
  {
    var d := dep[b];
    var p := Flip(b, d);
    FlipStaysBelow(b, d, g);
    FlipTwice(b, d);
    FlipChangesOneBit(b, d);
    var split := SplitSlots(slots, b, d, newcomer);
    var merged := MergeSlots(split, p, d);
    forall i | 0 <= i < |slots|
      ensures merged[i] == slots[i] && MergeDepths(SplitDepths(dep, b, d), p, d)[i] == dep[i]
    {
      SplitSide(b, d, i);
      assert SharesAsBits(slots, dep, b, i);
    }
    assert merged == slots;
    assert MergeDepths(SplitDepths(dep, b, d), p, d) == dep;
  }

  // ---------- slot counting ----------

  /** How many slots point to `x`. */
  function Refs<T(==)>(slots: seq<T>, x: T): nat {
    if slots == [] then 0
    else Refs(slots[..|slots| - 1], x) + if slots[|slots| - 1] == x then 1 else 0
  }

  /** How many numbers below `n` have low `d` bits `r`. */
  function ClassSize(n: nat, d: nat, r: nat): nat {
    if n == 0 then 0 else ClassSize(n - 1, d, r) + if Low(n - 1, d) == r then 1 else 0
  }

  lemma {:induction false} SmallClass(n: nat, d: nat, r: nat)
    requires n <= Pow2(d)
    ensures ClassSize(n, d, r) == if r < n then 1 else 0
    decreases n
  {
    if n > 0 {
      SmallClass(n - 1, d, r);
      LowBounds(n - 1, d);
    }
  }

  /** Shifting by a power of two that is at least the modulus changes no membership. */
  lemma {:induction false} ClassIsPeriodic(n: nat, g: nat, d: nat, r: nat)
    requires d <= g
    ensures ClassSize(n + Pow2(g), d, r) == ClassSize(Pow2(g), d, r) + ClassSize(n, d, r)
    decreases n
  {
    if n > 0 {
      ClassIsPeriodic(n - 1, g, d, r);
      LowAfterStride(n - 1, g);
      AgreeOnFewer(n - 1 + Pow2(g), n - 1, g, d);
      assert n + Pow2(g) - 1 == n - 1 + Pow2(g);
    }
  }

  lemma {:induction false} ClassOfPowerOfTwo(g: nat, d: nat, r: nat)
    requires d <= g && r < Pow2(d)
    ensures ClassSize(Pow2(g), d, r) == Pow2(g - d)
    decreases g
  {
    if g == d {
      SmallClass(Pow2(d), d, r);
    } else {
      var half := Pow2(g - 1);
      ClassOfPowerOfTwo(g - 1, d, r);
      ClassIsPeriodic(half, g - 1, d, r);
      assert Pow2(g) == half + half && Pow2(g - d) == Pow2(g - 1 - d) + Pow2(g - 1 - d);
    }
  }

  lemma {:induction false} RefsOfClass<T>(slots: seq<T>, dep: seq<nat>, g: nat, i: nat, n: nat)
    requires Aliased(slots, dep, g) && i < |slots| && n <= |slots|
    ensures Refs(slots[..n], slots[i]) == ClassSize(n, dep[i], Low(i, dep[i]))
    decreases n
  {
    if n > 0 {
      RefsOfClass(slots, dep, g, i, n - 1);
      assert slots[..n][..n - 1] == slots[..n - 1];
      assert SharesAsBits(slots, dep, i, n - 1);
    }
  }

  /** Every bucket is referenced by exactly `2^(g - depth)` slots. */
  lemma SlotsPerBucket<T>(slots: seq<T>, dep: seq<nat>, g: nat, i: nat)
    requires Aliased(slots, dep, g) && i < |slots|
    ensures Refs(slots, slots[i]) == Pow2(g - dep[i])
  {
    RefsOfClass(slots, dep, g, i, |slots|);
    assert slots[..|slots|] == slots;
    LowBounds(i, dep[i]);
    ClassOfPowerOfTwo(g, dep[i], Low(i, dep[i]));
  }

  ghost function Pick<T>(s: set<T>): (x: T)
    requires s != {}
    ensures x in s
  {
    var x :| x in s; x
  }

  /** Sum of the reference counts over a set of buckets. */
  ghost function TotalRefs<T>(s: set<T>, slots: seq<T>): nat {
    if s == {} then 0 else Refs(slots, Pick(s)) + TotalRefs(s - {Pick(s)}, slots)
  }

  lemma {:induction false} TotalRefsOfEmpty<T>(s: set<T>)
    ensures TotalRefs(s, []) == 0
    decreases s
  {
    if s != {} {
      TotalRefsOfEmpty(s - {Pick(s)});
    }
  }

  lemma {:induction false} TotalRefsOneMore<T>(s: set<T>, slots: seq<T>, y: T)
    ensures TotalRefs(s, slots + [y]) == TotalRefs(s, slots) + if y in s then 1 else 0
    decreases s
  {
    if s != {} {
      TotalRefsOneMore(s - {Pick(s)}, slots, y);
      assert (slots + [y])[..|slots|] == slots;
    }
  }

  /** The counts over the distinct buckets add up to the directory size. */
  lemma {:induction false} RefsSumToSlots<T>(s: set<T>, slots: seq<T>)
    requires forall i :: 0 <= i < |slots| ==> slots[i] in s
    ensures TotalRefs(s, slots) == |slots|
    decreases |slots|
  {
    if slots == [] {
      TotalRefsOfEmpty(s);
    } else {
      var front, y := slots[..|slots| - 1], slots[|slots| - 1];
      assert slots == front + [y];
      RefsSumToSlots(s, front);
      TotalRefsOneMore(s, front, y);
    }
  }
}
