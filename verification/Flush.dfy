/**
  What flushing does to the levels of the LSM tree, on plain sequences: level `i` is the sequence of
  entries of its two runs, and its runs hold `RunSize(b, i)` entries each.
 */
module Flush {
  import opened Arithmetic
  import opened Bits
  import opened Entries
  import opened Merge

  type Levels = seq<seq<Entry>>

  /** The buffer's size, doubled for every level. */
  function RunSize(b: nat, i: nat): nat {
    if i == 0 then b else 2 * RunSize(b, i - 1)
  }

  lemma {:induction false} RunSizeIsProduct(b: nat, i: nat)
    ensures RunSize(b, i) == b * Pow2(i)
    decreases i
  {
    if i > 0 {
      RunSizeIsProduct(b, i - 1);
      assert b * Pow2(i) == 2 * (b * Pow2(i - 1));
    }
  }

  lemma {:induction false} RunSizePositive(b: nat, i: nat)
    requires b > 0
    ensures RunSize(b, i) > 0
    decreases i
  {
    if i > 0 {
      RunSizePositive(b, i - 1);
    }
  }

  predicate Full(s: Levels, b: nat, i: nat)
    requires i < |s|
  {
    |s[i]| >= 2 * RunSize(b, i)
  }

  /** Every level holds no run, one full run or two. */
  ghost predicate Settled(s: Levels, b: nat) {
    b > 0 && forall i :: 0 <= i < |s| ==> SettledAt(s, b, i)
  }

  ghost predicate SettledAt(s: Levels, b: nat, i: nat)
    requires i < |s|
  {
    |s[i]| == 0 || |s[i]| == RunSize(b, i) || |s[i]| == 2 * RunSize(b, i)
  }

  /** Some level from `cur` on is not full, so a flush of `cur` does not run past the last level. */
  predicate HasRoom(s: Levels, b: nat, cur: nat)
    decreases |s| - cur
  {
    cur < |s| && (!Full(s, b, cur) || HasRoom(s, b, cur + 1))
  }

  /** `FlushInto`: a full level is merged into the next one, which is emptied first when it is full too. */
  function FlushInto(s: Levels, b: nat, cur: nat): (r: Levels)
    requires HasRoom(s, b, cur)
    ensures |r| == |s| && forall i :: 0 <= i < cur ==> r[i] == s[i]
    ensures r[cur] == if Full(s, b, cur) then [] else s[cur]
    decreases |s| - cur
  {
    if !Full(s, b, cur) then s
    else
      var s1 := FlushInto(s, b, cur + 1);
      s1[cur + 1 := Arranged(s1[cur] + s1[cur + 1])][cur := []]
  }

  /** A full buffer `es` put into the tree. */
  function FlushBuffer(s: Levels, b: nat, es: seq<Entry>): (r: Levels)
    requires HasRoom(s, b, 0)
    ensures |r| == |s|
  {
    var s1 := FlushInto(s, b, 0);
    s1[0 := Arranged(es + s1[0])]
  }

  // ---------- runs stay empty or full ----------

  lemma ArrangedLength(es: seq<Entry>)
    ensures |Arranged(es)| == |es|
  {
    SameLength(es, Arranged(es));
  }

  lemma {:induction false} FlushIntoSettled(s: Levels, b: nat, cur: nat)
    requires Settled(s, b) && HasRoom(s, b, cur)
    ensures Settled(FlushInto(s, b, cur), b)
    decreases |s| - cur
  {
    if Full(s, b, cur) {
      FlushIntoSettled(s, b, cur + 1);
      var s1 := FlushInto(s, b, cur + 1);
      var r := FlushInto(s, b, cur);
      ArrangedLength(s1[cur] + s1[cur + 1]);
      MergedFits(s, b, cur);
      assert SettledAt(s1, b, cur + 1);
      forall i | 0 <= i < |r|
        ensures SettledAt(r, b, i)
      {
        assert SettledAt(s1, b, i);
      }
    }
  }

  /** What a full level holds together with the emptied or half-empty next level fits into the next level, in whole runs. */
  lemma MergedFits(s: Levels, b: nat, cur: nat)
    requires Settled(s, b) && HasRoom(s, b, cur) && Full(s, b, cur)
    ensures cur + 1 < |s|
    ensures var s1 := FlushInto(s, b, cur + 1);
      |s1[cur] + s1[cur + 1]| == RunSize(b, cur + 1) || |s1[cur] + s1[cur + 1]| == 2 * RunSize(b, cur + 1)
  {
    assert SettledAt(s, b, cur) && SettledAt(s, b, cur + 1);
    RunSizePositive(b, cur);
  }

  lemma FlushBufferSettled(s: Levels, b: nat, es: seq<Entry>)
    requires Settled(s, b) && HasRoom(s, b, 0) && |es| == b
    ensures Settled(FlushBuffer(s, b, es), b)
  {
    FlushIntoSettled(s, b, 0);
    var s1, r := FlushInto(s, b, 0), FlushBuffer(s, b, es);
    ArrangedLength(es + s1[0]);
    assert SettledAt(s, b, 0);
    forall i | 0 <= i < |r|
      ensures SettledAt(r, b, i)
    {
      assert SettledAt(s1, b, i);
    }
  }

  // ---------- every level is in order ----------

  ghost predicate Sorted(s: Levels) {
    forall i :: 0 <= i < |s| ==> InOrder(s[i])
  }

  lemma {:induction false} FlushIntoSorted(s: Levels, b: nat, cur: nat)
    requires Sorted(s) && HasRoom(s, b, cur)
    ensures Sorted(FlushInto(s, b, cur))
    decreases |s| - cur
  {
    if Full(s, b, cur) {
      FlushIntoSorted(s, b, cur + 1);
      var s1 := FlushInto(s, b, cur + 1);
      ArrangedIsInOrder(s1[cur] + s1[cur + 1]);
    }
  }

  lemma FlushBufferSorted(s: Levels, b: nat, es: seq<Entry>)
    requires Sorted(s) && HasRoom(s, b, 0)
    ensures Sorted(FlushBuffer(s, b, es))
  {
    FlushIntoSorted(s, b, 0);
    ArrangedIsInOrder(es + FlushInto(s, b, 0)[0]);
  }

  // ---------- no entry is lost or doubled ----------

  /** How often `e` occurs on the levels. */
  function Occurs(s: Levels, e: Entry): nat {
    if s == [] then 0 else Occurs(s[..|s| - 1], e) + multiset(s[|s| - 1])[e]
  }

  lemma {:induction false} OccursAfterUpdate(s: Levels, i: nat, x: seq<Entry>, e: Entry)
    requires i < |s|
    ensures Occurs(s[i := x], e) == Occurs(s, e) + multiset(x)[e] - multiset(s[i])[e]
    decreases |s|
  {
    var n := |s| - 1;
    if i < n {
      OccursAfterUpdate(s[..n], i, x, e);
      assert s[i := x][..n] == s[..n][i := x];
    } else {
      assert s[i := x][..n] == s[..n];
    }
  }

  lemma CountOfConcat(a: seq<Entry>, b: seq<Entry>, e: Entry)
    ensures multiset(Arranged(a + b))[e] == multiset(a)[e] + multiset(b)[e]
  {
  }

  /** Flushing moves entries between levels and changes nothing else. */
  lemma {:induction false} FlushIntoConserves(s: Levels, b: nat, cur: nat, e: Entry)
    requires HasRoom(s, b, cur)
    ensures Occurs(FlushInto(s, b, cur), e) == Occurs(s, e)
    decreases |s| - cur
  {
    if Full(s, b, cur) {
      FlushIntoConserves(s, b, cur + 1, e);
      var s1 := FlushInto(s, b, cur + 1);
      var merged := Arranged(s1[cur] + s1[cur + 1]);
      CountOfConcat(s1[cur], s1[cur + 1], e);
      OccursAfterUpdate(s1, cur + 1, merged, e);
      OccursAfterUpdate(s1[cur + 1 := merged], cur, [], e);
    }
  }

  lemma FlushBufferConserves(s: Levels, b: nat, es: seq<Entry>, e: Entry)
    requires HasRoom(s, b, 0)
    ensures Occurs(FlushBuffer(s, b, es), e) == Occurs(s, e) + multiset(es)[e]
  {
    FlushIntoConserves(s, b, 0, e);
    var s1 := FlushInto(s, b, 0);
    CountOfConcat(es, s1[0], e);
    OccursAfterUpdate(s1, 0, Arranged(es + s1[0]), e);
  }

  // ---------- the levels count the flushes in bijective base 2 ----------

  /** How many full runs level `i` holds. */
  function RunsAt(s: Levels, b: nat, i: nat): nat
    requires i < |s|
  {
    if |s[i]| == 0 then 0 else if |s[i]| < 2 * RunSize(b, i) then 1 else 2
  }

  /** The number that the levels from `i` on stand for: level `j` counts `2^(j - i)` per run. */
  function Weight(s: Levels, b: nat, i: nat): nat
    requires i <= |s|
    decreases |s| - i
  {
    if i == |s| then 0 else RunsAt(s, b, i) + 2 * Weight(s, b, i + 1)
  }

  /** From level `i` on the levels in use come first: behind an empty level there is nothing. */
  predicate Packed(s: Levels, b: nat, i: nat)
    requires i <= |s|
    decreases |s| - i
  {
    i < |s| ==> if RunsAt(s, b, i) == 0 then Weight(s, b, i + 1) == 0 && Packed(s, b, i + 1) else Packed(s, b, i + 1)
  }

  /** The digits of `n` in bijective base 2, least significant first, with 0 behind the last. */
  function Digit(n: nat, i: nat): nat
    decreases i
  {
    if n == 0 then 0
    else
      var d := if n % 2 == 1 then 1 else 2;
      if i == 0 then d else Digit((n - d) / 2, i - 1)
  }

  lemma {:induction false} WeightIgnoresLower(s: Levels, t: Levels, b: nat, i: nat)
    requires |s| == |t| && i <= |s| && forall j :: i <= j < |s| ==> s[j] == t[j]
    ensures Weight(s, b, i) == Weight(t, b, i) && Packed(s, b, i) == Packed(t, b, i)
    decreases |s| - i
  {
    if i < |s| {
      WeightIgnoresLower(s, t, b, i + 1);
    }
  }

  /** A flush of level `cur` carries two runs over as one of the next level. */
  lemma {:induction false} FlushIntoCarries(s: Levels, b: nat, cur: nat)
    requires Settled(s, b) && HasRoom(s, b, cur) && Packed(s, b, cur)
    ensures Weight(FlushInto(s, b, cur), b, cur) == Weight(s, b, cur)
    ensures Packed(FlushInto(s, b, cur), b, cur + 1)
    ensures !Full(s, b, cur) ==> FlushInto(s, b, cur) == s
    ensures Full(s, b, cur) ==> Weight(FlushInto(s, b, cur), b, cur + 1) > 0
    decreases |s| - cur
  {
    if Full(s, b, cur) {
      RunSizePositive(b, cur);
      FlushIntoCarries(s, b, cur + 1);
      var s1, r := FlushInto(s, b, cur + 1), FlushInto(s, b, cur);
      MergedFits(s, b, cur);
      FlushIntoSettled(s, b, cur + 1);
      assert SettledAt(s, b, cur) && SettledAt(s1, b, cur + 1);
      ArrangedLength(s1[cur] + s1[cur + 1]);
      RunSizePositive(b, cur + 1);
      WeightIgnoresLower(s1, r, b, cur + 2);
      assert RunsAt(r, b, cur + 1) == RunsAt(s1, b, cur + 1) + 1;
    }
  }

  /** A buffer flush adds one. */
  lemma FlushBufferCounts(s: Levels, b: nat, es: seq<Entry>)
    requires Settled(s, b) && HasRoom(s, b, 0) && Packed(s, b, 0) && |es| == b
    ensures Weight(FlushBuffer(s, b, es), b, 0) == Weight(s, b, 0) + 1
    ensures Packed(FlushBuffer(s, b, es), b, 0)
  {
    var s1 := FlushInto(s, b, 0);
    FlushIntoCarries(s, b, 0);
    FlushIntoSettled(s, b, 0);
    assert SettledAt(s, b, 0) && SettledAt(s1, b, 0);
    OneMoreRun(s1, b, es);
  }

  /** A buffer merged into a first level that is not full makes one more run there. */
  lemma OneMoreRun(s: Levels, b: nat, es: seq<Entry>)
    requires b > 0 && |es| == b && |s| > 0 && (|s[0]| == 0 || |s[0]| == b)
    ensures var r := s[0 := Arranged(es + s[0])];
      && Weight(r, b, 0) == Weight(s, b, 0) + 1
      && (Packed(r, b, 0) <==> Packed(s, b, 1))
  {
    var r := s[0 := Arranged(es + s[0])];
    ArrangedLength(es + s[0]);
    WeightIgnoresLower(s, r, b, 1);
    assert RunsAt(r, b, 0) == RunsAt(s, b, 0) + 1;
  }

  /** Prefixing a digit shifts the others up. */
  lemma DigitsShift(d: nat, w: nat, j: nat)
    requires (d == 1 || d == 2 || (d == 0 && w == 0)) && j > 0
    ensures Digit(d + 2 * w, 0) == d && Digit(d + 2 * w, j) == Digit(w, j - 1)
  {
    assert (d + 2 * w) % 2 == d % 2;
  }

  /** Packed levels are the digits of the number they stand for. */
  lemma {:induction false} RunsAreDigits(s: Levels, b: nat, i: nat, j: nat)
    requires i + j < |s| && Packed(s, b, i)
    ensures RunsAt(s, b, i + j) == Digit(Weight(s, b, i), j)
    decreases j
  {
    var d, w := RunsAt(s, b, i), Weight(s, b, i + 1);
    assert d <= 2 && (d == 0 ==> w == 0);
    DigitsShift(d, w, if j > 0 then j else 1);
    if j > 0 {
      RunsAreDigits(s, b, i + 1, j - 1);
    }
  }

  /** There is room for one more flush exactly while the count is below the largest number `|s|` digits can show. */
  lemma {:induction false} RoomMeansBelowTop(s: Levels, b: nat, i: nat)
    requires i <= |s| && Settled(s, b)
    ensures Weight(s, b, i) <= 2 * (Pow2(|s| - i) - 1)
    ensures HasRoom(s, b, i) <==> Weight(s, b, i) < 2 * (Pow2(|s| - i) - 1)
    decreases |s| - i
  {
    if i < |s| {
      RoomMeansBelowTop(s, b, i + 1);
      RunSizePositive(b, i);
      assert SettledAt(s, b, i);
    }
  }

  // ---------- the whole run ----------

  /** The levels of a `depth`-level tree after the full buffers `h` were flushed into it, oldest first. */
  function AfterFlushes(h: seq<seq<Entry>>, b: nat, depth: nat): (r: Levels)
    requires b > 0 && (forall i :: 0 <= i < |h| ==> |h[i]| == b) && |h| <= 2 * (Pow2(depth) - 1)
    ensures |r| == depth && Settled(r, b) && Packed(r, b, 0) && Weight(r, b, 0) == |h|
  {
    if h == [] then
      NothingFlushed(b, depth, 0);
      seq(depth, i => [])
    else
      var n := |h| - 1;
      var s := AfterFlushes(h[..n], b, depth);
      RoomMeansBelowTop(s, b, 0);
      FlushBufferCounts(s, b, h[n]);
      FlushBufferSettled(s, b, h[n]);
      FlushBuffer(s, b, h[n])
  }

  lemma {:induction false} NothingFlushed(b: nat, depth: nat, i: nat)
    requires i <= depth
    ensures var s: Levels := seq(depth, i => []); Packed(s, b, i) && Weight(s, b, i) == 0
    decreases depth - i
  {
    if i < depth {
      NothingFlushed(b, depth, i + 1);
    }
  }

  lemma LastFlush(h: seq<seq<Entry>>, b: nat, depth: nat)
    requires b > 0 && (forall i :: 0 <= i < |h| ==> |h[i]| == b) && 0 < |h| <= 2 * (Pow2(depth) - 1)
    ensures var s := AfterFlushes(h[..|h| - 1], b, depth);
      |s| == depth && HasRoom(s, b, 0) && AfterFlushes(h, b, depth) == FlushBuffer(s, b, h[|h| - 1])
  {
    RoomMeansBelowTop(AfterFlushes(h[..|h| - 1], b, depth), b, 0);
  }

  /** After `n` flushes level `i` holds as many full runs as digit `i` of `n` says: 1 or 2 on the levels in use, the rest empty. */
  lemma RunsAfterFlushes(h: seq<seq<Entry>>, b: nat, depth: nat, i: nat)
    requires b > 0 && (forall j :: 0 <= j < |h| ==> |h[j]| == b) && |h| <= 2 * (Pow2(depth) - 1) && i < depth
    ensures |AfterFlushes(h, b, depth)[i]| == Digit(|h|, i) * RunSize(b, i)
  {
    var s := AfterFlushes(h, b, depth);
    assert RunsAt(s, b, i) == Digit(|h|, i) by { RunsAreDigits(s, b, 0, i); }
    LengthFromRuns(s, b, i, Digit(|h|, i));
  }

  lemma LengthFromRuns(s: Levels, b: nat, i: nat, n: nat)
    requires Settled(s, b) && i < |s| && n == RunsAt(s, b, i)
    ensures |s[i]| == n * RunSize(b, i)
  {
    RunSizePositive(b, i);
    assert SettledAt(s, b, i);
  }

  /** The next flush stays within the tree exactly when fewer than `2 * (2^depth - 1)` went before. */
  lemma RoomAfterFlushes(h: seq<seq<Entry>>, b: nat, depth: nat)
    requires b > 0 && (forall j :: 0 <= j < |h| ==> |h[j]| == b) && |h| <= 2 * (Pow2(depth) - 1)
    ensures HasRoom(AfterFlushes(h, b, depth), b, 0) <==> |h| < 2 * (Pow2(depth) - 1)
  {
    RoomMeansBelowTop(AfterFlushes(h, b, depth), b, 0);
  }

  lemma {:induction false} AfterFlushesSorted(h: seq<seq<Entry>>, b: nat, depth: nat)
    requires b > 0 && (forall j :: 0 <= j < |h| ==> |h[j]| == b) && |h| <= 2 * (Pow2(depth) - 1)
    ensures Sorted(AfterFlushes(h, b, depth))
    decreases |h|
  {
    if h != [] {
      var n := |h| - 1;
      AfterFlushesSorted(h[..n], b, depth);
      LastFlush(h, b, depth);
      FlushBufferSorted(AfterFlushes(h[..n], b, depth), b, h[n]);
    }
  }

  lemma LastFlushConserves(h: seq<seq<Entry>>, b: nat, depth: nat, e: Entry)
    requires b > 0 && (forall i :: 0 <= i < |h| ==> |h[i]| == b) && 0 < |h| <= 2 * (Pow2(depth) - 1)
    ensures Occurs(AfterFlushes(h, b, depth), e) - Occurs(AfterFlushes(h[..|h| - 1], b, depth), e) == multiset(h[|h| - 1])[e]
  {
    LastFlush(h, b, depth);
    FlushBufferConserves(AfterFlushes(h[..|h| - 1], b, depth), b, h[|h| - 1], e);
  }

  /** The levels hold every flushed entry as often as it was flushed, and nothing else. */
  lemma {:induction false} AfterFlushesConserves(h: seq<seq<Entry>>, b: nat, depth: nat, e: Entry)
    requires b > 0 && (forall j :: 0 <= j < |h| ==> |h[j]| == b) && |h| <= 2 * (Pow2(depth) - 1)
    ensures Occurs(AfterFlushes(h, b, depth), e) == Occurs(h, e)
    decreases |h|
  {
    if h == [] {
      OccursNowhere(depth, e);
    } else {
      var n := |h| - 1;
      AfterFlushesConserves(h[..n], b, depth, e);
      LastFlushConserves(h, b, depth, e);
    }
  }

  lemma {:induction false} OccursNowhere(depth: nat, e: Entry)
    ensures var s: Levels := seq(depth, i => []); Occurs(s, e) == 0
    decreases depth
  {
    if depth > 0 {
      OccursNowhere(depth - 1, e);
      var s: Levels := seq(depth, i => []);
      var t: Levels := seq(depth - 1, i => []);
      assert s[..depth - 1] == t;
    }
  }

  // ---------- which flushes a level holds ----------

  lemma {:induction false} OccursInParts(h: seq<seq<Entry>>, lo: nat, mid: nat, hi: nat, e: Entry)
    requires lo <= mid <= hi <= |h|
    ensures Occurs(h[lo..hi], e) == Occurs(h[lo..mid], e) + Occurs(h[mid..hi], e)
    decreases hi
  {
    if mid < hi {
      OccursInParts(h, lo, mid, hi - 1, e);
      assert h[lo..hi][..hi - lo - 1] == h[lo..hi - 1] && h[mid..hi][..hi - mid - 1] == h[mid..hi - 1];
    }
  }

  /** How many flushes, the oldest ones, are on the levels from `i` on. */
  function Older(s: Levels, b: nat, i: nat): nat
    requires i <= |s|
  {
    Weight(s, b, i) * Pow2(i)
  }

  lemma OlderByLevel(s: Levels, b: nat, i: nat)
    requires i < |s|
    ensures Older(s, b, i) == RunsAt(s, b, i) * Pow2(i) + Older(s, b, i + 1)
  {
    DigitTimes(RunsAt(s, b, i), Weight(s, b, i + 1), Pow2(i));
  }

  lemma DigitTimes(d: nat, w: nat, p: nat)
    ensures (d + 2 * w) * p == d * p + w * (2 * p)
  {
    Distribute(d, 2 * w, p);
    assert 2 * w * p == w * (2 * p);
  }

  /** Level `i` holds the entries of the flushes that are on it or deeper but not deeper. */
  ghost predicate HoldsAges(s: Levels, b: nat, h: seq<seq<Entry>>, i: nat)
    requires i < |s|
  {
    && Older(s, b, i + 1) <= Older(s, b, i) <= |h|
    && forall e :: multiset(s[i])[e] == Occurs(h[Older(s, b, i + 1)..Older(s, b, i)], e)
  }

  ghost predicate ByAge(s: Levels, b: nat, h: seq<seq<Entry>>, cur: nat)
    requires cur <= |s|
  {
    forall i :: cur <= i < |s| ==> HoldsAges(s, b, h, i)
  }

  lemma SameAges(s: Levels, t: Levels, b: nat, h: seq<seq<Entry>>, cur: nat)
    requires cur <= |s| == |t| && (forall j :: cur <= j < |s| ==> s[j] == t[j]) && ByAge(s, b, h, cur)
    ensures ByAge(t, b, h, cur)
  {
    forall i | cur <= i < |t|
      ensures HoldsAges(t, b, h, i)
    {
      assert HoldsAges(s, b, h, i);
      WeightIgnoresLower(s, t, b, i);
      WeightIgnoresLower(s, t, b, i + 1);
    }
  }

  /** The merge of two neighbouring levels joins their stretches of the history. */
  lemma MergedAges(s: Levels, r: Levels, b: nat, h: seq<seq<Entry>>, cur: nat)
    requires cur + 1 < |s| == |r| && HoldsAges(s, b, h, cur) && HoldsAges(s, b, h, cur + 1)
    requires multiset(r[cur + 1]) == multiset(s[cur]) + multiset(s[cur + 1]) && r[cur] == []
    requires Older(r, b, cur + 2) == Older(s, b, cur + 2) && Older(r, b, cur + 1) == Older(s, b, cur) == Older(r, b, cur)
    ensures HoldsAges(r, b, h, cur) && HoldsAges(r, b, h, cur + 1)
  {
    var lo, mid, hi := Older(s, b, cur + 2), Older(s, b, cur + 1), Older(s, b, cur);
    forall e | true
      ensures multiset(r[cur + 1])[e] == Occurs(h[lo..hi], e)
    {
      OccursInParts(h, lo, mid, hi, e);
    }
    assert h[hi..hi] == [];
  }

  /** A flush keeps the order of age: what it merges down is next in age to what it is merged with. */
  lemma {:induction false} FlushIntoKeepsAges(s: Levels, b: nat, h: seq<seq<Entry>>, cur: nat)
    requires Settled(s, b) && HasRoom(s, b, cur) && Packed(s, b, cur) && ByAge(s, b, h, cur)
    ensures ByAge(FlushInto(s, b, cur), b, h, cur) && Older(FlushInto(s, b, cur), b, cur) == Older(s, b, cur)
    decreases |s| - cur
  {
    FlushIntoCarries(s, b, cur);
    if Full(s, b, cur) {
      var s1, r := FlushInto(s, b, cur + 1), FlushInto(s, b, cur);
      RunSizePositive(b, cur);
      FlushIntoKeepsAges(s, b, h, cur + 1);
      MergedFits(s, b, cur);
      OlderAfterMerge(s, s1, r, b, cur);
      assert HoldsAges(s, b, h, cur) && HoldsAges(s1, b, h, cur + 1);
      MergedAges(s1, r, b, h, cur);
      AgesBelow(s1, r, b, h, cur);
    }
  }

  lemma OlderAfterMerge(s: Levels, s1: Levels, r: Levels, b: nat, cur: nat)
    requires cur + 1 < |s| == |s1| == |r| && s1[cur] == s[cur] && r[cur] == []
    requires Older(s1, b, cur + 1) == Older(s, b, cur + 1) && Weight(r, b, cur) == Weight(s, b, cur)
    requires forall j :: cur + 2 <= j < |r| ==> r[j] == s1[j]
    ensures Older(s1, b, cur) == Older(s, b, cur) == Older(r, b, cur) == Older(r, b, cur + 1)
    ensures Older(r, b, cur + 2) == Older(s1, b, cur + 2)
  {
    OlderByLevel(s, b, cur);
    OlderByLevel(s1, b, cur);
    OlderByLevel(r, b, cur);
    WeightIgnoresLower(s1, r, b, cur + 2);
  }

  lemma AgesBelow(s1: Levels, r: Levels, b: nat, h: seq<seq<Entry>>, cur: nat)
    requires cur + 1 < |s1| == |r| && ByAge(s1, b, h, cur + 1) && forall j :: cur + 2 <= j < |r| ==> r[j] == s1[j]
    requires HoldsAges(r, b, h, cur) && HoldsAges(r, b, h, cur + 1)
    ensures ByAge(r, b, h, cur)
  {
    SameAges(s1, r, b, h, cur + 2);
    forall i | cur <= i < |r|
      ensures HoldsAges(r, b, h, i)
    {
    }
  }

  lemma AgesAfterLongerHistory(s: Levels, b: nat, h: seq<seq<Entry>>, es: seq<Entry>, cur: nat)
    requires cur <= |s| && ByAge(s, b, h, cur)
    ensures ByAge(s, b, h + [es], cur)
  {
    forall i | cur <= i < |s|
      ensures HoldsAges(s, b, h + [es], i)
    {
      assert HoldsAges(s, b, h, i);
      assert (h + [es])[Older(s, b, i + 1)..Older(s, b, i)] == h[Older(s, b, i + 1)..Older(s, b, i)];
    }
  }

  lemma FlushBufferKeepsAges(s: Levels, b: nat, h: seq<seq<Entry>>, es: seq<Entry>)
    requires Settled(s, b) && HasRoom(s, b, 0) && Packed(s, b, 0) && |es| == b
    requires ByAge(s, b, h, 0) && Older(s, b, 0) == |h|
    ensures ByAge(FlushBuffer(s, b, es), b, h + [es], 0) && Older(FlushBuffer(s, b, es), b, 0) == |h| + 1
  {
    var s1, r := FlushInto(s, b, 0), FlushBuffer(s, b, es);
    FlushIntoKeepsAges(s, b, h, 0);
    FlushBufferCounts(s, b, es);
    AgesAfterLongerHistory(s1, b, h, es, 0);
    SameAges(s1, r, b, h + [es], 1);
    WeightIgnoresLower(s1, r, b, 1);
    assert HoldsAges(s1, b, h + [es], 0);
    NewestLevel(s1, r, b, h, es);
    forall i | 0 <= i < |r|
      ensures HoldsAges(r, b, h + [es], i)
    {
    }
  }

  /** The buffer goes to the newest level. */
  lemma NewestLevel(s1: Levels, r: Levels, b: nat, h: seq<seq<Entry>>, es: seq<Entry>)
    requires 0 < |s1| == |r| && HoldsAges(s1, b, h + [es], 0) && multiset(r[0]) == multiset(es) + multiset(s1[0])
    requires Older(r, b, 1) == Older(s1, b, 1) && Older(s1, b, 0) == |h| && Older(r, b, 0) == |h| + 1
    ensures HoldsAges(r, b, h + [es], 0)
  {
    var h', lo := h + [es], Older(r, b, 1);
    forall e | true
      ensures multiset(r[0])[e] == Occurs(h'[lo..|h| + 1], e)
    {
      OccursInParts(h', lo, |h|, |h| + 1, e);
      assert h'[|h|..|h| + 1] == [es];
      assert Occurs([es], e) == Occurs([es][..0], e) + multiset(es)[e];
    }
  }

  /** What is left of `n` when its `i` lowest digits in bijective base 2 are cut off. */
  function Shifted(n: nat, i: nat): nat {
    if i == 0 then n else (Shifted(n, i - 1) - Digit(Shifted(n, i - 1), 0)) / 2
  }

  /** How many of `n` flushes, the oldest, are on level `i` and deeper. */
  function Oldest(n: nat, i: nat): nat {
    Shifted(n, i) * Pow2(i)
  }

  lemma {:induction false} WeightIsShifted(s: Levels, b: nat, i: nat)
    requires i <= |s| && Packed(s, b, 0)
    ensures Weight(s, b, i) == Shifted(Weight(s, b, 0), i) && Packed(s, b, i)
    decreases i
  {
    if i > 0 {
      WeightIsShifted(s, b, i - 1);
      RunsAreDigits(s, b, i - 1, 0);
    }
  }

  lemma {:induction false} AfterFlushesByAge(h: seq<seq<Entry>>, b: nat, depth: nat)
    requires b > 0 && (forall j :: 0 <= j < |h| ==> |h[j]| == b) && |h| <= 2 * (Pow2(depth) - 1)
    ensures ByAge(AfterFlushes(h, b, depth), b, h, 0)
    decreases |h|
  {
    if h == [] {
      NothingByAge(AfterFlushes(h, b, depth), b);
    } else {
      AfterFlushesByAge(h[..|h| - 1], b, depth);
      LastFlushByAge(h, b, depth);
    }
  }

  lemma LastFlushByAge(h: seq<seq<Entry>>, b: nat, depth: nat)
    requires b > 0 && (forall i :: 0 <= i < |h| ==> |h[i]| == b) && 0 < |h| <= 2 * (Pow2(depth) - 1)
    requires ByAge(AfterFlushes(h[..|h| - 1], b, depth), b, h[..|h| - 1], 0)
    ensures ByAge(AfterFlushes(h, b, depth), b, h, 0)
  {
    LastFlush(h, b, depth);
    SplitLast(h);
    NextByAge(AfterFlushes(h[..|h| - 1], b, depth), b, h[..|h| - 1], h[|h| - 1]);
  }

  lemma SplitLast(h: seq<seq<Entry>>)
    requires h != []
    ensures h == h[..|h| - 1] + [h[|h| - 1]]
  {
  }

  lemma NextByAge(s: Levels, b: nat, h: seq<seq<Entry>>, es: seq<Entry>)
    requires Settled(s, b) && HasRoom(s, b, 0) && Packed(s, b, 0) && |es| == b
    requires ByAge(s, b, h, 0) && Weight(s, b, 0) == |h|
    ensures ByAge(FlushBuffer(s, b, es), b, h + [es], 0)
  {
    assert Pow2(0) == 1;
    FlushBufferKeepsAges(s, b, h, es);
  }

  lemma NothingByAge(s: Levels, b: nat)
    requires Packed(s, b, 0) && Weight(s, b, 0) == 0 && forall i :: 0 <= i < |s| ==> s[i] == []
    ensures ByAge(s, b, [], 0)
  {
    forall i | 0 <= i < |s|
      ensures HoldsAges(s, b, [], i)
    {
      NoWeight(s, b, i);
      NoWeight(s, b, i + 1);
    }
  }

  lemma {:induction false} NoWeight(s: Levels, b: nat, i: nat)
    requires i <= |s| && forall i :: 0 <= i < |s| ==> s[i] == []
    ensures Weight(s, b, i) == 0
    decreases |s| - i
  {
    if i < |s| {
      NoWeight(s, b, i + 1);
    }
  }

  /**
    The levels are ordered by age: the oldest `Oldest(n, i)` of `n` flushes are on level `i` and deeper, so level `i`
    holds the entries of a stretch of consecutive flushes, each newer than every flush on a deeper level.
   */
  lemma LevelHoldsStretch(h: seq<seq<Entry>>, b: nat, depth: nat, i: nat, e: Entry)
    requires b > 0 && (forall j :: 0 <= j < |h| ==> |h[j]| == b) && |h| <= 2 * (Pow2(depth) - 1) && i < depth
    ensures Oldest(|h|, i + 1) <= Oldest(|h|, i) <= |h|
    ensures multiset(AfterFlushes(h, b, depth)[i])[e] == Occurs(h[Oldest(|h|, i + 1)..Oldest(|h|, i)], e)
  {
    var s := AfterFlushes(h, b, depth);
    AfterFlushesByAge(h, b, depth);
    assert HoldsAges(s, b, h, i);
    WeightIsShifted(s, b, i);
    WeightIsShifted(s, b, i + 1);
  }

  // ---------- tombstones ----------

  /** The entries that a merge writes back: a value of 0 marks a deleted key. */
  function Live(es: seq<Entry>): seq<Entry> {
    if es == [] then [] else (if es[0].val != 0 then [es[0]] else []) + Live(es[1..])
  }

  ghost predicate NoTombstones(es: seq<Entry>) {
    forall e :: e in es ==> e.val != 0
  }

  /** How many of the entries are tombstones. */
  function Dead(es: seq<Entry>): (n: nat)
    ensures n <= |es|
  {
    if es == [] then 0 else (if es[0].val == 0 then 1 else 0) + Dead(es[1..])
  }

  /** A merge writes back all entries but the tombstones. */
  lemma {:induction false} LiveIsRest(es: seq<Entry>)
    ensures |Live(es)| == |es| - Dead(es)
    ensures NoTombstones(es) <==> Dead(es) == 0
    ensures NoTombstones(es) ==> Live(es) == es
  {
    if es != [] {
      LiveIsRest(es[1..]);
      assert es == [es[0]] + es[1..];
    }
  }

  lemma {:induction false} DeadAfterPlace(e: Entry, es: seq<Entry>)
    ensures Dead(Place(e, es)) == Dead(es) + if e.val == 0 then 1 else 0
  {
    if es != [] && Less(e, es[0]) {
      DeadAfterPlace(e, es[1..]);
    }
  }

  lemma {:induction false} DeadInAnyOrder(es: seq<Entry>)
    ensures Dead(Arranged(es)) == Dead(es)
  {
    if es != [] {
      DeadInAnyOrder(es[1..]);
      DeadAfterPlace(es[0], Arranged(es[1..]));
    }
  }

  /** One or two runs of `size` entries merged leave whole runs behind exactly when the tombstones among them make up whole runs. */
  lemma WholeRunsExactlyWhen(es: seq<Entry>, size: nat)
    requires size > 0 && (|es| == size || |es| == 2 * size)
    ensures |Live(Arranged(es))| in {0, size, 2 * size} <==> Dead(es) % size == 0
  {
    ArrangedLength(es);
    DeadInAnyOrder(es);
    LiveIsRest(Arranged(es));
    WholeParts(Dead(es), size);
  }

  lemma WholeParts(n: nat, size: nat)
    requires size > 0 && n <= 2 * size
    ensures n % size == 0 <==> n in {0, size, 2 * size}
  {
    if n < size {
      Quotient(n, size, 0, n);
    } else if n < 2 * size {
      Quotient(n, size, 1, n - size);
    } else {
      Quotient(n, size, 2, 0);
    }
  }

  lemma {:induction false} LiveOfMore(es: seq<Entry>, e: Entry)
    ensures Live(es + [e]) == Live(es) + Live([e])
  {
    if es == [] {
      assert es + [e] == [e];
    } else {
      var first := if es[0].val != 0 then [es[0]] else [];
      LiveOfMore(es[1..], e);
      assert (es + [e])[0] == es[0] && (es + [e])[1..] == es[1..] + [e];
      assert first + (Live(es[1..]) + Live([e])) == (first + Live(es[1..])) + Live([e]);
    }
  }

  lemma {:induction false} OccursOnALevel(s: Levels, i: nat, e: Entry)
    requires i < |s|
    ensures e in s[i] ==> Occurs(s, e) > 0
    decreases |s|
  {
    var n := |s| - 1;
    if i < n {
      OccursOnALevel(s[..n], i, e);
    }
  }

  lemma {:induction false} OccursSomewhere(s: Levels, e: Entry)
    requires Occurs(s, e) > 0
    ensures exists i :: 0 <= i < |s| && e in s[i]
    decreases |s|
  {
    var n := |s| - 1;
    if e !in s[n] {
      OccursSomewhere(s[..n], e);
    }
  }

  /** Without tombstones in the buffers there are none on the levels. */
  lemma AfterFlushesAlive(h: seq<seq<Entry>>, b: nat, depth: nat)
    requires b > 0 && (forall j :: 0 <= j < |h| ==> |h[j]| == b) && |h| <= 2 * (Pow2(depth) - 1)
    requires forall j :: 0 <= j < |h| ==> NoTombstones(h[j])
    ensures forall i :: 0 <= i < depth ==> NoTombstones(AfterFlushes(h, b, depth)[i])
  {
    var s := AfterFlushes(h, b, depth);
    forall i: nat, e: Entry | i < depth && e in s[i]
      ensures e.val != 0
    {
      OccursOnALevel(s, i, e);
      AfterFlushesConserves(h, b, depth, e);
      OccursSomewhere(h, e);
    }
  }
}
