/**
  The shape of a skip list on plain sequences: `h[i]` is the height of the i-th node of the bottom
  chain and `keys[i]` its key; index 0 is the head sentinel.
 */
module Heights {

  /** The first node after `i` that is taller than `l`, or the end. */
  function Next(h: seq<nat>, i: nat, l: nat): (r: nat)
    requires i < |h|
    ensures i < r <= |h|
    ensures r < |h| ==> h[r] > l
    ensures forall j :: i < j < r ==> h[j] <= l
    decreases |h| - i
  {
    if i + 1 == |h| || h[i + 1] > l then i + 1 else Next(h, i + 1, l)
  }

  /** The last node before `pos` that is taller than `l`; the head is taller than every level. */
  function Pred(h: seq<nat>, pos: nat, l: nat): (p: nat)
    requires 0 < pos <= |h| && h[0] > l
    ensures p < pos && h[p] > l
    ensures forall j :: p < j < pos ==> h[j] <= l
  {
    if h[pos - 1] > l then pos - 1 else Pred(h, pos - 1, l)
  }

  /** What a linear scan of the bottom chain finds: the first node behind the head with key at least `k`, or the end. */
  function Scan(keys: seq<nat>, from: nat, k: nat): (r: nat)
    requires 0 < from <= |keys|
    ensures from <= r <= |keys|
    ensures r < |keys| ==> keys[r] >= k
    ensures forall j :: from <= j < r ==> keys[j] < k
    decreases |keys| - from
  {
    if from == |keys| || keys[from] >= k then from else Scan(keys, from + 1, k)
  }

  ghost predicate Sorted(keys: seq<nat>) {
    forall i, j :: 0 <= i < j < |keys| ==> keys[i] <= keys[j]
  }

  function Spliced<T>(s: seq<T>, pos: nat, x: T): (r: seq<T>)
    requires pos <= |s|
    ensures |r| == |s| + 1 && r[pos] == x
    ensures forall i :: 0 <= i < pos ==> r[i] == s[i]
    ensures forall i :: pos < i < |r| ==> r[i] == s[i - 1]
  {
    s[..pos] + [x] + s[pos..]
  }

  lemma NextIs(h: seq<nat>, i: nat, l: nat, r: nat)
    requires i < r <= |h|
    requires r < |h| ==> h[r] > l
    requires forall j :: i < j < r ==> h[j] <= l
    ensures Next(h, i, l) == r
  {
    var n := Next(h, i, l);
    assert n == r;
  }

  lemma PredIs(h: seq<nat>, pos: nat, l: nat, p: nat)
    requires p < pos <= |h| && h[0] > l && h[p] > l
    requires forall j :: p < j < pos ==> h[j] <= l
    ensures Pred(h, pos, l) == p
  {
    var q := Pred(h, pos, l);
    assert q == p;
  }

  /** Where an old index stands after a node was put in at `pos`. */
  function Shift(i: nat, pos: nat): nat {
    if i < pos then i else i + 1
  }

  /** The successor at level `l` after a node of height `v` was put in at `pos`. */
  lemma NextAfterSplice(h: seq<nat>, pos: nat, v: nat, i: nat, l: nat)
    requires 0 < pos <= |h| && h[0] > l && i < |h| && h[i] > l
    ensures var h' := Spliced(h, pos, v);
      Next(h', Shift(i, pos), l) == if l < v && i == Pred(h, pos, l) then pos else Shift(Next(h, i, l), pos)
  {
    var h' := Spliced(h, pos, v);
    var i', n, p := Shift(i, pos), Next(h, i, l), Pred(h, pos, l);
    if l < v && i == p {
      NextIs(h', i', l, pos);
    } else {
      if i < pos <= n {
        assert i == p by {
          PredIs(h, pos, l, i);
        }
      }
      forall j | i' < j < Shift(n, pos)
        ensures h'[j] <= l
      {
        if j != pos {
          assert h'[j] == h[if j < pos then j else j - 1];
        }
      }
      NextIs(h', i', l, Shift(n, pos));
    }
  }

  /** The new node's own successor is what its predecessor pointed to. */
  lemma NextOfNew(h: seq<nat>, pos: nat, v: nat, l: nat)
    requires 0 < pos <= |h| && h[0] > l
    ensures Next(Spliced(h, pos, v), pos, l) == Next(h, Pred(h, pos, l), l) + 1
    ensures Next(h, Pred(h, pos, l), l) >= pos
  {
    var h', p := Spliced(h, pos, v), Pred(h, pos, l);
    var n := Next(h, p, l);
    assert n >= pos;
    forall j | pos < j < n + 1
      ensures h'[j] <= l
    {
      assert h'[j] == h[j - 1];
    }
    NextIs(h', pos, l, n + 1);
  }

  /** The smallest key not below `k` stands where the scan says, in a sorted chain. */
  lemma ScanSplits(keys: seq<nat>, k: nat, i: nat)
    requires Sorted(keys) && 0 < i < |keys|
    ensures keys[i] < k <==> i < Scan(keys, 1, k)
  {
    var r := Scan(keys, 1, k);
    if r < i {
      assert keys[r] <= keys[i];
    }
  }

  lemma ScanIs(keys: seq<nat>, k: nat, r: nat)
    requires 0 < r <= |keys|
    requires r < |keys| ==> keys[r] >= k
    requires forall j :: 0 < j < r ==> keys[j] < k
    ensures Scan(keys, 1, k) == r
  {
    var s := Scan(keys, 1, k);
    assert s == r;
  }

  /** Putting a key in where the scan stops keeps the chain sorted. */
  lemma SpliceKeepsSorted(keys: seq<nat>, k: nat)
    requires |keys| > 0 && Sorted(keys) && keys[0] <= k
    ensures Sorted(Spliced(keys, Scan(keys, 1, k), k))
  {
    var pos := Scan(keys, 1, k);
    var keys' := Spliced(keys, pos, k);
    forall i, j | 0 <= i < j < |keys'|
      ensures keys'[i] <= keys'[j]
    {
      if j == pos {
        if i > 0 { ScanSplits(keys, k, i); }
      } else if i == pos {
        ScanSplits(keys, k, j - 1);
      } else {
        var i0, j0 := if i < pos then i else i - 1, if j < pos then j else j - 1;
        assert keys'[i] == keys[i0] && keys'[j] == keys[j0];
      }
    }
  }

  /** Where a scan for `key` stops after `k` was put in where the scan for `k` stops. */
  lemma ScanAfterSplice(keys: seq<nat>, k: nat, key: nat)
    requires |keys| > 0 && Sorted(keys)
    ensures var pos, was := Scan(keys, 1, k), Scan(keys, 1, key);
      && Scan(Spliced(keys, pos, k), 1, key) == (if key <= k then was else was + 1)
      && (if key <= k then was <= pos else was >= pos)
  {
    var pos, was := Scan(keys, 1, k), Scan(keys, 1, key);
    var keys' := Spliced(keys, pos, k);
    if key <= k {
      if pos < |keys| {
        assert was <= pos by {
          ScanSplits(keys, key, pos);
        }
      }
      ScanIs(keys', key, was);
    } else {
      if was < |keys| {
        ScanSplits(keys, k, was);
      }
      forall j | 0 < j < was + 1
        ensures keys'[j] < key
      {
        if j > pos {
          assert keys'[j] == keys[j - 1];
        }
      }
      ScanIs(keys', key, was + 1);
    }
  }
}
