/** The in-memory buffer of the LSM tree: a set of entries told apart by key, bounded in size. */
module Buffer {
  import opened Entries
  import opened Merge

  /** The entries of `m`, keys strictly ascending: the iteration order of the set. */
  ghost predicate Lists(es: seq<Entry>, m: map<nat, nat>) {
    && (forall i, j :: 0 <= i < j < |es| ==> es[i].key < es[j].key)
    && (forall i :: 0 <= i < |es| ==> es[i].key in m && es[i].val == m[es[i].key])
    && (forall k :: k in m ==> exists i :: 0 <= i < |es| && es[i].key == k)
  }

  lemma {:induction false} Smallest(s: set<nat>) returns (k: nat)
    requires s != {}
    ensures k in s && forall x :: x in s ==> k <= x
    decreases |s|
  {
    var x :| x in s;
    assert forall y :: y in s ==> y == x || y in s - {x};
    if s - {x} == {} {
      k := x;
    } else {
      var l := Smallest(s - {x});
      k := if l < x then l else x;
    }
  }

  lemma ListsOneMore(es: seq<Entry>, m: map<nat, nat>, k: nat, v: nat)
    requires Lists(es, m) && forall i :: 0 <= i < |es| ==> es[i].key < k
    ensures Lists(es + [Entry(k, v)], m[k := v])
  {
    var es', m' := es + [Entry(k, v)], m[k := v];
    forall x | x in m'
      ensures exists i :: 0 <= i < |es'| && es'[i].key == x
    {
      if x == k {
        assert es'[|es|].key == x;
      } else {
        var i :| 0 <= i < |es| && es[i].key == x;
        assert es'[i].key == x;
      }
    }
  }

  /** The part of `m` whose keys were taken out of `left`. */
  function Taken(m: map<nat, nat>, left: set<nat>): map<nat, nat> {
    map k | k in m && k !in left :: m[k]
  }

  lemma TakenOneMore(m: map<nat, nat>, left: set<nat>, k: nat)
    requires k in left && k in m
    ensures Taken(m, left - {k}) == Taken(m, left)[k := m[k]]
  {
  }

  class MemoryBuffer {
    const MaxSize: nat
    var size: nat
    var Entries: map<nat, nat>

    ghost predicate Valid()
      reads this
    {
      size == |Entries| <= MaxSize
    }

    /** `maxpage` pages of `capacity` entries each. */
    constructor (maxpage: nat, capacity: nat)
      ensures Valid() && Entries == map[] && MaxSize == capacity * maxpage
    {
      MaxSize, size, Entries := capacity * maxpage, 0, map[];
    }

    /** Refuses when full, even a key that is already there; otherwise stores the pair, replacing the key's old one. */
    method PutValue(key: nat, val: nat) returns (ok: bool)
      requires Valid()
      modifies this
      ensures Valid() && ok == (old(|Entries|) < MaxSize)
      ensures Entries == if ok then old(Entries)[key := val] else old(Entries)
    {
      if size >= MaxSize {
        return false;
      }
      size := size + 1;
      if key in Entries {
        Entries := Entries - {key};
        Entries := Entries[key := val];
        size := size - 1;
        assert Entries == old(Entries)[key := val];
        assert Entries.Keys == old(Entries).Keys;
        assert |Entries| == |Entries.Keys| && |old(Entries)| == |old(Entries).Keys|;
      } else {
        Entries := Entries[key := val];
      }
      return true;
    }

    method AllClear()
      modifies this
      ensures Valid() && Entries == map[]
    {
      Entries := map[];
      size := 0;
    }

    method GetEntries() returns (values: seq<Entry>)
      requires Valid()
      ensures Lists(values, Entries) && |values| == |Entries|
    {
      values := [];
      var left := Entries.Keys;
      while left != {}
        invariant left <= Entries.Keys && Lists(values, Taken(Entries, left))
        invariant forall i, k :: 0 <= i < |values| && k in left ==> values[i].key < k
        invariant |values| + |left| == |Entries|
        decreases left
      {
        ghost var least := Smallest(left);
        var k :| k in left && forall x :: x in left ==> k <= x;
        ListsOneMore(values, Taken(Entries, left), k, Entries[k]);
        TakenOneMore(Entries, left, k);
        values := values + [Entry(k, Entries[k])];
        left := left - {k};
      }
      assert Taken(Entries, left) == Entries;
    }
  }

  /** A listing is in merge order and holds each pair once. */
  lemma ListingIsInOrder(es: seq<Entry>, m: map<nat, nat>)
    requires Lists(es, m)
    ensures InOrder(es) && DistinctKeys(es)
    ensures forall e: Entry :: e in es <==> e.key in m && m[e.key] == e.val
  {
    forall e: Entry | e.key in m && m[e.key] == e.val
      ensures e in es
    {
      var i :| 0 <= i < |es| && es[i].key == e.key;
      assert es[i] == e;
    }
  }
}
