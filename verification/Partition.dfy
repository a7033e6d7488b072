/**
  How the stored map is spread over the slots: slot `i` holds exactly the keys that agree with `i`
  on the local depth of its bucket.
 */
module Partition {
  import opened Bits
  import opened Aliasing

  type Items = map<nat, nat>

  function Put(m: Items, key: nat, val: nat): Items {
    m[key := val]
  }

  /** The part of `c` whose keys agree with `i` on `d` low bits. */
  ghost function Class(c: Items, d: nat, i: nat): Items {
    map k | k in c && Low(k, d) == Low(i, d) :: c[k]
  }

  /** The rest of `c`. */
  ghost function Rest(c: Items, d: nat, i: nat): Items {
    map k | k in c && Low(k, d) != Low(i, d) :: c[k]
  }

  ghost predicate Partitioned(items: seq<Items>, dep: seq<nat>, c: Items) {
    && |items| == |dep|
    && (forall i :: 0 <= i < |items| ==> items[i] == Class(c, dep[i], i))
  }

  /** The slot a key is hashed to decides about the key. */
  lemma LookupIsExact(items: seq<Items>, dep: seq<nat>, g: nat, c: Items, key: nat)
    requires Partitioned(items, dep, c) && Shape(items, dep, g)
    ensures Low(key, g) < |items|
    ensures key in c <==> key in items[Low(key, g)]
    ensures key in c ==> items[Low(key, g)][key] == c[key]
  {
    LowBounds(key, g);
    LowOfLow(key, g, dep[Low(key, g)]);
  }

  lemma ClassAfterPut(c: Items, key: nat, val: nat, d: nat, i: nat)
    ensures Class(Put(c, key, val), d, i) == if Low(key, d) == Low(i, d) then Put(Class(c, d, i), key, val) else Class(c, d, i)
  {
  }

  lemma ClassAfterDrop(c: Items, key: nat, d: nat, i: nat)
    ensures Class(c - {key}, d, i) == if Low(key, d) == Low(i, d) then Class(c, d, i) - {key} else Class(c, d, i)
  {
  }

  /** Storing a key at the bucket it is hashed to stores it in the whole. */
  lemma PutKeepsPartition<T>(slots: seq<T>, items: seq<Items>, items': seq<Items>, dep: seq<nat>, g: nat, c: Items, key: nat, val: nat)
    requires Aliased(slots, dep, g) && Partitioned(items, dep, c)
    requires Low(key, g) < |slots| == |items'|
    requires forall i :: 0 <= i < |slots| ==>
      items'[i] == if slots[i] == slots[Low(key, g)] then Put(items[i], key, val) else items[i]
    ensures Partitioned(items', dep, Put(c, key, val))
  {
    forall i | 0 <= i < |slots|
      ensures items'[i] == Class(Put(c, key, val), dep[i], i)
    {
      SlotOfKey(slots, dep, g, key, i);
      ClassAfterPut(c, key, val, dep[i], i);
    }
  }

  /** Taking a key out of the bucket it is hashed to takes it out of the whole. */
  lemma DropKeepsPartition<T>(slots: seq<T>, items: seq<Items>, items': seq<Items>, dep: seq<nat>, g: nat, c: Items, key: nat)
    requires Aliased(slots, dep, g) && Partitioned(items, dep, c)
    requires Low(key, g) < |slots| == |items'|
    requires forall i :: 0 <= i < |slots| ==>
      items'[i] == if slots[i] == slots[Low(key, g)] then items[i] - {key} else items[i]
    ensures Partitioned(items', dep, c - {key})
  {
    forall i | 0 <= i < |slots|
      ensures items'[i] == Class(c - {key}, dep[i], i)
    {
      SlotOfKey(slots, dep, g, key, i);
      ClassAfterDrop(c, key, dep[i], i);
    }
  }

  lemma GrowKeepsPartition(items: seq<Items>, dep: seq<nat>, g: nat, c: Items)
    requires Partitioned(items, dep, c) && Shape(items, dep, g)
    ensures Partitioned(items + items, dep + dep, c)
  {
    forall i | 0 <= i < |items + items|
      ensures (items + items)[i] == Class(c, (dep + dep)[i], i)
    {
      GrownSlot(items, dep, g, i);
      LowOfLow(i, g, (dep + dep)[i]);
    }
  }

  /** Emptying the class being split leaves a directory of the remaining keys. */
  lemma SplitKeepsPartition<T>(slots: seq<T>, items: seq<Items>, items': seq<Items>, dep: seq<nat>, g: nat, c: Items, b: nat)
    requires Aliased(slots, dep, g) && Partitioned(items, dep, c)
    requires b < |slots| == |items'|
    requires forall i :: 0 <= i < |slots| ==>
      items'[i] == if Low(i, dep[b]) == Low(b, dep[b]) then map[] else items[i]
    ensures Partitioned(items', SplitDepths(dep, b, dep[b]), Rest(c, dep[b], b))
  {
    var d := dep[b];
    forall i | 0 <= i < |slots|
      ensures items'[i] == Class(Rest(c, d, b), SplitDepths(dep, b, d)[i], i)
    {
      if Low(i, d) == Low(b, d) {
        forall k | k in c && Low(k, d + 1) == Low(i, d + 1)
          ensures Low(k, d) == Low(b, d)
        {
          AgreeOnFewer(k, i, d + 1, d);
        }
      } else {
        forall k | k in c && Low(k, dep[i]) == Low(i, dep[i])
          ensures Low(k, d) != Low(b, d)
        {
          SlotOfKey(slots, dep, g, k, i);
          SlotOfKey(slots, dep, g, k, b);
          assert SharesAsBits(slots, dep, b, i);
        }
      }
    }
  }

  /** An empty bucket merged into its sibling leaves the stored map as it is. */
  lemma MergeKeepsPartition<T>(slots: seq<T>, items: seq<Items>, items': seq<Items>, dep: seq<nat>, g: nat, c: Items, b: nat, d: nat)
    requires Aliased(slots, dep, g) && Partitioned(items, dep, c)
    requires b < |slots| == |items'| && dep[b] == d + 1 && items[b] == map[]
    requires Flip(b, d) < |slots| && dep[Flip(b, d)] == d + 1
    requires forall i :: 0 <= i < |slots| ==>
      items'[i] == if Low(i, d) == Low(b, d) then items[Flip(b, d)] else items[i]
    ensures Partitioned(items', MergeDepths(dep, b, d), c)
  {
    var p := Flip(b, d);
    forall i | 0 <= i < |slots| && Low(i, d) == Low(b, d)
      ensures items'[i] == Class(c, d, i)
    {
      forall k | k in c
        ensures Low(k, d) == Low(i, d) <==> Low(k, d + 1) == Low(p, d + 1)
      {
        SplitSide(b, d, k);
        assert k in Class(c, d + 1, b) <==> Low(k, d + 1) == Low(b, d + 1);
      }
    }
  }

  lemma ShrinkKeepsPartition(items: seq<Items>, dep: seq<nat>, c: Items, n: nat)
    requires Partitioned(items, dep, c) && n <= |items|
    ensures Partitioned(items[..n], dep[..n], c)
  {
  }

  lemma RestPlusClass(c: Items, d: nat, i: nat)
    ensures Rest(c, d, i) + Class(c, d, i) == c
  {
  }
}
