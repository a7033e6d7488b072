/** The skip list of one partition of the memory tier, on linked nodes with forward arrays. */
module SkipList {
  import opened Heights

  const MAX_LEVEL: nat := 32

  class Node {
    const key: nat
    const maxLevel: nat
    const forward: array<Node?>
    var offset: nat
    var flag: nat

    /** `TskiplistNodeCreat` */
    constructor (key: nat, offset: nat, maxLevel: nat)
      ensures this.key == key && this.maxLevel == maxLevel && this.offset == offset && flag == 1
      ensures fresh(forward) && forward.Length == maxLevel
      ensures forall i :: 0 <= i < maxLevel ==> forward[i] == null
    {
      this.key, this.offset, this.maxLevel, flag := key, offset, maxLevel, 1;
      var links := new Node?[maxLevel];
      for i := 0 to maxLevel
        invariant forall j :: 0 <= j < i ==> links[j] == null
      {
        links[i] := null;
      }
      forward := links;
    }
  }

  function HeightsOf(nodes: seq<Node>): (h: seq<nat>)
    ensures |h| == |nodes|
    ensures forall i :: 0 <= i < |h| ==> h[i] == nodes[i].maxLevel
  {
    seq(|nodes|, i requires 0 <= i < |nodes| => nodes[i].maxLevel)
  }

  function Keys(nodes: seq<Node>): (k: seq<nat>)
    ensures |k| == |nodes|
    ensures forall i :: 0 <= i < |k| ==> k[i] == nodes[i].key
  {
    seq(|nodes|, i requires 0 <= i < |nodes| => nodes[i].key)
  }

  function NodeAt(nodes: seq<Node>, i: nat): Node? {
    if i < |nodes| then nodes[i] else null
  }

  /** Where the first node with key at least `key` stands in the bottom chain. */
  function Position(nodes: seq<Node>, key: nat): (pos: nat)
    requires |nodes| > 0
    ensures 0 < pos <= |nodes|
  {
    Scan(Keys(nodes), 1, key)
  }

  function Arrays(nodes: seq<Node>): set<object> {
    set i | 0 <= i < |nodes| :: nodes[i].forward as object
  }

  /** What the constants of the nodes say: a head sentinel, heights within `level`, keys in order, no sharing. */
  ghost predicate Shaped(nodes: seq<Node>, level: nat) {
    && |nodes| > 0 && nodes[0].key == 0 && nodes[0].maxLevel == MAX_LEVEL && level <= MAX_LEVEL
    && (forall i :: 0 < i < |nodes| ==> 0 < nodes[i].maxLevel <= level)
    && (forall i, j :: 0 <= i < j < |nodes| ==> nodes[i] != nodes[j] && nodes[i].forward != nodes[j].forward)
    && Sorted(Keys(nodes))
  }

  /** The forward pointers of node `i`: on each level the next node that is tall enough. */
  function Row(nodes: seq<Node>, i: nat): seq<Node?>
    requires i < |nodes|
  {
    seq(nodes[i].maxLevel, l requires 0 <= l < nodes[i].maxLevel => NodeAt(nodes, Next(HeightsOf(nodes), i, l)))
  }

  ghost predicate Linked(nodes: seq<Node>, i: nat)
    requires i < |nodes|
    reads nodes[i].forward
  {
    nodes[i].forward[..] == Row(nodes, i)
  }

  ghost predicate AllLinked(nodes: seq<Node>)
    reads Arrays(nodes)
  {
    forall i :: 0 <= i < |nodes| ==> nodes[i].forward in Arrays(nodes) && Linked(nodes, i)
  }

  lemma LinkedAt(nodes: seq<Node>, i: nat)
    requires AllLinked(nodes) && i < |nodes|
    ensures Linked(nodes, i) && nodes[i].forward.Length == nodes[i].maxLevel
    ensures forall l :: 0 <= l < nodes[i].maxLevel ==> nodes[i].forward[l] == NodeAt(nodes, Next(HeightsOf(nodes), i, l))
  {
    assert Linked(nodes, i);
    assert |nodes[i].forward[..]| == |Row(nodes, i)|;
    forall l | 0 <= l < nodes[i].maxLevel
      ensures nodes[i].forward[l] == NodeAt(nodes, Next(HeightsOf(nodes), i, l))
    {
      assert nodes[i].forward[l] == nodes[i].forward[..][l];
    }
  }

  /** The predecessor of position `pos` on level `l`. */
  function PredNode(nodes: seq<Node>, pos: nat, l: nat): Node
    requires 0 < pos <= |nodes| && l < nodes[0].maxLevel
  {
    nodes[Pred(HeightsOf(nodes), pos, l)]
  }

  /** The predecessors of position `pos` are known on the levels from `lo` up to but not including `hi`. */
  ghost predicate Found(update: seq<Node?>, nodes: seq<Node>, pos: nat, lo: int, hi: int) {
    && 0 < pos <= |nodes| && |update| == nodes[0].maxLevel && 0 <= lo && hi <= |update|
    && (forall l :: lo <= l < hi ==> update[l] == PredNode(nodes, pos, l))
  }

  lemma FoundOneMore(update: seq<Node?>, nodes: seq<Node>, pos: nat, lo: int, hi: int, i: nat)
    requires Found(update, nodes, pos, lo, hi) && i < |update|
    ensures i + 1 == lo ==> Found(update[i := PredNode(nodes, pos, i)], nodes, pos, i, hi)
    ensures i == hi ==> Found(update[i := PredNode(nodes, pos, i)], nodes, pos, lo, i + 1)
  {
  }

  // ---------- hooking a node in, level by level ----------

  /** The pointers of node `j` when the new node is hooked in on the levels below `k`. */
  function HalfRow(nodes: seq<Node>, tsl: Node, pos: nat, k: nat, j: nat): seq<Node?>
    requires 0 < pos <= |nodes| && k <= nodes[0].maxLevel && j < |nodes|
  {
    seq(nodes[j].maxLevel, l requires 0 <= l < nodes[j].maxLevel =>
      if l < k && j == Pred(HeightsOf(nodes), pos, l) then tsl else NodeAt(nodes, Next(HeightsOf(nodes), j, l)))
  }

  /** The new node's own pointers then. */
  function NewRow(nodes: seq<Node>, pos: nat, k: nat): seq<Node?>
    requires 0 < pos <= |nodes| && k <= nodes[0].maxLevel
  {
    seq(k, l requires 0 <= l < k => NodeAt(nodes, Next(HeightsOf(nodes), Pred(HeightsOf(nodes), pos, l), l)))
  }

  lemma HalfRowStep(nodes: seq<Node>, tsl: Node, pos: nat, k: nat, j: nat)
    requires 0 < pos <= |nodes| && k < nodes[0].maxLevel && j < |nodes|
    ensures j == Pred(HeightsOf(nodes), pos, k) ==>
      k < nodes[j].maxLevel && HalfRow(nodes, tsl, pos, k + 1, j) == HalfRow(nodes, tsl, pos, k, j)[k := tsl]
    ensures j != Pred(HeightsOf(nodes), pos, k) ==> HalfRow(nodes, tsl, pos, k + 1, j) == HalfRow(nodes, tsl, pos, k, j)
  {
  }

  ghost predicate HalfLinked(nodes: seq<Node>, tsl: Node, pos: nat, k: nat)
    requires 0 < pos <= |nodes| && k <= nodes[0].maxLevel && k <= tsl.maxLevel
    reads Arrays(nodes), tsl.forward
  {
    && (forall j :: 0 <= j < |nodes| ==>
          nodes[j].forward in Arrays(nodes) && nodes[j].forward[..] == HalfRow(nodes, tsl, pos, k, j))
    && tsl.forward.Length == tsl.maxLevel && tsl.forward[..k] == NewRow(nodes, pos, k)
  }

  class List {
    var head: Node
    var number: int
    var level: nat
    ghost var nodes: seq<Node>   // the bottom chain, the head first

    ghost predicate Valid()
      reads this, Arrays(nodes), nodes
    {
      && Shaped(nodes, level)
      && nodes[0] == head && head.flag == 1
      && AllLinked(nodes)
    }

    /** `TskiplistCreate`; the node counter is left as it comes. */
    constructor ()
      ensures Valid() && nodes == [head] && level == 0
      ensures fresh(nodes) && fresh(Arrays(nodes))
    {
      head := new Node(0, 0, MAX_LEVEL);
      level := 0;
      number := *;
      nodes := [head];
    }

    /** The inner loop of the descent: walks level `i` up to the last node whose key is below `hashkey`. */
    method Advance(start: Node, i: nat, hashkey: nat, ghost p0: nat) returns (cur: Node, ghost p: nat)
      requires Valid() && i < MAX_LEVEL
      requires p0 < Position(nodes, hashkey) && nodes[p0] == start && start.maxLevel > i
      ensures cur == PredNode(nodes, Position(nodes, hashkey), i)
      ensures p == Pred(HeightsOf(nodes), Position(nodes, hashkey), i)
    {
      cur, p := start, p0;
      ghost var h, pos := HeightsOf(nodes), Position(nodes, hashkey);
      LinkedAt(nodes, p);
      while cur.forward[i] != null && cur.forward[i].key < hashkey
        invariant p0 <= p < pos && nodes[p] == cur && cur.maxLevel > i
        invariant cur.forward.Length == cur.maxLevel && cur.forward[i] == NodeAt(nodes, Next(h, p, i))
        decreases |nodes| - p
      {
        p := Next(h, p, i);
        cur := cur.forward[i];
        LinkedAt(nodes, p);
        ScanSplits(Keys(nodes), hashkey, p);
      }
      if Next(h, p, i) < |nodes| {
        ScanSplits(Keys(nodes), hashkey, Next(h, p, i));
      }
      PredIs(h, pos, i, p);
    }

    /** `SearchNode`: the top-down descent returns what a linear scan of the bottom chain returns. */
    method SearchNode(hashkey: nat) returns (node: Node?)
      requires Valid()
      ensures node == NodeAt(nodes, Scan(Keys(nodes), 1, hashkey))
    {
      var cur := head;
      ghost var p: nat := 0;
      ghost var pos := Position(nodes, hashkey);
      var i: nat := level;
      while i > 0
        invariant i <= level && p < pos && nodes[p] == cur && cur.maxLevel >= i && cur.maxLevel > 0
        invariant i < level ==> p == Pred(HeightsOf(nodes), pos, i)
        invariant i == level ==> p == 0
      {
        i := i - 1;
        cur, p := Advance(cur, i, hashkey, p);
      }
      LinkedAt(nodes, p);
      BottomNext(nodes, level, p, pos);
      node := cur.forward[0];
    }

    /** `InsertNode`, with the drawn level `v` and the store offset of the value as parameters. */
    method InsertNode(hashkey: nat, v: nat, offset: nat) returns (code: int, ghost added: Node?)
      requires Valid() && level < MAX_LEVEL && 0 < v <= MAX_LEVEL
      modifies this, Arrays(nodes)
      ensures Valid() && code == 0
      ensures hashkey == 0 ==> nodes == old(nodes) && number == old(number) && level == old(level)
      ensures hashkey > 0 ==>
        && added != null && fresh(added) && fresh(added.forward)
        && added.key == hashkey && added.maxLevel == v && added.offset == offset && added.flag == 1
        && nodes == Spliced(old(nodes), Position(old(nodes), hashkey), added)
        && number == old(number) + 1
        && level == (if v > old(level) then v else old(level))
    {
      code, added := 0, null;
      var update, temp := Descend(hashkey);
      PredecessorKey(nodes, level, hashkey);
      if temp.key == hashkey {
        return;   // only the head has the key that is looked for, and its flag is always 1
      }
      added := AddAtLevel(update, hashkey, v, offset);
    }

    method AddAtLevel(update: seq<Node?>, hashkey: nat, v: nat, offset: nat) returns (ghost added: Node)
      requires Valid() && level < MAX_LEVEL && 0 < v <= MAX_LEVEL && hashkey > 0
      requires Found(update, nodes, Position(nodes, hashkey), 0, level + 1)
      modifies this, Arrays(nodes)
      ensures Valid() && fresh(added) && fresh(added.forward) && number == old(number) + 1
      ensures added.key == hashkey && added.maxLevel == v && added.offset == offset && added.flag == 1
      ensures nodes == Spliced(old(nodes), Position(old(nodes), hashkey), added)
      ensures level == (if v > old(level) then v else old(level))
    {
      var update' := RaiseLevel(update, v, hashkey);
      added := AddNode(update', hashkey, v, offset);
    }

    /** The descent of `InsertNode`: the predecessor of the new key on every level up to `level`. */
    method Descend(hashkey: nat) returns (update: seq<Node?>, temp: Node)
      requires Valid() && level < MAX_LEVEL
      ensures Found(update, nodes, Position(nodes, hashkey), 0, level + 1)
      ensures temp == PredNode(nodes, Position(nodes, hashkey), 0)
    {
      update := seq(MAX_LEVEL, i => null);
      temp := head;
      ghost var p: nat, pos := 0, Position(nodes, hashkey);
      var i: int := level;
      while i >= 0
        invariant -1 <= i <= level && p < pos && nodes[p] == temp && temp.maxLevel > i
        invariant Found(update, nodes, pos, i + 1, level + 1)
        invariant i < level ==> temp == PredNode(nodes, pos, i + 1)
      {
        temp, p := Advance(temp, i, hashkey, p);
        FoundOneMore(update, nodes, pos, i + 1, level + 1, i);
        update := update[i := temp];
        i := i - 1;
      }
    }

    /** A node taller than the list makes the head its predecessor on the levels that come into use. */
    method RaiseLevel(update: seq<Node?>, v: nat, ghost hashkey: nat) returns (update': seq<Node?>)
      requires Valid() && level < MAX_LEVEL && 0 < v <= MAX_LEVEL
      requires Found(update, nodes, Position(nodes, hashkey), 0, level + 1)
      modifies this`level
      ensures Valid() && level == (if v > old(level) then v else old(level))
      ensures Found(update', nodes, Position(nodes, hashkey), 0, v)
    {
      update' := update;
      if v > level {
        ghost var pos := Position(nodes, hashkey);
        AboveLevel(nodes, level, pos);
        var i := level;
        while i < v
          invariant level <= i <= v
          invariant Found(update', nodes, pos, 0, i)
        {
          FoundOneMore(update', nodes, pos, 0, i, i);
          update' := update'[i := head];
          i := i + 1;
        }
        level := v;
      }
    }

    /** Creates the new node and hooks it in behind its predecessors, level by level. */
    method AddNode(update: seq<Node?>, hashkey: nat, v: nat, offset: nat) returns (ghost added: Node)
      requires Valid() && 0 < v <= level && hashkey > 0
      requires Found(update, nodes, Position(nodes, hashkey), 0, v)
      modifies this`nodes, this`number, Arrays(nodes)
      ensures Valid() && fresh(added) && fresh(added.forward) && number == old(number) + 1
      ensures added.key == hashkey && added.maxLevel == v && added.offset == offset && added.flag == 1
      ensures nodes == Spliced(old(nodes), Position(old(nodes), hashkey), added)
    {
      number := number + 1;
      var tsl := new Node(hashkey, offset, v);
      added := tsl;
      Place(update, tsl);
    }

    method Place(update: seq<Node?>, tsl: Node)
      requires Valid() && 0 < tsl.maxLevel == tsl.forward.Length <= level && tsl.key > 0
      requires tsl !in nodes && tsl.forward !in Arrays(nodes)
      requires Found(update, nodes, Position(nodes, tsl.key), 0, tsl.maxLevel)
      modifies this`nodes, Arrays(nodes), tsl.forward
      ensures Valid() && nodes == Spliced(old(nodes), Position(old(nodes), tsl.key), tsl)
    {
      ghost var chain, pos := nodes, Position(nodes, tsl.key);
      SplicedShape(chain, level, tsl);
      nodes := Spliced(chain, pos, tsl);
      HookIn(chain, level, update, tsl, pos);
    }
  }

  lemma SplicedShape(nodes: seq<Node>, level: nat, tsl: Node)
    requires Shaped(nodes, level) && 0 < tsl.maxLevel <= level
    requires tsl !in nodes && tsl.forward !in Arrays(nodes)
    ensures Shaped(Spliced(nodes, Position(nodes, tsl.key), tsl), level)
  {
    SpliceKeepsSorted(Keys(nodes), tsl.key);
    SplicedColumns(nodes, Position(nodes, tsl.key), tsl);
    forall i | 0 <= i < |nodes|
      ensures nodes[i] != tsl && nodes[i].forward != tsl.forward
    {
      assert nodes[i].forward in Arrays(nodes);
    }
    SplicedApart(nodes, Position(nodes, tsl.key), tsl);
    SplicedHeights(nodes, Position(nodes, tsl.key), tsl, level);
  }

  lemma SplicedApart(nodes: seq<Node>, pos: nat, tsl: Node)
    requires pos <= |nodes|
    requires forall i, j :: 0 <= i < j < |nodes| ==> nodes[i] != nodes[j] && nodes[i].forward != nodes[j].forward
    requires forall i :: 0 <= i < |nodes| ==> nodes[i] != tsl && nodes[i].forward != tsl.forward
    ensures var nodes' := Spliced(nodes, pos, tsl);
      forall i, j :: 0 <= i < j < |nodes'| ==> nodes'[i] != nodes'[j] && nodes'[i].forward != nodes'[j].forward
  {
  }

  lemma SplicedHeights(nodes: seq<Node>, pos: nat, tsl: Node, level: nat)
    requires 0 < pos <= |nodes| && 0 < tsl.maxLevel <= level
    requires forall i :: 0 < i < |nodes| ==> 0 < nodes[i].maxLevel <= level
    ensures var nodes' := Spliced(nodes, pos, tsl);
      nodes'[0] == nodes[0] && forall i :: 0 < i < |nodes'| ==> 0 < nodes'[i].maxLevel <= level
  {
  }

  lemma SplicedColumns(nodes: seq<Node>, pos: nat, tsl: Node)
    requires pos <= |nodes|
    ensures HeightsOf(Spliced(nodes, pos, tsl)) == Spliced(HeightsOf(nodes), pos, tsl.maxLevel)
    ensures Keys(Spliced(nodes, pos, tsl)) == Spliced(Keys(nodes), pos, tsl.key)
  {
  }

  lemma SplicedArrays(nodes: seq<Node>, pos: nat, tsl: Node)
    requires pos <= |nodes|
    ensures Arrays(Spliced(nodes, pos, tsl)) <= Arrays(nodes) + {tsl.forward}
  {
  }

  /** With every level hooked in, the chain with the new node is linked as its heights say. */
  lemma FinishLinked(nodes: seq<Node>, tsl: Node, pos: nat)
    requires 0 < pos <= |nodes| && tsl.maxLevel <= nodes[0].maxLevel
    requires forall j :: 0 <= j < |nodes| ==> nodes[j].maxLevel <= nodes[0].maxLevel
    requires HalfLinked(nodes, tsl, pos, tsl.maxLevel)
    ensures AllLinked(Spliced(nodes, pos, tsl))
  {
    var nodes' := Spliced(nodes, pos, tsl);
    forall i | 0 <= i < |nodes'|
      ensures nodes'[i].forward in Arrays(nodes') && Linked(nodes', i)
    {
      NodeFinished(nodes, tsl, pos, i);
    }
  }

  lemma NodeFinished(nodes: seq<Node>, tsl: Node, pos: nat, i: nat)
    requires 0 < pos <= |nodes| && tsl.maxLevel <= nodes[0].maxLevel && i <= |nodes|
    requires forall j :: 0 <= j < |nodes| ==> nodes[j].maxLevel <= nodes[0].maxLevel
    requires HalfLinked(nodes, tsl, pos, tsl.maxLevel)
    ensures Linked(Spliced(nodes, pos, tsl), i)
  {
    if i == pos {
      NewNodeFinished(nodes, tsl, pos);
    } else {
      var j := if i < pos then i else i - 1;
      assert Shift(j, pos) == i;
      OldNodeFinished(nodes, tsl, pos, j);
    }
  }

  lemma OldNodeFinished(nodes: seq<Node>, tsl: Node, pos: nat, j: nat)
    requires 0 < pos <= |nodes| && tsl.maxLevel <= nodes[0].maxLevel && j < |nodes|
    requires nodes[j].maxLevel <= nodes[0].maxLevel && HalfLinked(nodes, tsl, pos, tsl.maxLevel)
    ensures Linked(Spliced(nodes, pos, tsl), Shift(j, pos))
  {
    OldRowFinished(nodes, tsl, pos, j);
    assert nodes[j].forward[..] == HalfRow(nodes, tsl, pos, tsl.maxLevel, j);
    assert Spliced(nodes, pos, tsl)[Shift(j, pos)] == nodes[j];
  }

  lemma NewNodeFinished(nodes: seq<Node>, tsl: Node, pos: nat)
    requires 0 < pos <= |nodes| && tsl.maxLevel <= nodes[0].maxLevel && HalfLinked(nodes, tsl, pos, tsl.maxLevel)
    ensures Linked(Spliced(nodes, pos, tsl), pos)
  {
    NewRowFinished(nodes, tsl, pos);
    assert tsl.forward[..] == tsl.forward[..tsl.maxLevel];
  }

  lemma NewRowFinished(nodes: seq<Node>, tsl: Node, pos: nat)
    requires 0 < pos <= |nodes| && tsl.maxLevel <= nodes[0].maxLevel
    ensures Row(Spliced(nodes, pos, tsl), pos) == NewRow(nodes, pos, tsl.maxLevel)
  {
    forall l | 0 <= l < tsl.maxLevel
      ensures Row(Spliced(nodes, pos, tsl), pos)[l] == NewRow(nodes, pos, tsl.maxLevel)[l]
    {
      NewEntryFinished(nodes, tsl, pos, l);
    }
  }

  lemma NewEntryFinished(nodes: seq<Node>, tsl: Node, pos: nat, l: nat)
    requires 0 < pos <= |nodes| && l < tsl.maxLevel <= nodes[0].maxLevel
    ensures var h, nodes' := HeightsOf(nodes), Spliced(nodes, pos, tsl);
      NodeAt(nodes', Next(HeightsOf(nodes'), pos, l)) == NodeAt(nodes, Next(h, Pred(h, pos, l), l))
  {
    SplicedColumns(nodes, pos, tsl);
    NextOfNew(HeightsOf(nodes), pos, tsl.maxLevel, l);
  }

  lemma OldRowFinished(nodes: seq<Node>, tsl: Node, pos: nat, j: nat)
    requires 0 < pos <= |nodes| && tsl.maxLevel <= nodes[0].maxLevel && j < |nodes|
    requires nodes[j].maxLevel <= nodes[0].maxLevel
    ensures Row(Spliced(nodes, pos, tsl), Shift(j, pos)) == HalfRow(nodes, tsl, pos, tsl.maxLevel, j)
  {
    forall l | 0 <= l < nodes[j].maxLevel
      ensures Row(Spliced(nodes, pos, tsl), Shift(j, pos))[l] == HalfRow(nodes, tsl, pos, tsl.maxLevel, j)[l]
    {
      OldEntryFinished(nodes, tsl, pos, j, l);
    }
  }

  lemma OldEntryFinished(nodes: seq<Node>, tsl: Node, pos: nat, j: nat, l: nat)
    requires 0 < pos <= |nodes| && tsl.maxLevel <= nodes[0].maxLevel && j < |nodes|
    requires l < nodes[j].maxLevel <= nodes[0].maxLevel
    ensures var h, nodes' := HeightsOf(nodes), Spliced(nodes, pos, tsl);
      NodeAt(nodes', Next(HeightsOf(nodes'), Shift(j, pos), l))
        == if l < tsl.maxLevel && j == Pred(h, pos, l) then tsl else NodeAt(nodes, Next(h, j, l))
  {
    var h := HeightsOf(nodes);
    SplicedColumns(nodes, pos, tsl);
    NextAfterSplice(h, pos, tsl.maxLevel, j, l);
    NodeAtShift(nodes, tsl, pos, Next(h, j, l));
  }

  lemma NodeAtShift(nodes: seq<Node>, tsl: Node, pos: nat, n: nat)
    requires pos <= |nodes| && n <= |nodes|
    ensures NodeAt(Spliced(nodes, pos, tsl), Shift(n, pos)) == NodeAt(nodes, n)
    ensures NodeAt(Spliced(nodes, pos, tsl), pos) == tsl
  {
  }

  lemma StartHalfLinked(nodes: seq<Node>, tsl: Node, pos: nat)
    requires 0 < pos <= |nodes| && AllLinked(nodes) && tsl.forward.Length == tsl.maxLevel
    ensures HalfLinked(nodes, tsl, pos, 0)
  {
    forall j | 0 <= j < |nodes|
      ensures nodes[j].forward[..] == HalfRow(nodes, tsl, pos, 0, j)
    {
      assert Linked(nodes, j);
    }
  }

  /** The loop that puts the new node behind its predecessor on each of its levels. */
  method HookIn(ghost nodes: seq<Node>, ghost level: nat, update: seq<Node?>, tsl: Node, ghost pos: nat)
    requires Shaped(nodes, level) && 0 < pos <= |nodes| && AllLinked(nodes)
    requires tsl.maxLevel == tsl.forward.Length <= level && tsl.forward !in Arrays(nodes)
    requires Found(update, nodes, pos, 0, tsl.maxLevel)
    modifies Arrays(nodes), tsl.forward
    ensures AllLinked(Spliced(nodes, pos, tsl))
  {
    StartHalfLinked(nodes, tsl, pos);
    var i := 0;
    while i < tsl.maxLevel
      invariant i <= tsl.maxLevel && HalfLinked(nodes, tsl, pos, i)
    {
      LinkLevel(nodes, update[i], tsl, i, pos);
      i := i + 1;
    }
    FinishLinked(nodes, tsl, pos);
  }

  method LinkLevel(ghost nodes: seq<Node>, prev: Node, tsl: Node, i: nat, ghost pos: nat)
    requires 0 < pos <= |nodes| && i < tsl.maxLevel <= nodes[0].maxLevel
    requires forall a, b :: 0 <= a < b < |nodes| ==> nodes[a].forward != nodes[b].forward
    requires tsl.forward !in Arrays(nodes) && prev == PredNode(nodes, pos, i) && HalfLinked(nodes, tsl, pos, i)
    modifies prev.forward, tsl.forward
    ensures HalfLinked(nodes, tsl, pos, i + 1)
  {
    BeforeLink(nodes, tsl, pos, i);
    tsl.forward[i] := prev.forward[i];
    prev.forward[i] := tsl;
    LinkedOneMore(nodes, tsl, pos, i);
  }

  /** On the next level the predecessor still points to its old successor. */
  lemma BeforeLink(nodes: seq<Node>, tsl: Node, pos: nat, i: nat)
    requires 0 < pos <= |nodes| && i < tsl.maxLevel <= nodes[0].maxLevel && HalfLinked(nodes, tsl, pos, i)
    ensures var prev := PredNode(nodes, pos, i);
      && i < prev.forward.Length && prev.forward in Arrays(nodes)
      && prev.forward[i] == NodeAt(nodes, Next(HeightsOf(nodes), Pred(HeightsOf(nodes), pos, i), i))
  {
    var p := Pred(HeightsOf(nodes), pos, i);
    HalfRowStep(nodes, tsl, pos, i, p);
    assert nodes[p].forward[..] == HalfRow(nodes, tsl, pos, i, p);
    assert nodes[p].forward[i] == nodes[p].forward[..][i];
  }

  /** The two assignments of one level hook the new node in on that level. */
  twostate lemma LinkedOneMore(nodes: seq<Node>, new tsl: Node, new pos: nat, new i: nat)
    requires 0 < pos <= |nodes| && i < tsl.maxLevel <= nodes[0].maxLevel
    requires old(allocated(tsl)) && old(HalfLinked(nodes, tsl, pos, i))
    requires tsl.forward[..] == old(tsl.forward[..])[i := NodeAt(nodes, Next(HeightsOf(nodes), Pred(HeightsOf(nodes), pos, i), i))]
    requires i < old(|PredNode(nodes, pos, i).forward[..]|)
    requires forall j :: 0 <= j < |nodes| && j != Pred(HeightsOf(nodes), pos, i) ==> nodes[j].forward[..] == old(nodes[j].forward[..])
    requires var prev := PredNode(nodes, pos, i); prev.forward[..] == old(prev.forward[..])[i := tsl]
    ensures HalfLinked(nodes, tsl, pos, i + 1)
  {
    forall j | 0 <= j < |nodes|
      ensures nodes[j].forward[..] == HalfRow(nodes, tsl, pos, i + 1, j)
    {
      HalfRowStep(nodes, tsl, pos, i, j);
      assert old(nodes[j].forward[..]) == HalfRow(nodes, tsl, pos, i, j);
    }
    NewRowStep(nodes, pos, i, tsl.forward[..]);
  }

  lemma NewRowStep(nodes: seq<Node>, pos: nat, k: nat, row: seq<Node?>)
    requires 0 < pos <= |nodes| && k < nodes[0].maxLevel && k < |row|
    requires row[..k] == NewRow(nodes, pos, k)
    requires row[k] == NodeAt(nodes, Next(HeightsOf(nodes), Pred(HeightsOf(nodes), pos, k), k))
    ensures row[..k + 1] == NewRow(nodes, pos, k + 1)
  {
    assert row[..k + 1] == row[..k] + [row[k]];
  }

  /** The predecessor of the new key on the bottom level has a smaller key, unless the key is that of the head. */
  lemma PredecessorKey(nodes: seq<Node>, level: nat, key: nat)
    requires Shaped(nodes, level)
    ensures nodes[Pred(HeightsOf(nodes), Position(nodes, key), 0)].key == key <==> key == 0
  {
    var p := Pred(HeightsOf(nodes), Position(nodes, key), 0);
    if p > 0 {
      ScanSplits(Keys(nodes), key, p);
    }
  }

  /** Above the level in use every predecessor is the head. */
  lemma AboveLevel(nodes: seq<Node>, level: nat, pos: nat)
    requires Shaped(nodes, level) && 0 < pos <= |nodes|
    ensures forall l :: level <= l < MAX_LEVEL ==> Pred(HeightsOf(nodes), pos, l) == 0
  {
    forall l | level <= l < MAX_LEVEL
      ensures Pred(HeightsOf(nodes), pos, l) == 0
    {
      PredIs(HeightsOf(nodes), pos, l, 0);
    }
  }

  /** On the bottom level the successor of the last node before `pos` is the node at `pos`. */
  lemma BottomNext(nodes: seq<Node>, level: nat, p: nat, pos: nat)
    requires Shaped(nodes, level) && 0 < pos <= |nodes|
    requires level > 0 ==> p == Pred(HeightsOf(nodes), pos, 0)
    requires level == 0 ==> p == 0
    ensures p < |nodes| && Next(HeightsOf(nodes), p, 0) == pos
  {
    NextIs(HeightsOf(nodes), p, 0, pos);
  }

  // ---------- levels as chains ----------

  /** The nodes met by following level `l` from node `i`. */
  ghost function Walk(nodes: seq<Node>, i: nat, l: nat): seq<Node>
    requires i < |nodes| && l < nodes[i].maxLevel && AllLinked(nodes)
    reads Arrays(nodes)
    decreases |nodes| - i
  {
    LinkedAt(nodes, i);
    var n := Next(HeightsOf(nodes), i, l);
    if nodes[i].forward[l] == null || n >= |nodes| then [] else [nodes[n]] + Walk(nodes, n, l)
  }

  /** The nodes of a chain that are taller than `l`, in order. */
  function Taller(nodes: seq<Node>, l: nat): seq<Node> {
    if nodes == [] then []
    else (if nodes[0].maxLevel > l then [nodes[0]] else []) + Taller(nodes[1..], l)
  }

  lemma {:induction false} SkipShort(nodes: seq<Node>, i: nat, n: nat, l: nat)
    requires i <= n <= |nodes| && forall j :: i <= j < n ==> nodes[j].maxLevel <= l
    ensures Taller(nodes[i..], l) == Taller(nodes[n..], l)
    decreases n - i
  {
    if i < n {
      SkipShort(nodes, i + 1, n, l);
      assert nodes[i..][1..] == nodes[i + 1..];
    }
  }

  /** Level `l` links exactly the nodes taller than `l`, in the order of the bottom chain. */
  lemma {:induction false} WalkVisitsTheTall(nodes: seq<Node>, i: nat, l: nat)
    requires i < |nodes| && l < nodes[i].maxLevel && AllLinked(nodes)
    ensures Walk(nodes, i, l) == Taller(nodes[i + 1..], l)
    decreases |nodes| - i
  {
    LinkedAt(nodes, i);
    var h := HeightsOf(nodes);
    var n := Next(h, i, l);
    SkipShort(nodes, i + 1, n, l);
    if n < |nodes| {
      WalkVisitsTheTall(nodes, n, l);
      assert nodes[n..][1..] == nodes[n + 1..];
    }
  }

  /** Each level is a subsequence of the one below: filtering the lower level gives the upper one. */
  lemma {:induction false} LevelsAreNested(nodes: seq<Node>, l: nat, m: nat)
    requires l <= m
    ensures Taller(Taller(nodes, l), m) == Taller(nodes, m)
    decreases |nodes|
  {
    if nodes != [] {
      LevelsAreNested(nodes[1..], l, m);
      if nodes[0].maxLevel > l {
        assert Taller(nodes, l) == [nodes[0]] + Taller(nodes[1..], l);
        assert Taller(nodes, l)[1..] == Taller(nodes[1..], l);
      } else {
        assert Taller(nodes, l) == Taller(nodes[1..], l);
        assert Taller(nodes, m) == Taller(nodes[1..], m);
      }
    }
  }

  /** From the head, every level is the tall part of the level below it, and the levels not in use are empty. */
  lemma LevelsOfList(list: List, l: nat)
    requires list.Valid() && l < MAX_LEVEL
    ensures Walk(list.nodes, 0, l) == Taller(Walk(list.nodes, 0, 0), l)
    ensures l >= list.level ==> Walk(list.nodes, 0, l) == []
  {
    var nodes := list.nodes;
    WalkVisitsTheTall(nodes, 0, l);
    WalkVisitsTheTall(nodes, 0, 0);
    LevelsAreNested(nodes[1..], 0, l);
    if l >= list.level {
      SkipShort(nodes, 1, |nodes|, l);
    }
  }

  // ---------- the list as a map ----------

  /** The node a search for `key` answers with, when it has that key. */
  function Exact(nodes: seq<Node>, key: nat): Node?
    requires |nodes| > 0
  {
    var n := NodeAt(nodes, Position(nodes, key));
    if n != null && n.key == key then n else null
  }

  lemma PositionAfterInsert(nodes: seq<Node>, level: nat, tsl: Node, key: nat)
    requires Shaped(nodes, level)
    ensures var nodes' := Spliced(nodes, Position(nodes, tsl.key), tsl);
      Position(nodes', key) == (if key <= tsl.key then Position(nodes, key) else Position(nodes, key) + 1)
    ensures if key <= tsl.key then Position(nodes, key) <= Position(nodes, tsl.key)
            else Position(nodes, key) >= Position(nodes, tsl.key)
  {
    SplicedColumns(nodes, Position(nodes, tsl.key), tsl);
    ScanAfterSplice(Keys(nodes), tsl.key, key);
  }

  /** After an insertion the key leads to the new node, and every other key to where it led before. */
  lemma ExactAfterInsert(nodes: seq<Node>, level: nat, tsl: Node, key: nat)
    requires Shaped(nodes, level)
    ensures Exact(Spliced(nodes, Position(nodes, tsl.key), tsl), key)
         == if key == tsl.key then tsl else Exact(nodes, key)
  {
    PositionAfterInsert(nodes, level, tsl, key);
    var pos, was := Position(nodes, tsl.key), Position(nodes, key);
    var nodes' := Spliced(nodes, pos, tsl);
    if key <= tsl.key {
      assert was < pos ==> nodes'[was] == nodes[was];
      assert was == pos && was < |nodes| ==> nodes[was].key >= tsl.key;
    } else {
      assert was < |nodes| ==> nodes'[was + 1] == nodes[was];
    }
  }

  /** One insertion: the key, the level drawn for it and where the store put the value. */
  datatype Draw = Draw(key: nat, v: nat, offset: nat)

  /** The offset last inserted for each key; key 0 is taken for the head and never stored. */
  function Latest(ops: seq<Draw>): map<nat, nat> {
    if ops == [] then map[]
    else AfterDraw(Latest(ops[..|ops| - 1]), ops[|ops| - 1])
  }

  function AfterDraw(m: map<nat, nat>, op: Draw): map<nat, nat> {
    if op.key == 0 then m else m[op.key := op.offset]
  }

  /** A search for `k` finds it exactly when the map has it, and then with the map's offset. */
  ghost predicate Agrees(nodes: seq<Node>, m: map<nat, nat>, k: nat)
    requires |nodes| > 0
    reads nodes
  {
    && (k in m <==> Exact(nodes, k) != null)
    && (k in m && Exact(nodes, k) != null ==> Exact(nodes, k).offset == m[k])
  }

  ghost predicate Represents(nodes: seq<Node>, m: map<nat, nat>)
    requires |nodes| > 0
    reads nodes
  {
    forall k: nat :: k > 0 ==> Agrees(nodes, m, k)
  }

  lemma RepresentsAfterInsert(chain: seq<Node>, level: nat, added: Node, m: map<nat, nat>, op: Draw)
    requires Shaped(chain, level) && added.key == op.key > 0 && added.offset == op.offset
    requires Represents(chain, m)
    ensures Represents(Spliced(chain, Position(chain, op.key), added), AfterDraw(m, op))
  {
    forall k: nat | k > 0
      ensures Agrees(Spliced(chain, Position(chain, op.key), added), AfterDraw(m, op), k)
    {
      assert Agrees(chain, m, k);
      ExactAfterInsert(chain, level, added, k);
    }
  }

  twostate lemma RepresentsStill(nodes: seq<Node>, new m: map<nat, nat>)
    requires |nodes| > 0 && old(Represents(nodes, m))
    requires forall n :: n in nodes ==> n.offset == old(n.offset)
    ensures Represents(nodes, m)
  {
    forall k: nat | k > 0
      ensures Agrees(nodes, m, k)
    {
      assert old(Agrees(nodes, m, k));
      var i := Position(nodes, k);
      assert i < |nodes| ==> nodes[i] in nodes;
    }
  }

  twostate lemma RepresentsSpliced(chain: seq<Node>, new level: nat, new added: Node, new m: map<nat, nat>, new op: Draw)
    requires Shaped(chain, level) && added.key == op.key > 0 && added.offset == op.offset
    requires old(Represents(chain, m)) && forall n :: n in chain ==> n.offset == old(n.offset)
    ensures Represents(Spliced(chain, Position(chain, op.key), added), AfterDraw(m, op))
  {
    RepresentsStill(chain, m);
    RepresentsAfterInsert(chain, level, added, m, op);
  }

  /** One more insertion, whatever level was drawn. */
  method InsertNext(list: List, op: Draw, ghost m: map<nat, nat>)
    requires list.Valid() && list.level < MAX_LEVEL && 0 < op.v < MAX_LEVEL && Represents(list.nodes, m)
    modifies list, Arrays(list.nodes)
    ensures list.Valid() && list.level < MAX_LEVEL
    ensures Represents(list.nodes, AfterDraw(m, op))
    ensures fresh(Arrays(list.nodes) - Arrays(old(list.nodes)))
  {
    ghost var chain, level := list.nodes, list.level;
    var _, added := list.InsertNode(op.key, op.v, op.offset);
    if op.key > 0 {
      SplicedArrays(chain, Position(chain, op.key), added);
      RepresentsSpliced(chain, level, added, m, op);
    } else {
      RepresentsStill(chain, m);
    }
  }

  /** After any run of insertions with any drawn levels, every search finds the latest insertion of its key. */
  method InsertRun(list: List, ops: seq<Draw>)
    requires list.Valid() && list.nodes == [list.head] && list.level == 0
    requires forall i :: 0 <= i < |ops| ==> 0 < ops[i].v < MAX_LEVEL
    modifies list, Arrays(list.nodes)
    ensures list.Valid() && Represents(list.nodes, Latest(ops))
  {
    ghost var owned := Arrays(list.nodes);
    var i := 0;
    while i < |ops|
      invariant i <= |ops| && list.Valid() && list.level < MAX_LEVEL && Represents(list.nodes, Latest(ops[..i]))
      invariant fresh(Arrays(list.nodes) - owned)
    {
      InsertNext(list, ops[i], Latest(ops[..i]));
      assert ops[..i + 1][..i] == ops[..i];
      i := i + 1;
    }
    assert ops[..|ops|] == ops;
  }
}
