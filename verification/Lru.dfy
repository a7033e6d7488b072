/** The page cache: a list in recency order and a hash map of iterators into it. */
module Lru {
  import opened Entries

  datatype ReadNode = ReadNode(PageId: nat, data: nat)   // `data` stands for the pointer

  // ---------- the cache as a sequence of nodes, most recent first ----------

  predicate Holds(s: seq<ReadNode>, p: nat) {
    exists i :: 0 <= i < |s| && s[i].PageId == p
  }

  function Pages(s: seq<ReadNode>): (r: seq<nat>)
    ensures |r| == |s| && forall i :: 0 <= i < |s| ==> r[i] == s[i].PageId
  {
    seq(|s|, i requires 0 <= i < |s| => s[i].PageId)
  }

  function Without(s: seq<nat>, p: nat): (r: seq<nat>)
    ensures |r| <= |s| && forall q :: q in r <==> q in s && q != p
  {
    if s == [] then [] else (if s[0] == p then [] else [s[0]]) + Without(s[1..], p)
  }

  /** `list::erase` at the node of page `p`. */
  function EraseNode(s: seq<ReadNode>, p: nat): seq<ReadNode> {
    if s == [] then [] else if s[0].PageId == p then s[1..] else [s[0]] + EraseNode(s[1..], p)
  }

  function NodeOf(s: seq<ReadNode>, p: nat): (n: ReadNode)
    requires Holds(s, p)
    ensures n in s && n.PageId == p
  {
    if s[0].PageId == p then s[0]
    else
      assert exists i :: 0 <= i < |s[1..]| && s[1..][i].PageId == p by {
        var i :| 0 <= i < |s| && s[i].PageId == p;
        assert s[1..][i - 1].PageId == p;
      }
      NodeOf(s[1..], p)
  }

  datatype Op = Get(page: nat) | Put(node: ReadNode)

  /** What `get` and `put` do to the list. */
  function Step(s: seq<ReadNode>, capacity: nat, op: Op): seq<ReadNode>
    requires capacity > 0
  {
    match op
    case Get(p) => if Holds(s, p) then [NodeOf(s, p)] + EraseNode(s, p) else s
    case Put(n) =>
      if Holds(s, n.PageId) then [n] + EraseNode(s, n.PageId)
      else [n] + if |s| == capacity then s[..capacity - 1] else s
  }

  function Run(ops: seq<Op>, capacity: nat): seq<ReadNode>
    requires capacity > 0
  {
    if ops == [] then [] else Step(Run(ops[..|ops| - 1], capacity), capacity, ops[|ops| - 1])
  }

  // ---------- recency ----------

  ghost predicate Distinct(s: seq<nat>) {
    forall i, j :: 0 <= i < j < |s| ==> s[i] != s[j]
  }

  /** The pages of `uses`, the most recently used first. */
  function Recency(uses: seq<nat>): seq<nat> {
    if uses == [] then [] else Touch(Recency(uses[..|uses| - 1]), uses[|uses| - 1])
  }

  function Touch(s: seq<nat>, p: nat): seq<nat> {
    [p] + Without(s, p)
  }

  function First(s: seq<nat>, c: nat): seq<nat> {
    if |s| <= c then s else s[..c]
  }

  /** The index of the last use of `p`. */
  function LastUse(uses: seq<nat>, p: nat): (i: nat)
    requires p in uses
    ensures i < |uses| && uses[i] == p && forall j :: i < j < |uses| ==> uses[j] != p
  {
    var n := |uses| - 1;
    if uses[n] == p then n
    else
      assert uses == uses[..n] + [uses[n]];
      var i := LastUse(uses[..n], p);
      assert forall j :: 0 <= j < n ==> uses[j] == uses[..n][j];
      i
  }

  lemma DistinctSplit(s: seq<nat>, x: nat, t: seq<nat>)
    requires s == [x] + t
    ensures Distinct(s) <==> x !in t && Distinct(t)
  {
    assert forall i :: 0 <= i < |t| ==> s[i + 1] == t[i];
    if x !in t && Distinct(t) {
      forall i, j | 0 <= i < j < |s|
        ensures s[i] != s[j]
      {
        assert s[j] == t[j - 1];
        if i > 0 {
          assert s[i] == t[i - 1];
        }
      }
    }
    if Distinct(s) {
      forall i, j | 0 <= i < j < |t|
        ensures t[i] != t[j]
      {
        assert s[i + 1] != s[j + 1];
      }
      forall i | 0 <= i < |t|
        ensures t[i] != x
      {
        assert s[0] != s[i + 1];
      }
    }
  }

  lemma {:induction false} WithoutKeepsDistinct(s: seq<nat>, p: nat)
    requires Distinct(s)
    ensures Distinct(Without(s, p))
    ensures p !in s ==> Without(s, p) == s
  {
    if s != [] {
      DistinctSplit(s, s[0], s[1..]);
      WithoutKeepsDistinct(s[1..], p);
      DistinctSplit([s[0]] + Without(s[1..], p), s[0], Without(s[1..], p));
    }
  }

  lemma {:induction false} RecencyIsDistinct(uses: seq<nat>)
    ensures Distinct(Recency(uses))
    ensures forall p :: p in Recency(uses) <==> p in uses
  {
    if uses != [] {
      var n := |uses| - 1;
      RecencyIsDistinct(uses[..n]);
      WithoutKeepsDistinct(Recency(uses[..n]), uses[n]);
      assert uses == uses[..n] + [uses[n]];
    }
  }

  /** Pages stand in the order of their last uses. */
  ghost predicate ByLastUse(s: seq<nat>, uses: seq<nat>) {
    && (forall p :: p in s ==> p in uses)
    && (forall i, j :: 0 <= i < j < |s| ==> LastUse(uses, s[i]) > LastUse(uses, s[j]))
  }

  /** `p` was used after every page of `s`. */
  ghost predicate UsedAfter(uses: seq<nat>, p: nat, s: seq<nat>) {
    p in uses && forall q :: q in s ==> q in uses && LastUse(uses, q) < LastUse(uses, p)
  }

  lemma ByLastUseSplit(s: seq<nat>, x: nat, t: seq<nat>, uses: seq<nat>)
    requires s == [x] + t
    ensures ByLastUse(s, uses) <==> UsedAfter(uses, x, t) && ByLastUse(t, uses)
  {
    assert forall q :: q in s <==> q == x || q in t;
    if ByLastUse(s, uses) {
      assert s[0] == x;
      forall q | q in t
        ensures q in uses && LastUse(uses, q) < LastUse(uses, x)
      {
        var k :| 0 <= k < |t| && t[k] == q;
        assert s[k + 1] == q;
      }
      forall i, j | 0 <= i < j < |t|
        ensures LastUse(uses, t[i]) > LastUse(uses, t[j])
      {
        assert s[i + 1] == t[i] && s[j + 1] == t[j];
      }
    }
    if UsedAfter(uses, x, t) && ByLastUse(t, uses) {
      forall i, j | 0 <= i < j < |s|
        ensures LastUse(uses, s[i]) > LastUse(uses, s[j])
      {
        assert s[j] == t[j - 1];
        if i > 0 {
          assert s[i] == t[i - 1];
        }
      }
    }
  }

  lemma {:induction false} WithoutKeepsByLastUse(s: seq<nat>, uses: seq<nat>, p: nat)
    requires ByLastUse(s, uses)
    ensures ByLastUse(Without(s, p), uses)
  {
    if s != [] {
      ByLastUseSplit(s, s[0], s[1..], uses);
      WithoutKeepsByLastUse(s[1..], uses, p);
      ByLastUseSplit([s[0]] + Without(s[1..], p), s[0], Without(s[1..], p), uses);
    }
  }

  /** A later use of another page does not change when a page was used last. */
  lemma MoreUsesKeepByLastUse(s: seq<nat>, uses: seq<nat>, p: nat)
    requires ByLastUse(s, uses) && p !in s
    ensures ByLastUse([p] + s, uses + [p])
  {
    var all := uses + [p];
    assert all[..|uses|] == uses;
    forall q | q in s
      ensures q in all && LastUse(all, q) == LastUse(uses, q) < |uses|
    {
    }
    assert LastUse(all, p) == |uses|;
    assert ByLastUse(s, all);
    ByLastUseSplit([p] + s, p, s, all);
  }

  lemma {:induction false} RecencyOrder(uses: seq<nat>)
    ensures ByLastUse(Recency(uses), uses)
  {
    if uses != [] {
      var n := |uses| - 1;
      RecencyOrder(uses[..n]);
      WithoutKeepsByLastUse(Recency(uses[..n]), uses[..n], uses[n]);
      MoreUsesKeepByLastUse(Without(Recency(uses[..n]), uses[n]), uses[..n], uses[n]);
      assert uses == uses[..n] + [uses[n]];
    }
  }

  // ---------- the cache holds the most recently used pages ----------

  /** The pages that the operations use: those put, and those got while cached. */
  function Used(ops: seq<Op>, capacity: nat): seq<nat>
    requires capacity > 0
  {
    if ops == [] then []
    else
      var n := |ops| - 1;
      Used(ops[..n], capacity) +
      match ops[n]
      case Get(p) => if Holds(Run(ops[..n], capacity), p) then [p] else []
      case Put(node) => [node.PageId]
  }

  lemma HoldsInPages(s: seq<ReadNode>, p: nat)
    ensures Holds(s, p) <==> p in Pages(s)
  {
    if p in Pages(s) {
      var i :| 0 <= i < |s| && Pages(s)[i] == p;
      assert s[i].PageId == p;
    }
  }

  lemma {:induction false} PagesAfterErase(s: seq<ReadNode>, p: nat)
    requires Distinct(Pages(s))
    ensures Pages(EraseNode(s, p)) == Without(Pages(s), p)
  {
    if s != [] {
      var t := s[1..];
      assert Pages(s)[1..] == Pages(t);
      assert Distinct(Pages(t)) by {
        assert forall i :: 0 <= i < |t| ==> Pages(t)[i] == Pages(s)[i + 1];
      }
      PagesAfterErase(t, p);
      if s[0].PageId == p {
        assert p !in Pages(t) by {
          assert forall i :: 0 <= i < |t| ==> Pages(t)[i] == Pages(s)[i + 1];
        }
        WithoutKeepsDistinct(Pages(t), p);
      } else {
        assert Pages([s[0]] + EraseNode(t, p)) == [s[0].PageId] + Pages(EraseNode(t, p));
      }
    }
  }

  lemma FirstSplit(x: nat, t: seq<nat>, c: nat)
    requires c > 0
    ensures First([x] + t, c) == [x] + First(t, c - 1)
  {
  }

  lemma WithoutSplit(x: nat, t: seq<nat>, p: nat)
    ensures Without([x] + t, p) == (if x == p then [] else [x]) + Without(t, p)
  {
    assert ([x] + t)[1..] == t;
  }

  /** Cutting a distinct list to `c` pages commutes with using a page that is among those. */
  lemma {:induction false} WithoutInFirst(s: seq<nat>, c: nat, p: nat)
    requires Distinct(s) && p in First(s, c)
    ensures Without(First(s, c), p) == First(Without(s, p), c - 1)
    decreases |s|
  {
    var x, t := s[0], s[1..];
    assert s == [x] + t;
    DistinctSplit(s, x, t);
    FirstSplit(x, t, c);
    WithoutSplit(x, First(t, c - 1), p);
    WithoutSplit(x, t, p);
    if x == p {
      WithoutKeepsDistinct(t, p);
      NotInFirst(t, c - 1, p);
    } else {
      WithoutInFirst(t, c - 1, p);
      FirstSplit(x, Without(t, p), c - 1);
    }
  }

  lemma NotInFirst(t: seq<nat>, c: nat, p: nat)
    requires Distinct(t) && p !in t
    ensures Without(First(t, c), p) == First(t, c)
  {
    WithoutKeepsDistinct(First(t, c), p);
  }

  lemma {:induction false} WithoutBeyondFirst(s: seq<nat>, c: nat, p: nat)
    requires Distinct(s) && p !in First(s, c)
    ensures First(Without(s, p), c) == First(s, c)
    decreases |s|
  {
    if s != [] && c > 0 {
      var x, t := s[0], s[1..];
      assert s == [x] + t;
      DistinctSplit(s, x, t);
      FirstSplit(x, t, c);
      WithoutSplit(x, t, p);
      WithoutBeyondFirst(t, c - 1, p);
      FirstSplit(x, Without(t, p), c);
    }
  }

  lemma TouchFirst(s: seq<nat>, c: nat, p: nat)
    requires Distinct(s) && c > 0
    ensures First(Touch(s, p), c) ==
      if p in First(s, c) then [p] + Without(First(s, c), p)
      else [p] + if |First(s, c)| == c then First(s, c)[..c - 1] else First(s, c)
  {
    FirstSplit(p, Without(s, p), c);
    if p in First(s, c) {
      WithoutInFirst(s, c, p);
    } else {
      FirstIsShorter(s, c, p);
      WithoutBeyondFirst(s, c - 1, p);
    }
  }

  lemma FirstIsShorter(s: seq<nat>, c: nat, p: nat)
    requires c > 0
    ensures p !in First(s, c) ==> p !in First(s, c - 1)
    ensures First(s, c - 1) == if |First(s, c)| == c then First(s, c)[..c - 1] else First(s, c)
  {
  }

  /** A use of page `p`: every `put`, and a `get` that hits, moves the page to the front. */
  lemma StepTouches(s: seq<ReadNode>, capacity: nat, op: Op, recent: seq<nat>)
    requires capacity > 0 && Distinct(recent) && Pages(s) == First(recent, capacity)
    ensures Pages(Step(s, capacity, op)) ==
      match op
      case Get(p) => if Holds(s, p) then First(Touch(recent, p), capacity) else Pages(s)
      case Put(n) => First(Touch(recent, n.PageId), capacity)
  {
    var p := if op.Get? then op.page else op.node.PageId;
    HoldsInPages(s, p);
    TouchFirst(recent, capacity, p);
    if Holds(s, p) {
      PagesAfterErase(s, p);
      PagesWithFront(if op.Get? then NodeOf(s, p) else op.node, EraseNode(s, p));
    } else if op.Put? {
      var kept := if |s| == capacity then s[..capacity - 1] else s;
      PagesWithFront(op.node, kept);
      assert Pages(s[..|kept|]) == Pages(s)[..|kept|];
    }
  }

  lemma PagesWithFront(n: ReadNode, s: seq<ReadNode>)
    ensures Pages([n] + s) == [n.PageId] + Pages(s)
  {
  }

  /** After any operations the list is exactly the most recently used pages, as many as fit, in recency order. */
  lemma {:induction false} CacheIsMostRecent(ops: seq<Op>, capacity: nat)
    requires capacity > 0
    ensures Pages(Run(ops, capacity)) == First(Recency(Used(ops, capacity)), capacity)
  {
    if ops != [] {
      var n := |ops| - 1;
      CacheIsMostRecent(ops[..n], capacity);
      var uses := Used(ops[..n], capacity);
      RecencyIsDistinct(uses);
      StepTouches(Run(ops[..n], capacity), capacity, ops[n], Recency(uses));
      var p := if ops[n].Get? then ops[n].page else ops[n].node.PageId;
      assert Recency(uses + [p]) == Touch(Recency(uses), p) by {
        assert (uses + [p])[..|uses|] == uses;
      }
      assert Used(ops, capacity) == uses || Used(ops, capacity) == uses + [p];
    }
  }

  // ---------- the cache returns what was put last ----------

  /** The node last put for page `p`. */
  function LastPut(ops: seq<Op>, p: nat): Option<ReadNode> {
    if ops == [] then None
    else
      var op := ops[|ops| - 1];
      if op.Put? && op.node.PageId == p then Some(op.node) else LastPut(ops[..|ops| - 1], p)
  }

  lemma EraseKeepsOthers(s: seq<ReadNode>, p: nat)
    requires Distinct(Pages(s))
    ensures forall n :: n in EraseNode(s, p) ==> n in s && n.PageId != p
  {
    PagesAfterErase(s, p);
    EraseIsPart(s, p);
    forall n | n in EraseNode(s, p)
      ensures n.PageId != p
    {
      var e := EraseNode(s, p);
      var i :| 0 <= i < |e| && e[i] == n;
      assert Pages(e)[i] in Without(Pages(s), p);
    }
  }

  lemma {:induction false} EraseIsPart(s: seq<ReadNode>, p: nat)
    ensures forall n :: n in EraseNode(s, p) ==> n in s
  {
    if s != [] && s[0].PageId != p {
      EraseIsPart(s[1..], p);
    }
  }

  /** Every cached node is the one last put for its page. */
  lemma {:induction false} CacheIsCurrent(ops: seq<Op>, capacity: nat)
    requires capacity > 0
    ensures forall node :: node in Run(ops, capacity) ==> LastPut(ops, node.PageId) == Some(node)
  {
    if ops != [] {
      var n := |ops| - 1;
      var s := Run(ops[..n], capacity);
      CacheIsCurrent(ops[..n], capacity);
      CacheIsMostRecent(ops[..n], capacity);
      RecencyIsDistinct(Used(ops[..n], capacity));
      StepIsCurrent(s, capacity, ops[n]);
    }
  }

  lemma StepIsCurrent(s: seq<ReadNode>, capacity: nat, op: Op)
    requires capacity > 0 && Distinct(Pages(s))
    ensures forall n :: n in Step(s, capacity, op) ==>
      (op.Put? && n == op.node) || (n in s && (op.Put? ==> n.PageId != op.node.PageId))
  {
    var p := if op.Get? then op.page else op.node.PageId;
    EraseKeepsOthers(s, p);
    forall n | n in s && !Holds(s, p)
      ensures n.PageId != p
    {
      var i :| 0 <= i < |s| && s[i] == n;
    }
  }

  // ---------- inclusion ----------

  /** A reader that puts a page after missing it, or a plain put. */
  datatype Request = Read(node: ReadNode) | Write(node: ReadNode)

  function Serve(s: seq<ReadNode>, capacity: nat, request: Request): seq<ReadNode>
    requires capacity > 0
  {
    if request.Read? && Holds(s, request.node.PageId) then Step(s, capacity, Get(request.node.PageId))
    else Step(s, capacity, Put(request.node))
  }

  function ServeAll(requests: seq<Request>, capacity: nat): seq<ReadNode>
    requires capacity > 0
  {
    if requests == [] then []
    else Serve(ServeAll(requests[..|requests| - 1], capacity), capacity, requests[|requests| - 1])
  }

  function Asked(requests: seq<Request>): (r: seq<nat>)
    ensures |r| == |requests|
  {
    seq(|requests|, i requires 0 <= i < |requests| => requests[i].node.PageId)
  }

  lemma {:induction false} ServedIsMostRecent(requests: seq<Request>, capacity: nat)
    requires capacity > 0
    ensures Pages(ServeAll(requests, capacity)) == First(Recency(Asked(requests)), capacity)
  {
    if requests != [] {
      var n := |requests| - 1;
      ServedIsMostRecent(requests[..n], capacity);
      assert Asked(requests)[..n] == Asked(requests[..n]);
      var s, recent := ServeAll(requests[..n], capacity), Recency(Asked(requests[..n]));
      RecencyIsDistinct(Asked(requests[..n]));
      StepTouches(s, capacity, Put(requests[n].node), recent);
      StepTouches(s, capacity, Get(requests[n].node.PageId), recent);
    }
  }

  /** Serving the same requests, a smaller cache always holds the front part of what a larger one holds. */
  lemma SmallerIsIncluded(requests: seq<Request>, small: nat, large: nat)
    requires 0 < small <= large
    ensures Pages(ServeAll(requests, small)) == First(Pages(ServeAll(requests, large)), small)
    ensures forall p :: Holds(ServeAll(requests, small), p) ==> Holds(ServeAll(requests, large), p)
  {
    ServedIsMostRecent(requests, small);
    ServedIsMostRecent(requests, large);
    forall p | Holds(ServeAll(requests, small), p)
      ensures Holds(ServeAll(requests, large), p)
    {
      HoldsInPages(ServeAll(requests, small), p);
      HoldsInPages(ServeAll(requests, large), p);
    }
  }

  // ---------- the class ----------

  /** A list cell; iterators are cell numbers, which stay valid when other cells come and go. */
  datatype Cell = Cell(id: nat, node: ReadNode)

  function Nodes(cells: seq<Cell>): (s: seq<ReadNode>)
    ensures |s| == |cells| && forall i :: 0 <= i < |cells| ==> s[i] == cells[i].node
  {
    seq(|cells|, i requires 0 <= i < |cells| => cells[i].node)
  }

  function EraseCell(cells: seq<Cell>, id: nat): seq<Cell> {
    if cells == [] then [] else if cells[0].id == id then cells[1..] else [cells[0]] + EraseCell(cells[1..], id)
  }

  /** The map holds exactly the cells of the list, each under its page; no page twice. */
  ghost predicate Matches(cells: seq<Cell>, m: map<nat, nat>, next: nat) {
    && Apart(cells)
    && (forall i :: 0 <= i < |cells| ==> Entered(cells[i], m, next))
    && (forall p :: p in m ==> Holds(Nodes(cells), p))
  }

  ghost predicate Apart(cells: seq<Cell>) {
    forall i, j :: 0 <= i < j < |cells| ==> cells[i].id != cells[j].id && cells[i].node.PageId != cells[j].node.PageId
  }

  ghost predicate Entered(c: Cell, m: map<nat, nat>, next: nat) {
    c.id < next && c.node.PageId in m && m[c.node.PageId] == c.id
  }

  lemma {:induction false} EraseCellAt(cells: seq<Cell>, i: nat)
    requires i < |cells| && forall j :: 0 <= j < i ==> cells[j].id != cells[i].id
    ensures EraseCell(cells, cells[i].id) == cells[..i] + cells[i + 1..]
    decreases i
  {
    if i > 0 {
      EraseCellAt(cells[1..], i - 1);
      assert [cells[0]] + (cells[1..][..i - 1] + cells[1..][i..]) == cells[..i] + cells[i + 1..];
    }
  }

  lemma {:induction false} EraseNodeAt(s: seq<ReadNode>, i: nat)
    requires i < |s| && forall j :: 0 <= j < i ==> s[j].PageId != s[i].PageId
    ensures EraseNode(s, s[i].PageId) == s[..i] + s[i + 1..]
    decreases i
  {
    if i > 0 {
      EraseNodeAt(s[1..], i - 1);
      assert [s[0]] + (s[1..][..i - 1] + s[1..][i..]) == s[..i] + s[i + 1..];
    }
  }

  lemma ApartWithout(cells: seq<Cell>, i: nat)
    requires Apart(cells) && i < |cells|
    ensures var e := cells[..i] + cells[i + 1..];
      Apart(e) && forall j :: 0 <= j < |e| ==> e[j] in cells && e[j].node.PageId != cells[i].node.PageId
  {
    var e := cells[..i] + cells[i + 1..];
    assert forall j :: 0 <= j < |e| ==> e[j] == cells[if j < i then j else j + 1];
  }

  lemma HoldsWithout(cells: seq<Cell>, i: nat, q: nat)
    requires i < |cells| && Holds(Nodes(cells), q) && q != cells[i].node.PageId
    ensures Holds(Nodes(cells[..i] + cells[i + 1..]), q)
  {
    var e := cells[..i] + cells[i + 1..];
    var k :| 0 <= k < |cells| && Nodes(cells)[k].PageId == q;
    var j := if k < i then k else k - 1;
    assert e[j] == cells[k] && Nodes(e)[j].PageId == q;
  }

  /** Cell `i` and its map entry taken away. */
  lemma MatchesWithout(cells: seq<Cell>, m: map<nat, nat>, next: nat, i: nat)
    requires Matches(cells, m, next) && i < |cells|
    ensures Matches(cells[..i] + cells[i + 1..], m - {cells[i].node.PageId}, next)
  {
    var e, m' := cells[..i] + cells[i + 1..], m - {cells[i].node.PageId};
    ApartWithout(cells, i);
    forall j | 0 <= j < |e|
      ensures Entered(e[j], m', next)
    {
      var k :| 0 <= k < |cells| && cells[k] == e[j];
      assert Entered(cells[k], m, next);
    }
    forall q | q in m'
      ensures Holds(Nodes(e), q)
    {
      HoldsWithout(cells, i, q);
    }
  }

  lemma FindCell(cells: seq<Cell>, m: map<nat, nat>, next: nat, p: nat) returns (i: nat)
    requires Matches(cells, m, next) && p in m
    ensures i < |cells| && cells[i].node.PageId == p && cells[i].id == m[p]
    ensures forall j :: 0 <= j < i ==> cells[j].id != m[p] && cells[j].node.PageId != p
  {
    i :| 0 <= i < |cells| && Nodes(cells)[i].PageId == p;
    assert Entered(cells[i], m, next);
  }

  /** Erasing through the map's iterator erases the page's node. */
  lemma EraseByIterator(cells: seq<Cell>, m: map<nat, nat>, next: nat, p: nat)
    requires Matches(cells, m, next) && p in m
    ensures var e := EraseCell(cells, m[p]);
      Nodes(e) == EraseNode(Nodes(cells), p) && |e| == |cells| - 1 && Matches(e, m - {p}, next)
  {
    var i := FindCell(cells, m, next, p);
    EraseCellAt(cells, i);
    EraseNodeAt(Nodes(cells), i);
    MatchesWithout(cells, m, next, i);
    NodesWithout(cells, i);
  }

  lemma NodesWithout(cells: seq<Cell>, i: nat)
    requires i < |cells|
    ensures Nodes(cells[..i] + cells[i + 1..]) == Nodes(cells)[..i] + Nodes(cells)[i + 1..]
  {
  }

  lemma HoldsWithFront(c: Cell, cells: seq<Cell>, q: nat)
    requires q == c.node.PageId || Holds(Nodes(cells), q)
    ensures Holds(Nodes([c] + cells), q)
  {
    if q == c.node.PageId {
      assert Nodes([c] + cells)[0].PageId == q;
    } else {
      var k :| 0 <= k < |cells| && Nodes(cells)[k].PageId == q;
      assert Nodes([c] + cells)[k + 1].PageId == q;
    }
  }

  lemma ApartWithFront(c: Cell, cells: seq<Cell>)
    requires Apart(cells) && forall i :: 0 <= i < |cells| ==> cells[i].id != c.id && cells[i].node.PageId != c.node.PageId
    ensures Apart([c] + cells)
  {
    var all := [c] + cells;
    forall i, j | 0 <= i < j < |all|
      ensures all[i].id != all[j].id && all[i].node.PageId != all[j].node.PageId
    {
      assert all[j] == cells[j - 1];
      if i > 0 {
        assert all[i] == cells[i - 1];
      }
    }
  }

  lemma MatchesWithFront(cells: seq<Cell>, m: map<nat, nat>, next: nat, n: ReadNode)
    requires Matches(cells, m - {n.PageId}, next)
    ensures Matches([Cell(next, n)] + cells, m[n.PageId := next], next + 1)
    ensures Nodes([Cell(next, n)] + cells) == [n] + Nodes(cells)
  {
    var c, all, m' := Cell(next, n), [Cell(next, n)] + cells, m[n.PageId := next];
    forall j | 0 <= j < |cells|
      ensures Entered(cells[j], m', next + 1) && cells[j].id != next && cells[j].node.PageId != n.PageId
    {
      assert Entered(cells[j], m - {n.PageId}, next);
    }
    ApartWithFront(c, cells);
    forall j | 0 <= j < |all|
      ensures Entered(all[j], m', next + 1)
    {
      assert all[j] == if j == 0 then c else cells[j - 1];
    }
    forall q | q in m'
      ensures Holds(Nodes(all), q)
    {
      HoldsWithFront(c, cells, q);
    }
  }

  lemma {:induction false} FirstNode(s: seq<ReadNode>, i: nat)
    requires i < |s| && forall j :: 0 <= j < i ==> s[j].PageId != s[i].PageId
    ensures Holds(s, s[i].PageId) && NodeOf(s, s[i].PageId) == s[i]
    decreases i
  {
    if i > 0 {
      FirstNode(s[1..], i - 1);
    }
  }

  lemma MapHolds(cells: seq<Cell>, m: map<nat, nat>, next: nat, p: nat)
    requires Matches(cells, m, next)
    ensures p in m <==> Holds(Nodes(cells), p)
  {
    if Holds(Nodes(cells), p) {
      var i :| 0 <= i < |cells| && Nodes(cells)[i].PageId == p;
      assert Entered(cells[i], m, next);
    }
  }

  /** The cell that the map's iterator names. */
  function CellAt(cells: seq<Cell>, id: nat): (c: Cell)
    requires exists i :: 0 <= i < |cells| && cells[i].id == id
    ensures c in cells && c.id == id
  {
    if cells[0].id == id then cells[0]
    else
      assert exists i :: 0 <= i < |cells[1..]| && cells[1..][i].id == id by {
        var i :| 0 <= i < |cells| && cells[i].id == id;
        assert cells[1..][i - 1].id == id;
      }
      CellAt(cells[1..], id)
  }

  lemma IteratorFindsNode(cells: seq<Cell>, m: map<nat, nat>, next: nat, p: nat)
    requires Matches(cells, m, next) && p in m
    ensures exists i :: 0 <= i < |cells| && cells[i].id == m[p]
    ensures Holds(Nodes(cells), p) && CellAt(cells, m[p]).node == NodeOf(Nodes(cells), p)
  {
    var i := FindCell(cells, m, next, p);
    FirstNode(Nodes(cells), i);
    var c := CellAt(cells, m[p]);
    var k :| 0 <= k < |cells| && cells[k] == c;
    assert k == i;
  }

  class LRUCache {
    var capacity: nat
    var cache: seq<Cell>
    var HashMap: map<nat, nat>
    var next: nat                          // the number of the next list cell

    ghost predicate Valid()
      reads this
    {
      && capacity > 0 && |cache| <= capacity
      && Matches(cache, HashMap, next)
    }

    constructor (cap: nat)
      requires cap > 0
      ensures Valid() && capacity == cap && cache == []
    {
      capacity, cache, HashMap, next := cap, [], map[], 0;
    }

    predicate IsLRUPage(page: nat)
      reads this
    {
      page in HashMap
    }

    method get(page: nat) returns (data: Option<nat>)
      requires Valid()
      modifies this`cache, this`HashMap, this`next
      ensures Valid() && Nodes(cache) == Step(Nodes(old(cache)), capacity, Get(page))
      ensures data == if Holds(Nodes(old(cache)), page) then Some(NodeOf(Nodes(old(cache)), page).data) else None
    {
      MapHolds(cache, HashMap, next, page);
      if !IsLRUPage(page) {
        return None;
      }
      IteratorFindsNode(cache, HashMap, next, page);
      var temp := CellAt(cache, HashMap[page]).node;
      EraseByIterator(cache, HashMap, next, page);
      cache := EraseCell(cache, HashMap[page]);
      PushFront(page, temp);
      return Some(temp.data);
    }

    /** The node that belongs to `page`, put into the front cell and entered in the map. */
    method PushFront(page: nat, node: ReadNode)
      requires |cache| < capacity && node.PageId == page && Matches(cache, HashMap - {page}, next)
      modifies this`cache, this`HashMap, this`next
      ensures Valid() && Nodes(cache) == [node] + Nodes(old(cache))
    {
      MatchesWithFront(cache, HashMap, next, node);
      cache := [Cell(next, node)] + cache;
      HashMap := HashMap[page := next];
      next := next + 1;
    }

    /** Drops the page at the back. */
    method PopBack()
      requires Valid() && |cache| > 0
      modifies this`cache, this`HashMap
      ensures Valid() && Nodes(cache) == Nodes(old(cache))[..|old(cache)| - 1]
      ensures HashMap.Keys <= old(HashMap).Keys
    {
      var n := |cache| - 1;
      var lastKey := cache[n].node.PageId;
      MatchesWithout(cache, HashMap, next, n);
      assert cache[..n] + cache[n + 1..] == cache[..n];
      HashMap := HashMap - {lastKey};
      cache := cache[..n];
    }

    method put(page: nat, node: ReadNode)
      requires Valid() && node.PageId == page
      modifies this`cache, this`HashMap, this`next
      ensures Valid() && Nodes(cache) == Step(Nodes(old(cache)), capacity, Put(node))
    {
      MapHolds(cache, HashMap, next, page);
      if !IsLRUPage(page) {
        if |cache| == capacity {
          PopBack();
        }
        assert HashMap - {page} == HashMap;
        PushFront(page, node);
      } else {
        EraseByIterator(cache, HashMap, next, page);
        cache := EraseCell(cache, HashMap[page]);
        PushFront(page, node);
      }
    }

    method ClearaReset(cap: nat)
      requires cap > 0
      modifies this
      ensures Valid() && capacity == cap && cache == []
    {
      HashMap, cache, capacity := map[], [], cap;
    }
  }
}
