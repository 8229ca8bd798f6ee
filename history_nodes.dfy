/**
 * History nodes.  The game record is a tree of nodes; each node keeps a
 * back-reference to its parent (`prev`), its children in order (`nexts`),
 * the child a redo goes to (`lastVisited`), the move it records (`pos`:
 * a point, pass, resign or NPOS for a setup node), the ko point after the
 * move, the payload that undoes the move, an optional setup difference,
 * a comment and a property table.
 *
 * The nodes live in an arena: a sequence indexed by node number, node 0
 * being the root, with -1 standing for "no node" (the program's null).
 * The queries below walk that arena the way the program walks its linked
 * nodes.
 */
module HistoryNodes {
  import opened Stones
  import opened Wrappers
  import opened Strings
  import opened Changes
  import opened Diffs
  import opened SgfPoints
  import Seqs

  datatype Property = Property(value: string, inherit: bool)

  datatype Node = Node(
    prev: int, nexts: seq<int>, lastVisited: int,
    pos: int, koPosNew: int,
    boardUndo: Option<BoardChanges>,
    setup: Option<BoardDiff>,
    comment: Option<string>,
    props: Option<map<string, Property>>)
  {
    predicate IsPass() { pos == POS_PASS }
    predicate IsResign() { pos == POS_RESIGN }
    predicate IsPlace() { IsIntersectionPosition(pos) }
    predicate IsMove() { IsPlace() || IsPass() }
    /** Neither a move nor a resignation: a node that only sets stones up (siblings may share it). */
    predicate IsSetup() { pos == NPOS }
    predicate IsRoot() { prev < 0 }

    predicate HasComment() { comment.Some? }

    /** Takes `child` out of the children; a redo target that was `child` moves to the first remaining child. */
    function DeleteNext(child: int): (r: Node)
      ensures r.prev == prev && r.pos == pos && r.koPosNew == koPosNew && r.boardUndo == boardUndo
      ensures r.setup == setup && r.comment == comment && r.props == props
      ensures child !in nexts ==> r == this
      ensures child in nexts ==>
        && multiset(r.nexts) == multiset(nexts) - multiset{child}
        && (exists i :: 0 <= i < |nexts| && nexts[i] == child && r.nexts == nexts[..i] + nexts[i + 1..])
        && r.lastVisited == (if lastVisited != child then lastVisited else if |r.nexts| == 0 then -1 else r.nexts[0])
    {
      var index := IndexOf(nexts, child);
      if index < 0 then this
      else
        var rest := nexts[..index] + nexts[index + 1..];
        assert nexts == nexts[..index] + [child] + nexts[index + 1..];
        this.(nexts := rest,
              lastVisited := if lastVisited == child then (if |rest| == 0 then -1 else rest[0]) else lastVisited)
    }

    /**
     * Moves `child` by `delta` places among its siblings, clamped to the
     * first and last place; a node that is not a child changes nothing.
     */
    function ChangeNextOrder(child: int, delta: int): (r: Node)
      ensures r.prev == prev && r.lastVisited == lastVisited && r.pos == pos && r.koPosNew == koPosNew
      ensures r.boardUndo == boardUndo && r.setup == setup && r.comment == comment && r.props == props
      ensures child !in nexts ==> r == this
      ensures child in nexts ==>
        r.nexts == MoveEntry(nexts, IndexOf(nexts, child), Clamp(IndexOf(nexts, child) + delta, 0, |nexts| - 1))
      ensures child in nexts ==> |r.nexts| == |nexts| && r.nexts[Clamp(IndexOf(nexts, child) + delta, 0, |nexts| - 1)] == child
    {
      var index := IndexOf(nexts, child);
      if index < 0 then this
      else
        var newIndex := Clamp(index + delta, 0, |nexts| - 1);
        this.(nexts := MoveEntry(nexts, index, newIndex))
    }

    /** Sets property `id`, creating the table if the node had none. */
    function AddProperty(id: string, value: string, inherit: bool): (r: Node)
      ensures r.props.Some? && id in r.props.value && r.props.value[id] == Property(value, inherit)
      ensures forall k :: k != id ==> (k in r.props.value <==> props.Some? && k in props.value)
      ensures forall k :: k != id && k in r.props.value ==> r.props.value[k] == props.value[k]
      ensures r.(props := props) == this
    {
      var table := if props.Some? then props.value else map[];
      this.(props := Some(table[id := Property(value, inherit)]))
    }

    /** Drops property `id` from the table, if there is a table. */
    function RemoveProperty(id: string): (r: Node)
      ensures props.None? ==> r == this
      ensures props.Some? ==> r.props.Some? && r.props.value.Keys == props.value.Keys - {id}
      ensures props.Some? ==> forall k :: k in r.props.value ==> r.props.value[k] == props.value[k]
      ensures r.(props := props) == this
    {
      if props.Some? then this.(props := Some(props.value - {id})) else this
    }

    /** The node's own property `id`, added with `defaultValue` (not inherited) when it is missing. */
    function AcquireProperty(id: string, defaultValue: string): (r: (Node, Property))
      ensures props.Some? && id in props.value ==> r == (this, props.value[id])
      ensures !(props.Some? && id in props.value) ==>
        r.1 == Property(defaultValue, false) && r.0 == AddProperty(id, defaultValue, false)
    {
      if props.Some? && id in props.value then (this, props.value[id])
      else (AddProperty(id, defaultValue, false), Property(defaultValue, false))
    }
  }

  /** A fresh node under `prev`: no children, no redo target, no comment, properties or setup. */
  function NewNode(prev: int, pos: int, koPosNew: int, boardUndo: Option<BoardChanges>): Node {
    Node(prev, [], -1, pos, koPosNew, boardUndo, None, None, None)
  }

  /** `s` is `s` without entry `i`, plus that entry. */
  lemma TakeOut(s: seq<int>, i: int)
    requires 0 <= i < |s|
    ensures multiset(s) == multiset(s[..i] + s[i + 1..]) + multiset{s[i]}
  {
    assert s == s[..i] + [s[i]] + s[i + 1..];
  }

  /** Inserting `x` at place `i` of `s`: `x` is found there and taking it out again gives `s`. */
  lemma PutIn(s: seq<int>, i: int, x: int)
    requires 0 <= i <= |s|
    ensures var r := s[..i] + [x] + s[i..];
      && |r| == |s| + 1 && r[i] == x && r[..i] + r[i + 1..] == s
      && multiset(r) == multiset(s) + multiset{x}
  {
    var r := s[..i] + [x] + s[i..];
    assert r[..i] == s[..i];
    assert r[i + 1..] == s[i..];
    assert s == s[..i] + s[i..];
  }

  /** `s` with entry `index` taken out and put back in at place `newIndex`. */
  function MoveEntry(s: seq<int>, index: int, newIndex: int): (r: seq<int>)
    requires 0 <= index < |s| && 0 <= newIndex < |s|
    ensures |r| == |s| && r[newIndex] == s[index]
    ensures r[..newIndex] + r[newIndex + 1..] == s[..index] + s[index + 1..]
    ensures multiset(r) == multiset(s)
  {
    var rest := s[..index] + s[index + 1..];
    TakeOut(s, index);
    PutIn(rest, newIndex, s[index]);
    rest[..newIndex] + [s[index]] + rest[newIndex..]
  }

  function Clamp(x: int, lo: int, hi: int): int {
    if x < lo then lo else if x > hi then hi else x
  }

  /** The first index of `x` in `s`, or -1 when `x` is absent. */
  function IndexOf(s: seq<int>, x: int): (r: int)
    ensures -1 <= r < |s|
    ensures r == -1 <==> x !in s
    ensures r >= 0 ==> s[r] == x && x !in s[..r]
  {
    if s == [] then -1
    else if s[0] == x then 0
    else
      var r := IndexOf(s[1..], x);
      assert s[1..][..if r < 0 then 0 else r] == s[1..if r < 0 then 1 else r + 1];
      if r < 0 then -1 else r + 1
  }

  // ----- the shape of the arena -----

  /** The root is node 0 and every other node's parent has a smaller number. */
  ghost predicate Ordered(nodes: seq<Node>) {
    && |nodes| >= 1 && nodes[0].prev == -1
    && forall i :: 0 < i < |nodes| ==> 0 <= nodes[i].prev < i
  }

  /**
   * Node `i`'s links agree with the tree: each child is a node whose
   * parent is `i`, children are distinct, two children share a position
   * only when both are setup nodes, and the redo target is a child or -1.
   */
  ghost predicate NodeLinked(nodes: seq<Node>, i: int)
    requires 0 <= i < |nodes|
  {
    var n := nodes[i];
    && (forall k :: 0 <= k < |n.nexts| ==> 0 <= n.nexts[k] < |nodes| && nodes[n.nexts[k]].prev == i)
    && (forall k, l :: 0 <= k < l < |n.nexts| ==> n.nexts[k] != n.nexts[l])
    && (forall x, y :: x in n.nexts && y in n.nexts && x != y && nodes[x].pos == nodes[y].pos ==> nodes[x].pos == NPOS)
    && (n.lastVisited == -1 || n.lastVisited in n.nexts)
  }

  ghost predicate Linked(nodes: seq<Node>) {
    && Ordered(nodes) && nodes[0].pos == NPOS
    && (forall i, x :: 0 <= i < |nodes| && x in nodes[i].nexts ==> 0 < x < |nodes|)
    && forall i :: 0 <= i < |nodes| ==> NodeLinked(nodes, i)
  }

  /** Every node from `n` up to the root is listed among its parent's children. */
  ghost predicate Attached(nodes: seq<Node>, n: int)
    requires Ordered(nodes) && 0 <= n < |nodes|
    decreases n
  {
    nodes[n].prev < 0 || (n in nodes[nodes[n].prev].nexts && Attached(nodes, nodes[n].prev))
  }

  /** The number of parent links from `n` to the root. */
  ghost function Depth(nodes: seq<Node>, n: int): (d: nat)
    requires Ordered(nodes) && 0 <= n < |nodes|
    ensures d <= n
    decreases n
  {
    if nodes[n].prev < 0 then 0 else 1 + Depth(nodes, nodes[n].prev)
  }

  /** The number of moves (placements and passes) on the line from the root to `m` (0 for no node). */
  ghost function MoveCount(nodes: seq<Node>, m: int): nat
    requires Ordered(nodes) && -1 <= m < |nodes|
    decreases m + 1
  {
    if m < 0 then 0 else (if nodes[m].IsMove() then 1 else 0) + MoveCount(nodes, nodes[m].prev)
  }

  /** The nearest move at or above `m`, skipping setup and resign nodes; -1 when there is none. */
  ghost function MoveAtOrAbove(nodes: seq<Node>, m: int): (r: int)
    requires Ordered(nodes) && -1 <= m < |nodes|
    ensures -1 <= r <= m
    ensures r >= 0 ==> nodes[r].IsMove()
    decreases m + 1
  {
    if m < 0 then -1 else if nodes[m].IsMove() then m else MoveAtOrAbove(nodes, nodes[m].prev)
  }

  /** The move before `n` on the line from the root, skipping setup nodes. */
  ghost function PreviousMove(nodes: seq<Node>, n: int): int
    requires Ordered(nodes) && 0 <= n < |nodes|
  {
    MoveAtOrAbove(nodes, nodes[n].prev)
  }

  /** `n` is a pass and the move before it is a pass too: the game ends there. */
  ghost predicate SecondConsecutivePass(nodes: seq<Node>, n: int)
    requires Ordered(nodes) && 0 <= n < |nodes|
  {
    nodes[n].IsPass() && PreviousMove(nodes, n) >= 0 && nodes[PreviousMove(nodes, n)].IsPass()
  }

  /** `a` is `m` or lies on the parent chain above it (never for m = -1). */
  ghost predicate IsAncestor(nodes: seq<Node>, a: int, m: int)
    requires Ordered(nodes) && -1 <= m < |nodes|
    decreases m + 1
  {
    m >= 0 && (m == a || IsAncestor(nodes, a, nodes[m].prev))
  }

  // ----- what survives an update of the arena -----

  /**
   * `b` keeps what `a` says about `n` and its ancestors: the parent and
   * position of every node up to `n`, and the children of every node
   * below `n` (more may be added).
   */
  ghost predicate Keeps(a: seq<Node>, b: seq<Node>, n: int) {
    && 0 <= n < |a| <= |b|
    && (forall i :: 0 <= i <= n ==> b[i].prev == a[i].prev && b[i].pos == a[i].pos)
    && (forall i, x :: 0 <= i < n && x in a[i].nexts ==> x in b[i].nexts)
  }

  lemma {:induction false} KeepsPath(a: seq<Node>, b: seq<Node>, n: int)
    requires Ordered(a) && Ordered(b) && Keeps(a, b, n)
    ensures Depth(a, n) == Depth(b, n) && MoveCount(a, n) == MoveCount(b, n)
    ensures MoveAtOrAbove(a, n) == MoveAtOrAbove(b, n)
    ensures Attached(a, n) ==> Attached(b, n)
    ensures forall x :: IsAncestor(a, x, n) <==> IsAncestor(b, x, n)
    decreases n
  {
    if a[n].prev >= 0 {
      KeepsPath(a, b, a[n].prev);
    }
  }

  lemma KeepsPass(a: seq<Node>, b: seq<Node>, n: int)
    requires Ordered(a) && Ordered(b) && Keeps(a, b, n)
    ensures SecondConsecutivePass(a, n) == SecondConsecutivePass(b, n)
  {
    if a[n].prev >= 0 {
      KeepsPath(a, b, a[n].prev);
    }
  }

  /** Only the root has no parent, and ancestors are told apart by their depth. */
  lemma {:induction false} AncestorByDepth(nodes: seq<Node>, a: int, b: int, x: int)
    requires Ordered(nodes) && 0 <= x < |nodes|
    requires IsAncestor(nodes, a, x) && IsAncestor(nodes, b, x)
    ensures 0 <= a < |nodes| && 0 <= b < |nodes|
    ensures Depth(nodes, a) == Depth(nodes, b) ==> a == b
    decreases x
  {
    if a != x || b != x {
      AncestorBelow(nodes, a, x);
      AncestorBelow(nodes, b, x);
      if a != x && b != x {
        AncestorByDepth(nodes, a, b, nodes[x].prev);
      }
    }
  }

  /** An ancestor of `x` other than `x` is an ancestor of its parent, with a smaller depth. */
  lemma {:induction false} AncestorBelow(nodes: seq<Node>, a: int, x: int)
    requires Ordered(nodes) && 0 <= x < |nodes| && IsAncestor(nodes, a, x)
    ensures 0 <= a <= x && Depth(nodes, a) <= Depth(nodes, x)
    ensures a != x ==> nodes[x].prev >= 0 && IsAncestor(nodes, a, nodes[x].prev) && Depth(nodes, a) < Depth(nodes, x)
    decreases x
  {
    if a != x {
      AncestorBelow(nodes, a, nodes[x].prev);
    }
  }

  /** The parent chain of any node ends at the root. */
  lemma {:induction false} RootIsAncestor(nodes: seq<Node>, n: int)
    requires Ordered(nodes) && 0 <= n < |nodes|
    ensures IsAncestor(nodes, 0, n)
    decreases n
  {
    if n != 0 {
      RootIsAncestor(nodes, nodes[n].prev);
    }
  }

  // ----- children -----

  /** The place in `list` of the first node whose position is `pos`, or -1. */
  function FirstWithPos(nodes: seq<Node>, list: seq<int>, pos: int): (k: int)
    requires forall i :: 0 <= i < |list| ==> 0 <= list[i] < |nodes|
    ensures -1 <= k < |list|
    ensures k >= 0 ==> nodes[list[k]].pos == pos && forall j :: 0 <= j < k ==> nodes[list[j]].pos != pos
    ensures k < 0 ==> forall j :: 0 <= j < |list| ==> nodes[list[j]].pos != pos
    decreases |list|
  {
    if list == [] then -1
    else if nodes[list[0]].pos == pos then 0
    else
      var k := FirstWithPos(nodes, list[1..], pos);
      if k < 0 then -1 else k + 1
  }

  /** The first child of `n` recording `pos`, or -1. */
  function FindNextByPos(nodes: seq<Node>, n: int, pos: int): (r: int)
    requires Linked(nodes) && 0 <= n < |nodes|
    ensures r >= 0 ==> r in nodes[n].nexts && nodes[r].pos == pos
    ensures r < 0 <==> forall c :: c in nodes[n].nexts ==> nodes[c].pos != pos
  {
    assert NodeLinked(nodes, n);
    var k := FirstWithPos(nodes, nodes[n].nexts, pos);
    if k < 0 then -1 else nodes[n].nexts[k]
  }

  /** A move or resignation has at most one node under a given parent, so it is the one the search finds. */
  lemma FindsTheChild(nodes: seq<Node>, n: int, c: int)
    requires Linked(nodes) && 0 <= n < |nodes| && c in nodes[n].nexts && nodes[c].pos != NPOS
    ensures FindNextByPos(nodes, n, nodes[c].pos) == c
  {
    assert NodeLinked(nodes, n);
    var list := nodes[n].nexts;
    var i :| 0 <= i < |list| && list[i] == c;
  }

  /** A child has a larger number than its parent. */
  lemma ChildAbove(nodes: seq<Node>, n: int, c: int)
    requires Linked(nodes) && 0 <= n < |nodes| && c in nodes[n].nexts
    ensures n < c < |nodes| && nodes[c].prev == n
    ensures Depth(nodes, c) == Depth(nodes, n) + 1 && IsAncestor(nodes, n, c)
  {
    assert NodeLinked(nodes, n);
  }

  // ----- paths -----

  /**
   * The child indices that lead from the root to `n`; with `forkOnly`,
   * only those taken at nodes with two or more children.
   */
  ghost function PathFromRoot(nodes: seq<Node>, n: int, forkOnly: bool): (r: seq<int>)
    requires Ordered(nodes) && 0 <= n < |nodes|
    ensures !forkOnly ==> |r| == Depth(nodes, n)
    decreases n
  {
    if nodes[n].prev < 0 then []
    else
      var p := nodes[n].prev;
      PathFromRoot(nodes, p, forkOnly) + (if !forkOnly || |nodes[p].nexts| >= 2 then [IndexOf(nodes[p].nexts, n)] else [])
  }

  /**
   * Follows `dirs` down from `m`; with `forkOnly`, a node with fewer than
   * two children is passed through its first child without using a
   * direction.  -1 when a direction names no child.
   */
  ghost function FindByPathFrom(nodes: seq<Node>, m: int, dirs: seq<int>, forkOnly: bool): (r: int)
    requires Linked(nodes) && 0 <= m < |nodes|
    ensures r >= 0 ==> r < |nodes| && IsAncestor(nodes, m, r)
    decreases |dirs|, |nodes| - m
  {
    if dirs == [] then m
    else
      var nexts := nodes[m].nexts;
      if !forkOnly || |nexts| >= 2 then
        if dirs[0] >= |nexts| || dirs[0] < 0 then -1
        else
          ChildAbove(nodes, m, nexts[dirs[0]]);
          var r := FindByPathFrom(nodes, nexts[dirs[0]], dirs[1..], forkOnly);
          if r >= 0 then AncestorTrans(nodes, m, nexts[dirs[0]], r); r else r
      else if |nexts| == 0 then -1
      else
        ChildAbove(nodes, m, nexts[0]);
        var r := FindByPathFrom(nodes, nexts[0], dirs, forkOnly);
        if r >= 0 then AncestorTrans(nodes, m, nexts[0], r); r else r
  }

  lemma {:induction false} AncestorTrans(nodes: seq<Node>, a: int, b: int, c: int)
    requires Ordered(nodes) && 0 <= b < |nodes| && 0 <= c < |nodes|
    requires IsAncestor(nodes, a, b) && IsAncestor(nodes, b, c)
    ensures IsAncestor(nodes, a, c)
    decreases c
  {
    if b != c {
      AncestorTrans(nodes, a, b, nodes[c].prev);
    }
  }

  /** Following a concatenation of directions is following the first part, then the second. */
  lemma {:induction false} FindByPathConcat(nodes: seq<Node>, m: int, a: seq<int>, b: seq<int>)
    requires Linked(nodes) && 0 <= m < |nodes|
    ensures FindByPathFrom(nodes, m, a + b, false) ==
      (var x := FindByPathFrom(nodes, m, a, false); if x < 0 then -1 else FindByPathFrom(nodes, x, b, false))
    decreases |a|
  {
    if a == [] {
      assert a + b == b;
    } else {
      assert (a + b)[0] == a[0] && (a + b)[1..] == a[1..] + b;
      var nexts := nodes[m].nexts;
      if 0 <= a[0] < |nexts| {
        ChildAbove(nodes, m, nexts[a[0]]);
        FindByPathConcat(nodes, nexts[a[0]], a[1..], b);
      }
    }
  }

  /** The full path from the root leads back to the node (for a node still attached to the tree). */
  lemma {:induction false} PathRoundTrip(nodes: seq<Node>, n: int)
    requires Linked(nodes) && 0 <= n < |nodes| && Attached(nodes, n)
    ensures FindByPathFrom(nodes, 0, PathFromRoot(nodes, n, false), false) == n
    decreases n
  {
    if nodes[n].prev >= 0 {
      var p := nodes[n].prev;
      PathRoundTrip(nodes, p);
      var i := IndexOf(nodes[p].nexts, n);
      FindByPathConcat(nodes, 0, PathFromRoot(nodes, p, false), [i]);
      ChildAbove(nodes, p, n);
      assert [i][1..] == [];
    }
  }

  // ----- stepping along the line -----

  /** Up to `k` steps towards the root from `m`: the node reached and the steps left over. */
  ghost function NthPrevWalk(nodes: seq<Node>, m: int, k: int): (r: (int, int))
    requires Ordered(nodes) && 0 <= m < |nodes|
    ensures 0 <= r.0 < |nodes| && IsAncestor(nodes, r.0, m)
    ensures k <= 0 ==> r == (m, k)
    ensures k > 0 ==> r.1 == (if k <= Depth(nodes, m) then 0 else k - Depth(nodes, m))
    ensures k > 0 ==> Depth(nodes, r.0) == (if k <= Depth(nodes, m) then Depth(nodes, m) - k else 0)
    decreases m
  {
    if k > 0 && nodes[m].prev >= 0 then
      var r := NthPrevWalk(nodes, nodes[m].prev, k - 1);
      AncestorTrans(nodes, r.0, nodes[m].prev, m);
      r
    else (m, k)
  }

  /** Up to `k` steps down the first children from `m`: the node reached and the steps left over. */
  ghost function NthNextWalk(nodes: seq<Node>, m: int, k: int): (r: (int, int))
    requires Linked(nodes) && 0 <= m < |nodes|
    ensures 0 <= r.0 < |nodes| && IsAncestor(nodes, m, r.0)
    ensures k <= 0 ==> r == (m, k)
    ensures k > 0 ==> 0 <= r.1 <= k && Depth(nodes, r.0) == Depth(nodes, m) + (k - r.1)
    ensures r.1 > 0 ==> |nodes[r.0].nexts| == 0
    decreases if k > 0 then k else 0
  {
    if k > 0 && |nodes[m].nexts| > 0 then
      ChildAbove(nodes, m, nodes[m].nexts[0]);
      var r := NthNextWalk(nodes, nodes[m].nexts[0], k - 1);
      AncestorTrans(nodes, m, nodes[m].nexts[0], r.0);
      r
    else (m, k)
  }

  /** The node `k` steps above `m`: -1 if the root is reached first, unless `clamp` stops there. */
  ghost function NthPrev(nodes: seq<Node>, m: int, k: int, clamp: bool): int
    requires Ordered(nodes) && 0 <= m < |nodes|
  {
    var r := NthPrevWalk(nodes, m, k);
    if r.1 > 0 && !clamp then -1 else r.0
  }

  /** The node `k` steps down the first children from `m`: -1 if a leaf comes first, unless `clamp` stops there. */
  ghost function NthNext(nodes: seq<Node>, m: int, k: int, clamp: bool): int
    requires Linked(nodes) && 0 <= m < |nodes|
  {
    var r := NthNextWalk(nodes, m, k);
    if r.1 > 0 && !clamp then -1 else r.0
  }

  /** `k` steps forward (first children) when `k` is not negative, `-k` steps back otherwise. */
  ghost function Nth(nodes: seq<Node>, m: int, k: int, clamp: bool): int
    requires Linked(nodes) && 0 <= m < |nodes|
  {
    if k >= 0 then NthNext(nodes, m, k, clamp) else NthPrev(nodes, m, -k, clamp)
  }

  /** Going `k` steps forward and then `k` steps back returns to the start. */
  lemma NthNextThenPrev(nodes: seq<Node>, m: int, k: int)
    requires Linked(nodes) && 0 <= m < |nodes| && k >= 0 && NthNext(nodes, m, k, false) >= 0
    ensures NthPrev(nodes, NthNext(nodes, m, k, false), k, false) == m
  {
    var x := NthNext(nodes, m, k, false);
    if k > 0 {
      var y := NthPrev(nodes, x, k, false);
      AncestorBelow(nodes, m, x);
      AncestorByDepth(nodes, m, y, x);
    }
  }

  /** With clamping, stepping always lands on a node; `k` steps back land at depth `Depth - k`, or on the root. */
  lemma ClampedNthLands(nodes: seq<Node>, m: int, k: int)
    requires Linked(nodes) && 0 <= m < |nodes|
    ensures 0 <= Nth(nodes, m, k, true) < |nodes|
    ensures k < 0 ==> Depth(nodes, Nth(nodes, m, k, true)) == if -k <= Depth(nodes, m) then Depth(nodes, m) + k else 0
    ensures k < 0 && -k > Depth(nodes, m) ==> Nth(nodes, m, k, true) == 0
  {
    if k < 0 && -k > Depth(nodes, m) {
      var r := NthPrev(nodes, m, -k, true);
      RootIsAncestor(nodes, m);
      AncestorByDepth(nodes, 0, r, m);
    }
  }

  // ----- forks -----

  /** The first node with two or more children down the first children from `m`, or -1 at a leaf. */
  ghost function NextFork(nodes: seq<Node>, m: int): (r: int)
    requires Linked(nodes) && 0 <= m < |nodes|
    ensures r >= 0 ==> r < |nodes| && IsAncestor(nodes, m, r) && |nodes[r].nexts| >= 2
    decreases |nodes| - m
  {
    if |nodes[m].nexts| == 0 then -1
    else if |nodes[m].nexts| > 1 then m
    else
      ChildAbove(nodes, m, nodes[m].nexts[0]);
      var r := NextFork(nodes, nodes[m].nexts[0]);
      if r >= 0 then AncestorTrans(nodes, m, nodes[m].nexts[0], r); r else r
  }

  /** Down the first children from `m` to the first node without exactly one child. */
  ghost function FirstForkOrLast(nodes: seq<Node>, m: int): (r: int)
    requires Linked(nodes) && 0 <= m < |nodes|
    ensures 0 <= r < |nodes| && IsAncestor(nodes, m, r) && |nodes[r].nexts| != 1
    decreases |nodes| - m
  {
    if |nodes[m].nexts| == 1 then
      ChildAbove(nodes, m, nodes[m].nexts[0]);
      var r := FirstForkOrLast(nodes, nodes[m].nexts[0]);
      AncestorTrans(nodes, m, nodes[m].nexts[0], r);
      r
    else m
  }

  /** The next fork is the first fork-or-leaf when that node is a fork, and none when it is a leaf. */
  lemma {:induction false} NextForkIsFirstFork(nodes: seq<Node>, m: int)
    requires Linked(nodes) && 0 <= m < |nodes|
    ensures NextFork(nodes, m) == if |nodes[FirstForkOrLast(nodes, m)].nexts| >= 2 then FirstForkOrLast(nodes, m) else -1
    decreases |nodes| - m
  {
    if |nodes[m].nexts| == 1 {
      ChildAbove(nodes, m, nodes[m].nexts[0]);
      NextForkIsFirstFork(nodes, nodes[m].nexts[0]);
    }
  }

  // ----- levels below a node -----

  /** The children of the nodes in `list`, in order. */
  ghost function Flatten(nodes: seq<Node>, list: seq<int>): (r: seq<int>)
    requires Linked(nodes) && forall i :: 0 <= i < |list| ==> 0 <= list[i] < |nodes|
    ensures forall c :: c in r ==> exists x :: x in list && c in nodes[x].nexts
    decreases |list|
  {
    if list == [] then []
    else
      var r0 := Flatten(nodes, list[..|list| - 1]);
      assert forall c :: c in r0 ==> exists x :: x in list[..|list| - 1] && c in nodes[x].nexts;
      r0 + nodes[list[|list| - 1]].nexts
  }

  /** The nodes `k` child links below `start`, in the order a breadth-first walk meets them. */
  ghost function Level(nodes: seq<Node>, start: int, k: nat): (r: seq<int>)
    requires Linked(nodes) && 0 <= start < |nodes|
    ensures forall i :: 0 <= i < |r| ==> 0 <= r[i] < |nodes|
    ensures forall x :: x in r ==> 0 <= x < |nodes| && IsAncestor(nodes, start, x) && Depth(nodes, x) == Depth(nodes, start) + k
  {
    if k == 0 then [start]
    else
      var above := Level(nodes, start, k - 1);
      var r := Flatten(nodes, above);
      forall c | c in r
        ensures 0 <= c < |nodes| && IsAncestor(nodes, start, c) && Depth(nodes, c) == Depth(nodes, start) + k
      {
        var x :| x in above && c in nodes[x].nexts;
        ChildAbove(nodes, x, c);
        AncestorTrans(nodes, start, x, c);
      }
      assert forall i :: 0 <= i < |r| ==> r[i] in r;
      r
  }

  /** A level lies within the arena, so levels end before depth `|nodes|`. */
  lemma LevelNonEmptyBound(nodes: seq<Node>, start: int, k: nat)
    requires Linked(nodes) && 0 <= start < |nodes| && Level(nodes, start, k) != []
    ensures Depth(nodes, start) + k < |nodes|
  {
    var x := Level(nodes, start, k)[0];
    assert x in Level(nodes, start, k);
  }

  /**
   * Level by level from level `k`, the first node recording `pos`; -1
   * when no level from `k` on has one.
   */
  ghost function BreadthFirst(nodes: seq<Node>, start: int, pos: int, k: nat): (r: int)
    requires Linked(nodes) && 0 <= start < |nodes|
    ensures -1 <= r < |nodes|
    decreases |nodes| - k
  {
    var level := Level(nodes, start, k);
    if level == [] then -1
    else
      LevelNonEmptyBound(nodes, start, k);
      var i := FirstWithPos(nodes, level, pos);
      if i >= 0 then level[i] else BreadthFirst(nodes, start, pos, k + 1)
  }

  /** One level of the breadth-first search: its first node recording `pos`, or else the search from the next level. */
  lemma BreadthFirstStep(nodes: seq<Node>, start: int, pos: int, k: nat)
    requires Linked(nodes) && 0 <= start < |nodes| && Level(nodes, start, k) != []
    ensures Level(nodes, start, k + 1) == Flatten(nodes, Level(nodes, start, k))
    ensures var i := FirstWithPos(nodes, Level(nodes, start, k), pos);
      BreadthFirst(nodes, start, pos, k) == if i >= 0 then Level(nodes, start, k)[i] else BreadthFirst(nodes, start, pos, k + 1)
  {
    LevelNonEmptyBound(nodes, start, k);
  }

  /** A child of a node in `list` is in the flattened list. */
  lemma {:induction false} FlattenHas(nodes: seq<Node>, list: seq<int>, x: int, c: int)
    requires Linked(nodes) && forall i :: 0 <= i < |list| ==> 0 <= list[i] < |nodes|
    requires x in list && c in nodes[x].nexts
    ensures c in Flatten(nodes, list)
    decreases |list|
  {
    if x != list[|list| - 1] {
      assert x in list[..|list| - 1];
      FlattenHas(nodes, list[..|list| - 1], x, c);
    }
  }

  /** A node reached from `start` through child links lies in the level of its depth. */
  lemma {:induction false} LevelHolds(nodes: seq<Node>, start: int, x: int)
    requires Linked(nodes) && 0 <= start < |nodes| && 0 <= x < |nodes|
    requires IsAncestor(nodes, start, x) && Attached(nodes, x)
    ensures Depth(nodes, start) <= Depth(nodes, x)
    ensures x in Level(nodes, start, Depth(nodes, x) - Depth(nodes, start))
    decreases x
  {
    AncestorBelow(nodes, start, x);
    if x != start {
      var p := nodes[x].prev;
      LevelHolds(nodes, start, p);
      ChildAbove(nodes, p, x);
      var k := Depth(nodes, p) - Depth(nodes, start);
      var above := Level(nodes, start, k);
      FlattenHas(nodes, above, p, x);
      assert Level(nodes, start, k + 1) == Flatten(nodes, above);
    }
  }

  /** An empty level is followed by empty levels only. */
  lemma {:induction false} LevelEmptyAfter(nodes: seq<Node>, start: int, k: nat, j: nat)
    requires Linked(nodes) && 0 <= start < |nodes| && Level(nodes, start, k) == [] && k <= j
    ensures Level(nodes, start, j) == []
    decreases j - k
  {
    if k < j {
      LevelEmptyAfter(nodes, start, k + 1, j);
    }
  }

  /** `r` records `pos`, lies below `start`, and no level from `k` above it has a node recording `pos`. */
  ghost predicate Shallowest(nodes: seq<Node>, start: int, pos: int, k: nat, r: int)
    requires Linked(nodes) && 0 <= start < |nodes|
  {
    && 0 <= r < |nodes| && nodes[r].pos == pos && IsAncestor(nodes, start, r)
    && Depth(nodes, start) + k <= Depth(nodes, r)
    && r in Level(nodes, start, Depth(nodes, r) - Depth(nodes, start))
    && (forall j: nat, x :: k <= j && Depth(nodes, start) + j < Depth(nodes, r) && x in Level(nodes, start, j) ==> nodes[x].pos != pos)
  }

  /** A node the search finds lies at the shallowest level from `k` that has a node recording `pos`. */
  lemma {:induction false} BreadthFirstFound(nodes: seq<Node>, start: int, pos: int, k: nat)
    requires Linked(nodes) && 0 <= start < |nodes| && BreadthFirst(nodes, start, pos, k) >= 0
    ensures Shallowest(nodes, start, pos, k, BreadthFirst(nodes, start, pos, k))
    decreases |nodes| - k
  {
    var level := Level(nodes, start, k);
    LevelNonEmptyBound(nodes, start, k);
    var i := FirstWithPos(nodes, level, pos);
    if i < 0 {
      BreadthFirstFound(nodes, start, pos, k + 1);
      NoneInLevel(nodes, level, pos);
      FoundLater(nodes, start, pos, k, BreadthFirst(nodes, start, pos, k + 1));
    } else {
      FoundHere(nodes, start, pos, k, i);
    }
  }

  lemma FoundHere(nodes: seq<Node>, start: int, pos: int, k: nat, i: int)
    requires Linked(nodes) && 0 <= start < |nodes| && 0 <= i < |Level(nodes, start, k)|
    requires nodes[Level(nodes, start, k)[i]].pos == pos
    ensures Shallowest(nodes, start, pos, k, Level(nodes, start, k)[i])
  {
    var level := Level(nodes, start, k);
    var r := level[i];
    assert r in level;
    var d := Depth(nodes, r) - Depth(nodes, start);
    assert d == k;
  }

  lemma FoundLater(nodes: seq<Node>, start: int, pos: int, k: nat, r: int)
    requires Linked(nodes) && 0 <= start < |nodes|
    requires Shallowest(nodes, start, pos, k + 1, r)
    requires forall x :: x in Level(nodes, start, k) ==> nodes[x].pos != pos
    ensures Shallowest(nodes, start, pos, k, r)
  {
    forall j: nat, x | k <= j && Depth(nodes, start) + j < Depth(nodes, r) && x in Level(nodes, start, j)
      ensures nodes[x].pos != pos
    {
    }
  }

  /** The search finds nothing only when no level from `k` on has a node recording `pos`. */
  lemma {:induction false} BreadthFirstNone(nodes: seq<Node>, start: int, pos: int, k: nat)
    requires Linked(nodes) && 0 <= start < |nodes| && BreadthFirst(nodes, start, pos, k) < 0
    ensures forall j: nat, x :: k <= j && x in Level(nodes, start, j) ==> nodes[x].pos != pos
    decreases |nodes| - k
  {
    var level := Level(nodes, start, k);
    if level == [] {
      forall j: nat | k <= j ensures Level(nodes, start, j) == [] {
        LevelEmptyAfter(nodes, start, k, j);
      }
    } else {
      LevelNonEmptyBound(nodes, start, k);
      BreadthFirstNone(nodes, start, pos, k + 1);
      NoneInLevel(nodes, level, pos);
      forall j: nat, x | k <= j && x in Level(nodes, start, j) ensures nodes[x].pos != pos {
        if j == k {
          assert x in level;
        }
      }
    }
  }

  lemma NoneInLevel(nodes: seq<Node>, level: seq<int>, pos: int)
    requires forall i :: 0 <= i < |level| ==> 0 <= level[i] < |nodes|
    requires FirstWithPos(nodes, level, pos) < 0
    ensures forall x :: x in level ==> nodes[x].pos != pos
  {
    forall x | x in level ensures nodes[x].pos != pos {
      var t :| 0 <= t < |level| && level[t] == x;
    }
  }

  /** No node reached from `start` through child links records `pos` when the search finds none. */
  lemma NotFoundAnywhere(nodes: seq<Node>, start: int, pos: int, x: int)
    requires Linked(nodes) && 0 <= start < |nodes| && 0 <= x < |nodes|
    requires IsAncestor(nodes, start, x) && Attached(nodes, x) && BreadthFirst(nodes, start, pos, 0) < 0
    ensures nodes[x].pos != pos
  {
    LevelHolds(nodes, start, x);
    BreadthFirstNone(nodes, start, pos, 0);
  }

  // ----- properties -----

  /**
   * Whether `id` is set: a node with a property table answers from its
   * own table; a node without one asks its parent when `inherit` is set.
   */
  function HasProperty(nodes: seq<Node>, m: int, id: string, inherit: bool): bool
    requires Ordered(nodes) && 0 <= m < |nodes|
    decreases m
  {
    if nodes[m].props.Some? then id in nodes[m].props.value
    else if inherit && nodes[m].prev >= 0 then HasProperty(nodes, nodes[m].prev, id, inherit)
    else false
  }

  /** The property `id`, looked up the same way; None where the program yields a missing value. */
  function GetProperty(nodes: seq<Node>, m: int, id: string, inherit: bool): (r: Option<Property>)
    requires Ordered(nodes) && 0 <= m < |nodes|
    ensures r.Some? <==> HasProperty(nodes, m, id, inherit)
    decreases m
  {
    if nodes[m].props.Some? then (if id in nodes[m].props.value then Some(nodes[m].props.value[id]) else None)
    else if inherit && nodes[m].prev >= 0 then GetProperty(nodes, nodes[m].prev, id, inherit)
    else None
  }

  /** A property just added is found, with the value and flag given, whether or not lookups inherit. */
  lemma AddedPropertyFound(nodes: seq<Node>, m: int, id: string, value: string, inherit: bool, lookupInherits: bool)
    requires Ordered(nodes) && 0 <= m < |nodes|
    ensures var after := nodes[m := nodes[m].AddProperty(id, value, inherit)];
      Ordered(after) && GetProperty(after, m, id, lookupInherits) == Some(Property(value, inherit))
  {
  }

  /** After removing `id` from a node that has a table, the node no longer has it, even with inheritance. */
  lemma RemovedPropertyGone(nodes: seq<Node>, m: int, id: string, lookupInherits: bool)
    requires Ordered(nodes) && 0 <= m < |nodes| && nodes[m].props.Some?
    ensures var after := nodes[m := nodes[m].RemoveProperty(id)];
      Ordered(after) && !HasProperty(after, m, id, lookupInherits)
  {
  }

  /** A node's own table, even an empty one, hides the parent's properties. */
  lemma OwnTableHidesParent(nodes: seq<Node>, m: int, id: string)
    requires Ordered(nodes) && 0 <= m < |nodes| && nodes[m].props.Some? && id !in nodes[m].props.value
    ensures !HasProperty(nodes, m, id, true)
  {
  }

  // ----- queries -----

  /** A step of a query: a move count (forward along first children, or back), or a text query. */
  datatype Query = MoveQuery(n: int) | TextQuery(s: string)

  predicate IsTwoLetters(s: string) {
    |s| == 2 && IsPointLetter(s[0]) && IsPointLetter(s[1])
  }

  /** A two-letter point query that names no point of a `w` by `h` board: the one query that fails. */
  predicate IsBadPointQuery(q: Query, w: int, h: int) {
    q.TextQuery? && IsTwoLetters(q.s) && ParseSGFMove(q.s, w, h).Failure?
  }

  /**
   * One query step from `curr`: a move count steps with clamping; two
   * letters name a point searched for breadth-first (staying put when it
   * is not found); one capital letter picks that child of the next fork
   * (staying put when there is none); "_" goes to the first fork or the
   * end of the line; any other text stays put.
   */
  ghost function QueryStep(nodes: seq<Node>, curr: int, q: Query, w: int, h: int): (r: Result<int>)
    requires Linked(nodes) && 0 <= curr < |nodes|
    ensures r.Failure? <==> IsBadPointQuery(q, w, h)
    ensures r.Success? ==> 0 <= r.value < |nodes|
    ensures r.Success? && q.TextQuery? && IsTwoLetters(q.s) && r.value != curr ==>
      nodes[r.value].pos == ParseSGFMove(q.s, w, h).value && IsAncestor(nodes, curr, r.value)
  {
    match q
    case MoveQuery(n) =>
      ClampedNthLands(nodes, curr, n);
      Success(Nth(nodes, curr, n, true))
    case TextQuery(s) =>
      if IsTwoLetters(s) then
        var pos :- ParseSGFMove(s, w, h);
        var target := BreadthFirst(nodes, curr, pos, 0);
        if target >= 0 then
          BreadthFirstFound(nodes, curr, pos, 0);
          Success(target)
        else Success(curr)
      else if |s| == 1 && 'A' <= s[0] <= 'Z' then
        var index := s[0] as int - 'A' as int;
        var fork := NextFork(nodes, curr);
        if fork >= 0 && index < |nodes[fork].nexts| then
          assert NodeLinked(nodes, fork);
          Success(nodes[fork].nexts[index])
        else Success(curr)
      else if s == "_" then Success(FirstForkOrLast(nodes, curr))
      else Success(curr)
  }

  /** The queries applied in turn from `curr`; the first failing step fails the whole. */
  ghost function QueryFrom(nodes: seq<Node>, curr: int, qs: seq<Query>, w: int, h: int): (r: Result<int>)
    requires Linked(nodes) && 0 <= curr < |nodes|
    ensures r.Success? ==> 0 <= r.value < |nodes|
    ensures r.Failure? <==> exists i :: 0 <= i < |qs| && IsBadPointQuery(qs[i], w, h)
    decreases |qs|
  {
    if qs == [] then Success(curr)
    else
      var next :- QueryStep(nodes, curr, qs[0], w, h);
      var r := QueryFrom(nodes, next, qs[1..], w, h);
      assert forall i :: 0 < i < |qs| ==> qs[i] == qs[1..][i - 1];
      r
  }

  // ----- queries stay in the tree -----

  /** A child listed by an attached node is attached. */
  lemma ChildAttached(nodes: seq<Node>, x: int, c: int)
    requires Linked(nodes) && 0 <= x < |nodes| && Attached(nodes, x) && c in nodes[x].nexts
    ensures 0 <= c < |nodes| && Attached(nodes, c)
  {
    ChildAbove(nodes, x, c);
  }

  /** The ancestors of an attached node are attached. */
  lemma {:induction false} AncestorAttached(nodes: seq<Node>, a: int, m: int)
    requires Ordered(nodes) && 0 <= m < |nodes| && Attached(nodes, m) && IsAncestor(nodes, a, m)
    ensures 0 <= a < |nodes| && Attached(nodes, a)
    decreases m
  {
    if a != m {
      AncestorAttached(nodes, a, nodes[m].prev);
    }
  }

  lemma {:induction false} NthNextAttached(nodes: seq<Node>, m: int, k: int)
    requires Linked(nodes) && 0 <= m < |nodes| && Attached(nodes, m)
    ensures Attached(nodes, NthNextWalk(nodes, m, k).0)
    decreases if k > 0 then k else 0
  {
    if k > 0 && |nodes[m].nexts| > 0 {
      ChildAttached(nodes, m, nodes[m].nexts[0]);
      NthNextAttached(nodes, nodes[m].nexts[0], k - 1);
    }
  }

  lemma {:induction false} FirstForkOrLastAttached(nodes: seq<Node>, m: int)
    requires Linked(nodes) && 0 <= m < |nodes| && Attached(nodes, m)
    ensures Attached(nodes, FirstForkOrLast(nodes, m))
    decreases |nodes| - m
  {
    if |nodes[m].nexts| == 1 {
      ChildAttached(nodes, m, nodes[m].nexts[0]);
      ChildAbove(nodes, m, nodes[m].nexts[0]);
      FirstForkOrLastAttached(nodes, nodes[m].nexts[0]);
    }
  }

  lemma {:induction false} LevelAttached(nodes: seq<Node>, start: int, k: nat, x: int)
    requires Linked(nodes) && 0 <= start < |nodes| && Attached(nodes, start) && x in Level(nodes, start, k)
    ensures Attached(nodes, x)
  {
    if k > 0 {
      var above := Level(nodes, start, k - 1);
      var p :| p in above && x in nodes[p].nexts;
      LevelAttached(nodes, start, k - 1, p);
      ChildAttached(nodes, p, x);
    }
  }

  lemma {:induction false} BreadthFirstAttached(nodes: seq<Node>, start: int, pos: int, k: nat)
    requires Linked(nodes) && 0 <= start < |nodes| && Attached(nodes, start) && BreadthFirst(nodes, start, pos, k) >= 0
    ensures Attached(nodes, BreadthFirst(nodes, start, pos, k))
    decreases |nodes| - k
  {
    var level := Level(nodes, start, k);
    LevelNonEmptyBound(nodes, start, k);
    var i := FirstWithPos(nodes, level, pos);
    if i >= 0 {
      LevelAttached(nodes, start, k, level[i]);
    } else {
      BreadthFirstAttached(nodes, start, pos, k + 1);
    }
  }

  /** A query step from an attached node lands on an attached node. */
  lemma QueryStepAttached(nodes: seq<Node>, curr: int, q: Query, w: int, h: int)
    requires Linked(nodes) && 0 <= curr < |nodes| && Attached(nodes, curr)
    ensures QueryStep(nodes, curr, q, w, h).Success? ==> Attached(nodes, QueryStep(nodes, curr, q, w, h).value)
  {
    match q
    case MoveQuery(n) =>
      if n >= 0 {
        NthNextAttached(nodes, curr, n);
      } else {
        AncestorAttached(nodes, NthPrevWalk(nodes, curr, -n).0, curr);
      }
    case TextQuery(s) =>
      if IsTwoLetters(s) {
        var pos := ParseSGFMove(s, w, h);
        if pos.Success? && BreadthFirst(nodes, curr, pos.value, 0) >= 0 {
          BreadthFirstAttached(nodes, curr, pos.value, 0);
        }
      } else if |s| == 1 && 'A' <= s[0] <= 'Z' {
        var index := s[0] as int - 'A' as int;
        var fork := NextFork(nodes, curr);
        if fork >= 0 && index < |nodes[fork].nexts| {
          NextForkIsFirstFork(nodes, curr);
          FirstForkOrLastAttached(nodes, curr);
          ChildAttached(nodes, fork, nodes[fork].nexts[index]);
        }
      } else if s == "_" {
        FirstForkOrLastAttached(nodes, curr);
      }
  }

  /** A query from an attached node never leaves the tree: its result is attached. */
  lemma {:induction false} QueryFromAttached(nodes: seq<Node>, curr: int, qs: seq<Query>, w: int, h: int)
    requires Linked(nodes) && 0 <= curr < |nodes| && Attached(nodes, curr)
    ensures QueryFrom(nodes, curr, qs, w, h).Success? ==> Attached(nodes, QueryFrom(nodes, curr, qs, w, h).value)
    decreases |qs|
  {
    if qs != [] {
      QueryStepAttached(nodes, curr, qs[0], w, h);
      var next := QueryStep(nodes, curr, qs[0], w, h);
      if next.Success? {
        QueryFromAttached(nodes, next.value, qs[1..], w, h);
      }
    }
  }

  // ----- the program's node walks -----

  function Reverse(s: seq<int>): (r: seq<int>)
    ensures |r| == |s| && forall i :: 0 <= i < |s| ==> r[i] == s[|s| - 1 - i]
  {
    if s == [] then [] else [s[|s| - 1]] + Reverse(s[..|s| - 1])
  }

  /** One step of `GetPathFromRoot`'s loop keeps its invariant. */
  lemma PathFromRootStep(nodes: seq<Node>, n: int, node: int, forkOnly: bool, dirs: seq<int>)
    requires Ordered(nodes) && 0 <= n < |nodes| && 0 <= node < |nodes| && nodes[node].prev >= 0
    requires PathFromRoot(nodes, n, forkOnly) == PathFromRoot(nodes, node, forkOnly) + Reverse(dirs)
    ensures var p := nodes[node].prev;
      && 0 <= p < |nodes|
      && var dirs' := if !forkOnly || |nodes[p].nexts| >= 2 then dirs + [IndexOf(nodes[p].nexts, node)] else dirs;
      PathFromRoot(nodes, n, forkOnly) == PathFromRoot(nodes, p, forkOnly) + Reverse(dirs')
  {
    var p := nodes[node].prev;
    var piece := if !forkOnly || |nodes[p].nexts| >= 2 then [IndexOf(nodes[p].nexts, node)] else [];
    var dirs' := if !forkOnly || |nodes[p].nexts| >= 2 then dirs + [IndexOf(nodes[p].nexts, node)] else dirs;
    if !forkOnly || |nodes[p].nexts| >= 2 {
      ReverseSnoc(dirs, IndexOf(nodes[p].nexts, node));
    }
    assert Reverse(dirs') == piece + Reverse(dirs);
    var above := PathFromRoot(nodes, p, forkOnly);
    assert PathFromRoot(nodes, node, forkOnly) == above + piece;
    Seqs.ConcatAssoc(above, piece, Reverse(dirs));
  }

  lemma ReverseSnoc(s: seq<int>, x: int)
    ensures Reverse(s + [x]) == [x] + Reverse(s)
  {
    assert (s + [x])[..|s|] == s;
  }

  lemma AncestorsAreNodes(nodes: seq<Node>, a: int, m: int)
    requires Ordered(nodes) && -1 <= m < |nodes|
    ensures IsAncestor(nodes, a, m) ==> 0 <= a <= m
  {
    if IsAncestor(nodes, a, m) {
      AncestorBelow(nodes, a, m);
    }
  }

  /** The root of the tree `n` hangs in: the end of its parent chain. */
  method GetRoot(nodes: seq<Node>, n: int) returns (r: int)
    requires Ordered(nodes) && 0 <= n < |nodes|
    ensures r == 0 && IsAncestor(nodes, r, n)
  {
    var node := n;
    while nodes[node].prev >= 0
      invariant 0 <= node < |nodes| && IsAncestor(nodes, node, n)
      decreases node
    {
      var p := nodes[node].prev;
      assert IsAncestor(nodes, p, node);
      AncestorTrans(nodes, p, node, n);
      node := p;
    }
    return node;
  }

  method GetPreviousMove(nodes: seq<Node>, n: int) returns (r: int)
    requires Ordered(nodes) && 0 <= n < |nodes|
    ensures r == PreviousMove(nodes, n)
  {
    var node := nodes[n].prev;
    while node >= 0 && !nodes[node].IsMove()
      invariant -1 <= node < |nodes| && MoveAtOrAbove(nodes, node) == PreviousMove(nodes, n)
      decreases node + 1
    {
      node := nodes[node].prev;
    }
    return node;
  }

  method IsSecondConsecutivePass(nodes: seq<Node>, n: int) returns (b: bool)
    requires Ordered(nodes) && 0 <= n < |nodes|
    ensures b == SecondConsecutivePass(nodes, n)
  {
    if !nodes[n].IsPass() {
      return false;
    }
    var move := GetPreviousMove(nodes, n);
    return move >= 0 && nodes[move].IsPass();
  }

  method GetMoveNumber(nodes: seq<Node>, n: int) returns (num: int)
    requires Ordered(nodes) && 0 <= n < |nodes|
    ensures num == MoveCount(nodes, n)
  {
    num := 0;
    var node := n;
    while node >= 0
      invariant -1 <= node < |nodes| && num + MoveCount(nodes, node) == MoveCount(nodes, n)
      decreases node + 1
    {
      if nodes[node].IsMove() {
        num := num + 1;
      }
      node := nodes[node].prev;
    }
  }

  method GetDepth(nodes: seq<Node>, n: int) returns (d: int)
    requires Ordered(nodes) && 0 <= n < |nodes|
    ensures d == Depth(nodes, n)
  {
    d := 0;
    var node := n;
    while nodes[node].prev >= 0
      invariant 0 <= node < |nodes| && d + Depth(nodes, node) == Depth(nodes, n)
      decreases node
    {
      d := d + 1;
      node := nodes[node].prev;
    }
  }

  /** Collects the child indices from `n` up to the root, then reverses them. */
  method GetPathFromRoot(nodes: seq<Node>, n: int, forkOnly: bool) returns (dirs: seq<int>)
    requires Ordered(nodes) && 0 <= n < |nodes|
    ensures dirs == PathFromRoot(nodes, n, forkOnly)
  {
    dirs := [];
    var node := n;
    while nodes[node].prev >= 0
      invariant 0 <= node < |nodes|
      invariant PathFromRoot(nodes, n, forkOnly) == PathFromRoot(nodes, node, forkOnly) + Reverse(dirs)
      decreases node
    {
      var p := nodes[node].prev;
      PathFromRootStep(nodes, n, node, forkOnly, dirs);
      if !forkOnly || |nodes[p].nexts| >= 2 {
        dirs := dirs + [IndexOf(nodes[p].nexts, node)];
      }
      node := p;
    }
    dirs := Reverse(dirs);
  }

  method GetNthPrev(nodes: seq<Node>, m: int, k: int, clamp: bool) returns (r: int)
    requires Ordered(nodes) && 0 <= m < |nodes|
    ensures r == NthPrev(nodes, m, k, clamp)
  {
    var node, n := m, k;
    while n > 0 && nodes[node].prev >= 0
      invariant 0 <= node < |nodes| && NthPrevWalk(nodes, node, n) == NthPrevWalk(nodes, m, k)
      decreases node
    {
      node := nodes[node].prev;
      n := n - 1;
    }
    r := if n > 0 && !clamp then -1 else node;
  }

  method GetNthNext(nodes: seq<Node>, m: int, k: int, clamp: bool) returns (r: int)
    requires Linked(nodes) && 0 <= m < |nodes|
    ensures r == NthNext(nodes, m, k, clamp)
  {
    var node, n := m, k;
    while n > 0 && |nodes[node].nexts| > 0
      invariant 0 <= node < |nodes| && NthNextWalk(nodes, node, n) == NthNextWalk(nodes, m, k)
      decreases n
    {
      ChildAbove(nodes, node, nodes[node].nexts[0]);
      node := nodes[node].nexts[0];
      n := n - 1;
    }
    r := if n > 0 && !clamp then -1 else node;
  }

  method GetNth(nodes: seq<Node>, m: int, k: int, clamp: bool) returns (r: int)
    requires Linked(nodes) && 0 <= m < |nodes|
    ensures r == Nth(nodes, m, k, clamp)
  {
    if k >= 0 {
      r := GetNthNext(nodes, m, k, clamp);
    } else {
      r := GetNthPrev(nodes, m, -k, clamp);
    }
  }

  /** Whether `a` (-1 for none) is `m` or one of its ancestors. */
  method IsDescendantOf(nodes: seq<Node>, m: int, a: int) returns (b: bool)
    requires Ordered(nodes) && 0 <= m < |nodes|
    ensures b == IsAncestor(nodes, a, m)
  {
    if a < 0 {
      AncestorsAreNodes(nodes, a, m);
      return false;
    }
    var ancestor := m;
    while ancestor >= 0
      invariant -1 <= ancestor < |nodes| && IsAncestor(nodes, a, m) == IsAncestor(nodes, a, ancestor)
      decreases ancestor + 1
    {
      if a == ancestor {
        return true;
      }
      ancestor := nodes[ancestor].prev;
    }
    return false;
  }

  /** Whether `a` is `d` (-1 for none) or one of its ancestors. */
  method IsAncestorOf(nodes: seq<Node>, a: int, d: int) returns (b: bool)
    requires Ordered(nodes) && -1 <= d < |nodes|
    ensures b == IsAncestor(nodes, a, d)
  {
    if d < 0 {
      return false;
    }
    b := IsDescendantOf(nodes, d, a);
  }

  method FindNextFork(nodes: seq<Node>, m: int) returns (r: int)
    requires Linked(nodes) && 0 <= m < |nodes|
    ensures r == NextFork(nodes, m)
  {
    var node := m;
    while |nodes[node].nexts| > 0
      invariant 0 <= node < |nodes| && NextFork(nodes, node) == NextFork(nodes, m)
      decreases |nodes| - node
    {
      if |nodes[node].nexts| > 1 {
        return node;
      }
      ChildAbove(nodes, node, nodes[node].nexts[0]);
      node := nodes[node].nexts[0];
    }
    return -1;
  }

  method FindFirstForkOrLast(nodes: seq<Node>, m: int) returns (r: int)
    requires Linked(nodes) && 0 <= m < |nodes|
    ensures r == FirstForkOrLast(nodes, m)
  {
    var node := m;
    while |nodes[node].nexts| == 1
      invariant 0 <= node < |nodes| && FirstForkOrLast(nodes, node) == FirstForkOrLast(nodes, m)
      decreases |nodes| - node
    {
      ChildAbove(nodes, node, nodes[node].nexts[0]);
      node := nodes[node].nexts[0];
    }
    return node;
  }

  /** Level by level, each level in order; the first node recording `pos`, or -1. */
  method FindBreadthFirst(nodes: seq<Node>, start: int, pos: int) returns (r: int)
    requires Linked(nodes) && 0 <= start < |nodes|
    ensures r == BreadthFirst(nodes, start, pos, 0)
  {
    var curr := [start];
    ghost var level: nat := 0;
    while |curr| > 0
      invariant curr == Level(nodes, start, level)
      invariant BreadthFirst(nodes, start, pos, level) == BreadthFirst(nodes, start, pos, 0)
      decreases |nodes| - level
    {
      LevelNonEmptyBound(nodes, start, level);
      BreadthFirstStep(nodes, start, pos, level);
      var found, next := ScanLevel(nodes, curr, pos);
      if found >= 0 {
        return found;
      }
      level := level + 1;
      curr := next;
    }
    return -1;
  }

  /** One level of the search: the first node of `curr` recording `pos`, or else the next level. */
  method ScanLevel(nodes: seq<Node>, curr: seq<int>, pos: int) returns (found: int, next: seq<int>)
    requires Linked(nodes) && forall i :: 0 <= i < |curr| ==> 0 <= curr[i] < |nodes|
    ensures var k := FirstWithPos(nodes, curr, pos); found == (if k >= 0 then curr[k] else -1)
    ensures found < 0 ==> next == Flatten(nodes, curr)
  {
    next := [];
    var i := 0;
    while i < |curr|
      invariant 0 <= i <= |curr|
      invariant next == Flatten(nodes, curr[..i])
      invariant forall j :: 0 <= j < i ==> nodes[curr[j]].pos != pos
    {
      if nodes[curr[i]].pos == pos {
        ghost var k := FirstWithPos(nodes, curr, pos);
        assert k == i;
        return curr[i], next;
      }
      assert curr[..i + 1][..i] == curr[..i];
      next := next + nodes[curr[i]].nexts;
      i := i + 1;
    }
    Seqs.TakeAll(curr);
    ghost var k := FirstWithPos(nodes, curr, pos);
    assert k < 0;
    found := -1;
  }

  method FindByPath(nodes: seq<Node>, m: int, dirs: seq<int>, forkOnly: bool) returns (r: int)
    requires Linked(nodes) && 0 <= m < |nodes|
    ensures r == FindByPathFrom(nodes, m, dirs, forkOnly)
  {
    var node, di := m, 0;
    while node >= 0 && di < |dirs|
      invariant 0 <= di <= |dirs| && -1 <= node < |nodes|
      invariant node >= 0 ==> FindByPathFrom(nodes, node, dirs[di..], forkOnly) == FindByPathFrom(nodes, m, dirs, forkOnly)
      invariant node < 0 ==> FindByPathFrom(nodes, m, dirs, forkOnly) == -1
      decreases |dirs| - di, |nodes| - node
    {
      var nexts := nodes[node].nexts;
      assert dirs[di..][1..] == dirs[di + 1..];
      var dir;
      if !forkOnly || |nexts| >= 2 {
        dir := dirs[di];
        di := di + 1;
      } else {
        dir := 0;
      }
      if dir >= |nexts| {
        return -1;
      }
      if dir < 0 {
        // indexing the children with a negative number yields no node
        node := -1;
      } else {
        ChildAbove(nodes, node, nexts[dir]);
        node := nexts[dir];
      }
    }
    r := if node >= 0 then node else -1;
  }

  /** One step of a query, as the loop body of the program's query search. */
  method ApplyQuery(nodes: seq<Node>, curr: int, q: Query, w: int, h: int) returns (r: Result<int>)
    requires Linked(nodes) && 0 <= curr < |nodes|
    ensures r == QueryStep(nodes, curr, q, w, h)
  {
    match q {
      case MoveQuery(n) =>
        var next := GetNth(nodes, curr, n, true);
        return Success(next);
      case TextQuery(s) =>
        if IsTwoLetters(s) {
          var pos := ParseSGFMove(s, w, h);
          if pos.Failure? {
            return Failure(pos.error);
          }
          var target := FindBreadthFirst(nodes, curr, pos.value);
          return Success(if target >= 0 then target else curr);
        } else if |s| == 1 && 'A' <= s[0] <= 'Z' {
          var index := s[0] as int - 'A' as int;
          var nextFork := FindNextFork(nodes, curr);
          if nextFork >= 0 && index < |nodes[nextFork].nexts| {
            assert NodeLinked(nodes, nextFork);
            return Success(nodes[nextFork].nexts[index]);
          }
          return Success(curr);
        } else if s == "_" {
          var next := FindFirstForkOrLast(nodes, curr);
          return Success(next);
        }
        return Success(curr);
    }
  }

  /** Applies each query in turn from `m`; a point query naming no point of the board fails. */
  method FindByQuery(nodes: seq<Node>, m: int, queries: seq<Query>, w: int, h: int) returns (r: Result<int>)
    requires Linked(nodes) && 0 <= m < |nodes|
    ensures r == QueryFrom(nodes, m, queries, w, h)
  {
    var curr := m;
    var i := 0;
    while i < |queries|
      invariant 0 <= i <= |queries| && 0 <= curr < |nodes|
      invariant QueryFrom(nodes, curr, queries[i..], w, h) == QueryFrom(nodes, m, queries, w, h)
    {
      assert queries[i..][1..] == queries[i + 1..];
      var next := ApplyQuery(nodes, curr, queries[i], w, h);
      if next.Failure? {
        return next;
      }
      curr := next.value;
      i := i + 1;
    }
    return Success(curr);
  }
}
