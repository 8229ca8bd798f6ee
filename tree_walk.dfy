/**
 * The walk that turns a history tree into a record: every node from the
 * root on, depth first, children in order.  A node that has siblings is
 * wrapped in a branch; each node gives a move, a pass, a resignation or a
 * setup-node call, then its setup property and its comment.  The colour
 * to move flows through the walk: a move flips it, a setup property that
 * changes it sets it, and leaving a node winds it back.
 *
 * A formatter sees only the calls, in order; the calls are modelled as a
 * list, and each formatter consumes that list.
 */
module TreeWalk {
  import opened Stones
  import opened Wrappers
  import opened Diffs
  import opened HistoryNodes
  import opened History

  datatype Call =
    | BeginTree(turn: int)
    | EndTree(turn: int)
    | PutResign(turn: int)
    | PutPass(turn: int)
    | PutPlace(pos: int, turn: int)
    | PutSetupNode(node: int, turn: int)
    | PutSetupProperty(intersections: seq<Change>, setupTurn: Option<TurnChange>, turn: int)
    | PutComment(comment: string, turn: int)
    | BeginBranch(node: int, turn: int)
    | EndBranch(node: int, turn: int)

  /** A call that opens or closes no branch and does not end the tree. */
  predicate Flat(c: Call) {
    !c.BeginBranch? && !c.EndBranch? && !c.EndTree?
  }

  /** The number of children of the node's parent, 0 for the root. */
  function NumberOfSiblings(nodes: seq<Node>, n: int): nat
    requires Ordered(nodes) && 0 <= n < |nodes|
  {
    if nodes[n].prev >= 0 then |nodes[nodes[n].prev].nexts| else 0
  }

  /** The calls for one node, and the colour to move after them. */
  function PutNode(nodes: seq<Node>, n: int, turn: int): (r: (seq<Call>, int))
    requires 0 <= n < |nodes|
    reads SetupsOf(nodes)
    ensures forall i | 0 <= i < |r.0| :: Flat(r.0[i])
    ensures |r.0| >= 1 && (r.0[0].PutPlace? || r.0[0].PutPass? <==> nodes[n].IsMove())
    ensures forall i | 1 <= i < |r.0| :: !r.0[i].PutPlace? && !r.0[i].PutPass?
  {
    var node := nodes[n];
    var (moveCalls, moved) :=
      if node.IsResign() then ([PutResign(turn)], turn)
      else if node.IsPass() then ([PutPass(turn)], GetOppositeColor(turn))
      else if node.IsPlace() then ([PutPlace(node.pos, turn)], GetOppositeColor(turn))
      else ([PutSetupNode(n, turn)], turn);
    var (setupCalls, setupTurn) :=
      if node.setup.Some? then
        assert node.setup.value in SetupsOf(nodes);
        var d := node.setup.value;
        ([PutSetupProperty(d.intersections, d.turn, moved)],
         if d.turn.Some? && d.turn.value.newTurn != moved then d.turn.value.newTurn else moved)
      else ([], moved);
    var commentCalls := if node.comment.Some? then [PutComment(node.comment.value, setupTurn)] else [];
    (moveCalls + setupCalls + commentCalls, setupTurn)
  }

  /** The colour to move after leaving node `n`: the setup's old turn, or the move taken back. */
  function LeaveTurn(nodes: seq<Node>, n: int, turn: int): int
    requires 0 <= n < |nodes|
    reads SetupsOf(nodes)
  {
    var node := nodes[n];
    if node.setup.Some? && (assert node.setup.value in SetupsOf(nodes); node.setup.value.turn.Some?) then
      node.setup.value.turn.value.oldTurn
    else if node.IsPass() || node.IsPlace() then GetOppositeColor(turn)
    else turn
  }

  /** The calls of the subtree at `n`, entered with `turn` to move, and the colour to move after leaving it. */
  function Visit(nodes: seq<Node>, n: int, turn: int): (seq<Call>, int)
    requires Linked(nodes) && 0 <= n < |nodes|
    reads SetupsOf(nodes)
    decreases |nodes| - n, 1
  {
    var branch := NumberOfSiblings(nodes, n) > 1;
    var enter := if branch then [BeginBranch(n, turn)] else [];
    var (nodeCalls, t1) := PutNode(nodes, n, turn);
    var (childCalls, t2) := VisitChildren(nodes, n, 0, t1);
    var leave := if branch then [EndBranch(n, t2)] else [];
    (enter + nodeCalls + childCalls + leave, LeaveTurn(nodes, n, t2))
  }

  /** The calls of the subtrees of children `k` and on of node `n`. */
  function VisitChildren(nodes: seq<Node>, n: int, k: nat, turn: int): (seq<Call>, int)
    requires Linked(nodes) && 0 <= n < |nodes|
    reads SetupsOf(nodes)
    decreases |nodes| - n, 0, |nodes[n].nexts| - k
  {
    if k >= |nodes[n].nexts| then ([], turn)
    else
      assert NodeLinked(nodes, n);
      var c := nodes[n].nexts[k];
      assert nodes[c].prev == n;
      var (first, t1) := Visit(nodes, c, turn);
      var (rest, t2) := VisitChildren(nodes, n, k + 1, t1);
      (first + rest, t2)
  }

  /** Every call of a whole-tree record: the tree opened with BLACK to move, the walk from the root, the tree closed. */
  function TreeCalls(nodes: seq<Node>): seq<Call>
    requires Linked(nodes)
    reads SetupsOf(nodes)
  {
    var (calls, turn) := Visit(nodes, 0, BLACK);
    [BeginTree(BLACK)] + calls + [EndTree(turn)]
  }

  // ----- branch nesting -----

  /**
   * The branch depth after `c`, starting at `depth`; None when `c` closes
   * depth 0, which a reader takes as the end of the tree.
   */
  function CallStep(c: Call, depth: nat): Option<nat> {
    match c
    case BeginBranch(_, _) => Some(depth + 1)
    case EndBranch(_, _) => if depth == 0 then None else Some(depth - 1)
    case EndTree(_) => if depth == 0 then None else Some(depth - 1)
    case _ => Some(depth)
  }

  function CallsRun(cs: seq<Call>, depth: nat): Option<nat>
    decreases |cs|
  {
    if cs == [] then Some(depth)
    else match CallStep(cs[0], depth)
      case None => None
      case Some(d) => CallsRun(cs[1..], d)
  }

  lemma {:induction false} CallsRunConcat(a: seq<Call>, b: seq<Call>, depth: nat)
    ensures CallsRun(a + b, depth) == match CallsRun(a, depth) case None => None case Some(d) => CallsRun(b, d)
    decreases |a|
  {
    if a != [] {
      assert (a + b)[0] == a[0] && (a + b)[1..] == a[1..] + b;
      if CallStep(a[0], depth).Some? {
        CallsRunConcat(a[1..], b, CallStep(a[0], depth).value);
      }
    } else {
      assert a + b == b;
    }
  }

  /** The calls leave the branch depth where they found it and never close a branch they did not open. */
  ghost predicate Nested(cs: seq<Call>) {
    forall depth: nat :: CallsRun(cs, depth) == Some(depth)
  }

  lemma NestedConcat(a: seq<Call>, b: seq<Call>)
    requires Nested(a) && Nested(b)
    ensures Nested(a + b)
  {
    forall depth: nat ensures CallsRun(a + b, depth) == Some(depth) {
      CallsRunConcat(a, b, depth);
    }
  }

  /** The calls of a node open and close no branch. */
  lemma PutNodeNested(nodes: seq<Node>, n: int, turn: int)
    requires 0 <= n < |nodes|
    ensures Nested(PutNode(nodes, n, turn).0)
  {
    var cs := PutNode(nodes, n, turn).0;
    forall depth: nat ensures CallsRun(cs, depth) == Some(depth) {
      FlatRun(cs, depth);
    }
  }

  lemma {:induction false} FlatRun(cs: seq<Call>, depth: nat)
    requires forall i | 0 <= i < |cs| :: Flat(cs[i])
    ensures CallsRun(cs, depth) == Some(depth)
    decreases |cs|
  {
    if cs != [] {
      FlatRun(cs[1..], depth);
    }
  }

  /** The calls of a subtree are nested: each branch the walk opens, it closes. */
  lemma {:induction false} VisitNested(nodes: seq<Node>, n: int, turn: int)
    requires Linked(nodes) && 0 <= n < |nodes|
    ensures Nested(Visit(nodes, n, turn).0)
    decreases |nodes| - n, 1
  {
    var branch := NumberOfSiblings(nodes, n) > 1;
    var (nodeCalls, t1) := PutNode(nodes, n, turn);
    var (childCalls, t2) := VisitChildren(nodes, n, 0, t1);
    PutNodeNested(nodes, n, turn);
    VisitChildrenNested(nodes, n, 0, t1);
    NestedConcat(nodeCalls, childCalls);
    var inner := nodeCalls + childCalls;
    if branch {
      WrapNested(BeginBranch(n, turn), inner, EndBranch(n, t2));
      assert Visit(nodes, n, turn).0 == [BeginBranch(n, turn)] + inner + [EndBranch(n, t2)];
    } else {
      assert Visit(nodes, n, turn).0 == inner;
    }
  }

  /** Nested calls wrapped in a branch are nested. */
  lemma WrapNested(open: Call, inner: seq<Call>, close: Call)
    requires open.BeginBranch? && close.EndBranch? && Nested(inner)
    ensures Nested([open] + inner + [close])
  {
    forall depth: nat ensures CallsRun([open] + inner + [close], depth) == Some(depth) {
      WrapRun(open, inner, close, depth);
    }
  }

  lemma WrapRun(open: Call, inner: seq<Call>, close: Call, depth: nat)
    requires open.BeginBranch? && close.EndBranch? && CallsRun(inner, depth + 1) == Some(depth + 1)
    ensures CallsRun([open] + inner + [close], depth) == Some(depth)
  {
    var all := [open] + inner + [close];
    assert all[0] == open && all[1..] == inner + [close];
    CallsRunConcat(inner, [close], depth + 1);
    assert [close][1..] == [];
    assert CallsRun([close], depth + 1) == Some(depth);
  }

  lemma {:induction false} VisitChildrenNested(nodes: seq<Node>, n: int, k: nat, turn: int)
    requires Linked(nodes) && 0 <= n < |nodes|
    ensures Nested(VisitChildren(nodes, n, k, turn).0)
    decreases |nodes| - n, 0, |nodes[n].nexts| - k
  {
    if k < |nodes[n].nexts| {
      assert NodeLinked(nodes, n);
      var c := nodes[n].nexts[k];
      assert nodes[c].prev == n;
      var (first, t1) := Visit(nodes, c, turn);
      VisitNested(nodes, c, turn);
      VisitChildrenNested(nodes, n, k + 1, t1);
      NestedConcat(first, VisitChildren(nodes, n, k + 1, t1).0);
    } else {
      assert VisitChildren(nodes, n, k, turn).0 == [];
    }
  }

  /** A whole-tree record ends at its last call, the end of the tree, and nothing before it ends the tree. */
  lemma TreeCallsClosed(nodes: seq<Node>)
    requires Linked(nodes)
    ensures CallsRun(TreeCalls(nodes)[..|TreeCalls(nodes)| - 1], 0) == Some(0)
    ensures TreeCalls(nodes)[|TreeCalls(nodes)| - 1].EndTree?
  {
    var (calls, turn) := Visit(nodes, 0, BLACK);
    VisitNested(nodes, 0, BLACK);
    var all := TreeCalls(nodes);
    assert all[..|all| - 1] == [BeginTree(BLACK)] + calls;
    CallsRunConcat([BeginTree(BLACK)], calls, 0);
  }

  // ----- the line to the current node -----

  /** The nodes from the root down to `n`, root first. */
  function LineTo(nodes: seq<Node>, n: int): (r: seq<int>)
    requires Ordered(nodes) && 0 <= n < |nodes|
    ensures |r| >= 1 && r[0] == 0 && r[|r| - 1] == n
    ensures forall k | 0 <= k < |r| :: 0 <= r[k] < |nodes|
    ensures forall k | 0 < k < |r| :: nodes[r[k]].prev == r[k - 1]
    decreases n
  {
    if nodes[n].prev < 0 then [n] else LineTo(nodes, nodes[n].prev) + [n]
  }

  /**
   * The program's loop collecting the line: from `n` up the parent links
   * to the root, then reversed.
   */
  method CollectLine(nodes: seq<Node>, n: int) returns (line: seq<int>)
    requires Ordered(nodes) && 0 <= n < |nodes|
    ensures line == LineTo(nodes, n)
  {
    var up: seq<int> := [];
    var node := n;
    while node >= 0
      invariant -1 <= node < |nodes|
      invariant node >= 0 ==> LineTo(nodes, n) == LineTo(nodes, node) + Reverse(up)
      invariant node < 0 ==> LineTo(nodes, n) == Reverse(up)
      decreases node + 1
    {
      ReverseSnoc(up, node);
      if nodes[node].prev >= 0 {
        assert LineTo(nodes, node) == LineTo(nodes, nodes[node].prev) + [node];
      }
      up := up + [node];
      node := nodes[node].prev;
    }
    line := Reverse(up);
  }

  /** The calls for the nodes of `line` in order, entered with `turn` to move, and the colour to move after them. */
  function LineNodeCalls(nodes: seq<Node>, line: seq<int>, turn: int): (r: (seq<Call>, int))
    requires forall k | 0 <= k < |line| :: 0 <= line[k] < |nodes|
    reads SetupsOf(nodes)
    ensures forall i | 0 <= i < |r.0| :: Flat(r.0[i])
    decreases |line|
  {
    if line == [] then ([], turn)
    else
      var (first, t1) := PutNode(nodes, line[0], turn);
      var (rest, t2) := LineNodeCalls(nodes, line[1..], t1);
      (first + rest, t2)
  }

  /** Every call of a record of the line from the root to `n`, without branches. */
  function LineCalls(nodes: seq<Node>, n: int): seq<Call>
    requires Ordered(nodes) && 0 <= n < |nodes|
    reads SetupsOf(nodes)
  {
    var (calls, turn) := LineNodeCalls(nodes, LineTo(nodes, n), BLACK);
    [BeginTree(BLACK)] + calls + [EndTree(turn)]
  }

  /** The calls of a record: of the line from the root to the current node `pointer`, or of the whole tree. */
  function RecordCalls(nodes: seq<Node>, pointer: int, toCurrentNode: bool): seq<Call>
    requires Linked(nodes) && 0 <= pointer < |nodes|
    reads SetupsOf(nodes)
  {
    if toCurrentNode then LineCalls(nodes, pointer) else TreeCalls(nodes)
  }

  /** The calls of a line of nodes extended by one node: those of the line, then those of the node. */
  lemma {:induction false} LineNodeCallsSnoc(nodes: seq<Node>, line: seq<int>, n: int, turn: int)
    requires forall k | 0 <= k < |line| :: 0 <= line[k] < |nodes|
    requires 0 <= n < |nodes|
    ensures LineNodeCalls(nodes, line + [n], turn).0 ==
      LineNodeCalls(nodes, line, turn).0 + PutNode(nodes, n, LineNodeCalls(nodes, line, turn).1).0
    ensures LineNodeCalls(nodes, line + [n], turn).1 == PutNode(nodes, n, LineNodeCalls(nodes, line, turn).1).1
    decreases |line|
  {
    if line == [] {
      assert [] + [n] == [n];
      assert [n][1..] == [];
    } else {
      assert (line + [n])[0] == line[0] && (line + [n])[1..] == line[1..] + [n];
      var first := PutNode(nodes, line[0], turn);
      LineNodeCallsSnoc(nodes, line[1..], n, first.1);
      var rest := LineNodeCalls(nodes, line[1..], first.1);
      var tail := PutNode(nodes, n, rest.1).0;
      assert LineNodeCalls(nodes, line + [n], turn).0 == first.0 + (rest.0 + tail);
      assert LineNodeCalls(nodes, line, turn).0 == first.0 + rest.0;
      Seqs.ConcatAssoc(first.0, rest.0, tail);
    }
  }

  /** The number of moves (placements and passes) among the calls. */
  function MoveCalls(cs: seq<Call>): nat
    decreases |cs|
  {
    if cs == [] then 0 else MoveCalls(cs[..|cs| - 1]) + (if cs[|cs| - 1].PutPlace? || cs[|cs| - 1].PutPass? then 1 else 0)
  }

  lemma {:induction false} MoveCallsConcat(a: seq<Call>, b: seq<Call>)
    ensures MoveCalls(a + b) == MoveCalls(a) + MoveCalls(b)
    decreases |b|
  {
    if b == [] {
      assert a + b == a;
    } else {
      assert (a + b)[..|a + b| - 1] == a + b[..|b| - 1];
      MoveCallsConcat(a, b[..|b| - 1]);
    }
  }

  /** Calls with no move after the first hold one move exactly when the first is one. */
  lemma HeadMoves(cs: seq<Call>)
    requires |cs| >= 1 && forall i | 1 <= i < |cs| :: !cs[i].PutPlace? && !cs[i].PutPass?
    ensures MoveCalls(cs) == if cs[0].PutPlace? || cs[0].PutPass? then 1 else 0
  {
    var tail := cs[1..];
    assert cs == [cs[0]] + tail;
    MoveCallsConcat([cs[0]], tail);
    assert [cs[0]][..0] == [];
    forall i | 0 <= i < |tail| ensures !tail[i].PutPlace? && !tail[i].PutPass? {
      assert tail[i] == cs[i + 1];
    }
    NoMoveCalls(tail);
  }

  lemma {:induction false} NoMoveCalls(cs: seq<Call>)
    requires forall i | 0 <= i < |cs| :: !cs[i].PutPlace? && !cs[i].PutPass?
    ensures MoveCalls(cs) == 0
    decreases |cs|
  {
    if cs != [] {
      NoMoveCalls(cs[..|cs| - 1]);
    }
  }

  /** Extending a line by a node adds one move to its calls exactly when the node is a move. */
  lemma LineNodeCallsSnocMoves(nodes: seq<Node>, line: seq<int>, n: int, turn: int)
    requires forall k | 0 <= k < |line| :: 0 <= line[k] < |nodes|
    requires 0 <= n < |nodes|
    ensures MoveCalls(LineNodeCalls(nodes, line + [n], turn).0) ==
      MoveCalls(LineNodeCalls(nodes, line, turn).0) + if nodes[n].IsMove() then 1 else 0
  {
    LineNodeCallsSnoc(nodes, line, n, turn);
    var a := LineNodeCalls(nodes, line, turn);
    var own := PutNode(nodes, n, a.1).0;
    MoveCallsConcat(a.0, own);
    HeadMoves(own);
  }

  /** The number of moves among the nodes of `line`. */
  function LineMoves(nodes: seq<Node>, line: seq<int>): nat
    requires forall k | 0 <= k < |line| :: 0 <= line[k] < |nodes|
    decreases |line|
  {
    if line == [] then 0 else LineMoves(nodes, line[..|line| - 1]) + if nodes[line[|line| - 1]].IsMove() then 1 else 0
  }

  /** The calls of a line hold one move per move of the line. */
  lemma {:induction false} LineNodeCallsMoves(nodes: seq<Node>, line: seq<int>, turn: int)
    requires forall k | 0 <= k < |line| :: 0 <= line[k] < |nodes|
    ensures MoveCalls(LineNodeCalls(nodes, line, turn).0) == LineMoves(nodes, line)
    decreases |line|
  {
    if line != [] {
      var init := line[..|line| - 1];
      assert line == init + [line[|line| - 1]];
      LineNodeCallsSnocMoves(nodes, init, line[|line| - 1], turn);
      LineNodeCallsMoves(nodes, init, turn);
    }
  }

  /** The moves on the line from the root to `n` are the move number at `n`. */
  lemma {:induction false} LineToMoves(nodes: seq<Node>, n: int)
    requires Ordered(nodes) && 0 <= n < |nodes|
    ensures LineMoves(nodes, LineTo(nodes, n)) == MoveCount(nodes, n)
    decreases n
  {
    var p := nodes[n].prev;
    var line := LineTo(nodes, n);
    if p >= 0 {
      assert line[..|line| - 1] == LineTo(nodes, p);
      LineToMoves(nodes, p);
    } else {
      assert line == [n] && line[..0] == [];
    }
  }

  /** The record of the line to `n` holds exactly as many moves as the line: the move number at `n`. */
  lemma LineCallsMoves(nodes: seq<Node>, n: int, turn: int)
    requires Ordered(nodes) && 0 <= n < |nodes|
    ensures MoveCalls(LineNodeCalls(nodes, LineTo(nodes, n), turn).0) == MoveCount(nodes, n)
  {
    LineNodeCallsMoves(nodes, LineTo(nodes, n), turn);
    LineToMoves(nodes, n);
  }

  /** The record of a line: no branch, one move per move of the line, closed by its last call. */
  lemma LineCallsShape(nodes: seq<Node>, n: int)
    requires Ordered(nodes) && 0 <= n < |nodes|
    ensures forall i | 0 <= i < |LineCalls(nodes, n)| :: !LineCalls(nodes, n)[i].BeginBranch? && !LineCalls(nodes, n)[i].EndBranch?
    ensures MoveCalls(LineCalls(nodes, n)) == MoveCount(nodes, n)
    ensures CallsRun(LineCalls(nodes, n)[..|LineCalls(nodes, n)| - 1], 0) == Some(0)
    ensures LineCalls(nodes, n)[|LineCalls(nodes, n)| - 1].EndTree?
  {
    var (calls, turn) := LineNodeCalls(nodes, LineTo(nodes, n), BLACK);
    var all := LineCalls(nodes, n);
    LineCallsMoves(nodes, n, BLACK);
    MoveCallsConcat([BeginTree(BLACK)], calls);
    MoveCallsConcat([BeginTree(BLACK)] + calls, [EndTree(turn)]);
    assert MoveCalls([BeginTree(BLACK)]) == 0 by { NoMoveCalls([BeginTree(BLACK)]); }
    assert MoveCalls([EndTree(turn)]) == 0 by { NoMoveCalls([EndTree(turn)]); }
    assert all[..|all| - 1] == [BeginTree(BLACK)] + calls;
    FlatRun(calls, 0);
    CallsRunConcat([BeginTree(BLACK)], calls, 0);
    forall i | 0 <= i < |all| ensures !all[i].BeginBranch? && !all[i].EndBranch? {
      if 0 < i < |all| - 1 {
        assert all[i] == calls[i - 1];
      }
    }
  }
}
