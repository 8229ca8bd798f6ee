/**
 * The game record and the game.  `HistoryTree` owns the node arena, the
 * current node (`pointer`) and the number of moves up to it; it pushes
 * moves, undoes and redoes them on a board, and edits branches.  `Game`
 * ties a board and a history together and keeps the finished/winner
 * flags.  The two classes call each other (undo and redo set the game's
 * flags), so they share this module.
 */
module History {
  import opened Stones
  import opened Wrappers
  import opened Strings
  import opened Rules
  import opened Boards
  import opened Changes
  import opened Diffs
  import opened Geometry
  import opened HistoryNodes

  // ----- pushing a node, on values -----

  /** A new last child of `p` recording `pos`, which becomes `p`'s redo target. */
  function AddedNode(nodes: seq<Node>, p: int, pos: int, koPosNew: int, boardUndo: Option<BoardChanges>): (r: (seq<Node>, int))
    requires 0 <= p < |nodes|
  {
    var n := |nodes|;
    (nodes[p := nodes[p].(nexts := nodes[p].nexts + [n], lastVisited := n)] + [NewNode(p, pos, koPosNew, boardUndo)], n)
  }

  /**
   * A move or resignation pushed at `p`: a child already recording `pos`
   * is reused (its undo payload replaced, and it becomes the redo target);
   * otherwise a new child is added.  A setup position (NPOS) pushes nothing.
   */
  ghost function Pushed(nodes: seq<Node>, p: int, pos: int, koPosNew: int, boardUndo: Option<BoardChanges>): (r: (seq<Node>, int))
    requires Linked(nodes) && 0 <= p < |nodes|
  {
    if pos == NPOS then (nodes, p)
    else
      var c := FindNextByPos(nodes, p, pos);
      if c >= 0 then (nodes[c := nodes[c].(boardUndo := boardUndo)][p := nodes[p].(lastVisited := c)], c)
      else AddedNode(nodes, p, pos, koPosNew, boardUndo)
  }

  /** Whether a position counts as a move for the move number: a placement or a pass. */
  predicate CountsAsMove(pos: int) {
    IsIntersectionPosition(pos) || pos == POS_PASS
  }

  /** `b` keeps the setups of `a`'s nodes, and its own extra nodes have none. */
  ghost predicate SameSetups(a: seq<Node>, b: seq<Node>) {
    |a| <= |b| && (forall i :: 0 <= i < |a| ==> b[i].setup == a[i].setup) && (forall i :: |a| <= i < |b| ==> b[i].setup.None?)
  }

  /** Links depend only on parents, positions, children and redo targets. */
  lemma LinkedTransfer(a: seq<Node>, b: seq<Node>)
    requires Linked(a) && |a| == |b|
    requires forall i :: 0 <= i < |a| ==> b[i].prev == a[i].prev && b[i].pos == a[i].pos && b[i].nexts == a[i].nexts
    requires forall i :: 0 <= i < |b| ==> b[i].lastVisited == -1 || b[i].lastVisited in b[i].nexts
    ensures Linked(b)
  {
    forall i | 0 <= i < |b| ensures NodeLinked(b, i) {
      assert NodeLinked(a, i);
    }
  }

  /** What adding a childless node `|a|` under `p`, as `p`'s last child, makes of `a`. */
  ghost predicate Appended(a: seq<Node>, b: seq<Node>, p: int) {
    && 0 <= p < |a| && |b| == |a| + 1
    && (forall i :: 0 <= i < |a| && i != p ==> b[i] == a[i])
    && b[p].prev == a[p].prev && b[p].pos == a[p].pos && b[p].nexts == a[p].nexts + [|a|]
    && (b[p].lastVisited == -1 || b[p].lastVisited in b[p].nexts)
    && b[|a|].prev == p && b[|a|].nexts == [] && b[|a|].lastVisited == -1
  }

  /** The parent keeps its links when its new child records a position none of its children do. */
  lemma AppendedParentLinked(a: seq<Node>, b: seq<Node>, p: int)
    requires Linked(a) && Appended(a, b, p)
    requires b[|a|].pos != NPOS ==> forall c :: c in a[p].nexts ==> a[c].pos != b[|a|].pos
    ensures NodeLinked(b, p)
  {
    assert NodeLinked(a, p);
    var ns := b[p].nexts;
    forall k | 0 <= k < |ns| ensures 0 <= ns[k] < |b| && b[ns[k]].prev == p {
      if k < |ns| - 1 {
        assert ns[k] == a[p].nexts[k];
      }
    }
  }

  /** Any other old node keeps its links. */
  lemma AppendedOtherLinked(a: seq<Node>, b: seq<Node>, p: int, i: int)
    requires Linked(a) && Appended(a, b, p) && 0 <= i < |a| && i != p
    ensures NodeLinked(b, i)
  {
    assert NodeLinked(a, i);
  }

  /** A new childless node `|a|` under `p`, appended to `p`'s children, keeps the tree linked. */
  lemma AppendedLinked(a: seq<Node>, b: seq<Node>, p: int)
    requires Linked(a) && Appended(a, b, p)
    requires b[|a|].pos != NPOS ==> forall c :: c in a[p].nexts ==> a[c].pos != b[|a|].pos
    ensures Linked(b)
  {
    AppendedParentLinked(a, b, p);
    forall i | 0 <= i < |a| && i != p ensures NodeLinked(b, i) {
      AppendedOtherLinked(a, b, p, i);
    }
    assert NodeLinked(b, |a|);
  }

  /**
   * Adding a child keeps the tree linked: the new node hangs under `p`,
   * is attached when `p` is, counts one more move exactly when it records
   * a placement or a pass, and the line above it is kept.
   */
  lemma AddedNodeLinked(nodes: seq<Node>, p: int, pos: int, koPosNew: int, boardUndo: Option<BoardChanges>)
    requires Linked(nodes) && 0 <= p < |nodes| && Attached(nodes, p)
    requires pos != NPOS ==> FindNextByPos(nodes, p, pos) < 0
    ensures var (b, c) := AddedNode(nodes, p, pos, koPosNew, boardUndo);
      && Linked(b) && c == |nodes| && |b| == |nodes| + 1 && Attached(b, c) && Keeps(nodes, b, p)
      && b[c].prev == p && b[c].pos == pos && b[c].boardUndo == boardUndo && b[c].nexts == []
      && b[p].lastVisited == c && c in b[p].nexts
      && MoveCount(b, c) == MoveCount(nodes, p) + (if CountsAsMove(pos) then 1 else 0)
      && SameSetups(nodes, b)
  {
    var b := AddedNode(nodes, p, pos, koPosNew, boardUndo).0;
    var c := |nodes|;
    assert b[c] == NewNode(p, pos, koPosNew, boardUndo);
    assert b[p] == nodes[p].(nexts := nodes[p].nexts + [c], lastVisited := c);
    assert Appended(nodes, b, p);
    AppendedLinked(nodes, b, p);
    assert Keeps(nodes, b, p);
    KeepsPath(nodes, b, p);
    assert c in b[p].nexts && Attached(b, p);
    assert Attached(b, c);
    assert MoveCount(b, c) == (if b[c].IsMove() then 1 else 0) + MoveCount(b, p);
    assert SameSetups(nodes, b);
  }

  /** Reusing child `c` of `p` keeps the tree linked and the line above `p`. */
  lemma ReusedNodeLinked(nodes: seq<Node>, p: int, c: int, boardUndo: Option<BoardChanges>)
    requires Linked(nodes) && 0 <= p < |nodes| && Attached(nodes, p) && c in nodes[p].nexts
    ensures var b := nodes[c := nodes[c].(boardUndo := boardUndo)][p := nodes[p].(lastVisited := c)];
      && Linked(b) && Attached(b, c) && Keeps(nodes, b, p) && SameSetups(nodes, b)
      && MoveCount(b, c) == MoveCount(nodes, p) + (if CountsAsMove(nodes[c].pos) then 1 else 0)
  {
    var b := nodes[c := nodes[c].(boardUndo := boardUndo)][p := nodes[p].(lastVisited := c)];
    ChildAbove(nodes, p, c);
    forall i | 0 <= i < |b| ensures b[i].lastVisited == -1 || b[i].lastVisited in b[i].nexts {
      assert NodeLinked(nodes, i);
    }
    LinkedTransfer(nodes, b);
    assert Keeps(nodes, b, p);
    KeepsPath(nodes, b, p);
  }

  /**
   * A push keeps the tree linked and the new current node attached; the
   * current node records `pos` under `p` with the payload given, the move
   * count rises exactly for placements and passes, the line above `p` is
   * kept, and no setup is touched.
   */
  lemma PushedLinked(nodes: seq<Node>, p: int, pos: int, koPosNew: int, boardUndo: Option<BoardChanges>)
    requires Linked(nodes) && 0 <= p < |nodes| && Attached(nodes, p)
    ensures var (b, c) := Pushed(nodes, p, pos, koPosNew, boardUndo);
      && Linked(b) && 0 <= c < |b| && Attached(b, c) && Keeps(nodes, b, p) && SameSetups(nodes, b)
      && MoveCount(b, c) == MoveCount(nodes, p) + (if CountsAsMove(pos) then 1 else 0)
      && (pos == NPOS ==> b == nodes && c == p)
      && (pos != NPOS ==> b[c].prev == p && b[c].pos == pos && b[c].boardUndo == boardUndo && c in b[p].nexts && b[p].lastVisited == c)
  {
    if pos != NPOS {
      var c := FindNextByPos(nodes, p, pos);
      if c >= 0 {
        ChildAbove(nodes, p, c);
        ReusedNodeLinked(nodes, p, c, boardUndo);
      } else {
        AddedNodeLinked(nodes, p, pos, koPosNew, boardUndo);
      }
    } else {
      assert Keeps(nodes, nodes, p);
    }
  }

  /** Re-pushing the move of the redo target lands on it, and only its payload changes. */
  lemma PushRedoTarget(nodes: seq<Node>, p: int, c: int)
    requires Linked(nodes) && 0 <= p < |nodes| && 0 <= c < |nodes| && c == nodes[p].lastVisited && nodes[c].pos != NPOS
    ensures forall ko, undo :: Pushed(nodes, p, nodes[c].pos, ko, undo) == (nodes[c := nodes[c].(boardUndo := undo)], c)
  {
    assert NodeLinked(nodes, p);
    FindsTheChild(nodes, p, c);
    ChildAbove(nodes, p, c);
    forall ko, undo ensures Pushed(nodes, p, nodes[c].pos, ko, undo) == (nodes[c := nodes[c].(boardUndo := undo)], c) {
      assert nodes[c := nodes[c].(boardUndo := undo)][p := nodes[p].(lastVisited := c)] == nodes[c := nodes[c].(boardUndo := undo)];
    }
  }

  /** A push reuses a child recording the same move: the arena does not grow. */
  lemma PushReuses(nodes: seq<Node>, p: int, c: int, koPosNew: int, boardUndo: Option<BoardChanges>)
    requires Linked(nodes) && 0 <= p < |nodes| && c in nodes[p].nexts && nodes[c].pos != NPOS
    ensures Pushed(nodes, p, nodes[c].pos, koPosNew, boardUndo).1 == c
    ensures |Pushed(nodes, p, nodes[c].pos, koPosNew, boardUndo).0| == |nodes|
  {
    FindsTheChild(nodes, p, c);
  }

  /** Pushing the same move twice from the same node lands on the same node, with no new node the second time. */
  lemma PushTwiceSameNode(nodes: seq<Node>, p: int, pos: int, ko1: int, undo1: Option<BoardChanges>, ko2: int, undo2: Option<BoardChanges>)
    requires Linked(nodes) && 0 <= p < |nodes| && Attached(nodes, p) && pos != NPOS
    ensures var (b, c) := Pushed(nodes, p, pos, ko1, undo1);
      Linked(b) && p < |b| && Pushed(b, p, pos, ko2, undo2).1 == c && |Pushed(b, p, pos, ko2, undo2).0| == |b|
  {
    PushedLinked(nodes, p, pos, ko1, undo1);
    var (b, c) := Pushed(nodes, p, pos, ko1, undo1);
    PushReuses(b, p, c, ko2, undo2);
  }

  /** A pass pushed at `p` is a second consecutive pass exactly when the last move at or above `p` is a pass. */
  lemma PassAfterPass(nodes: seq<Node>, p: int, koPosNew: int, boardUndo: Option<BoardChanges>)
    requires Linked(nodes) && 0 <= p < |nodes| && Attached(nodes, p)
    ensures var (b, c) := Pushed(nodes, p, POS_PASS, koPosNew, boardUndo);
      && Linked(b) && 0 <= c < |b|
      && (SecondConsecutivePass(b, c) <==> MoveAtOrAbove(nodes, p) >= 0 && nodes[MoveAtOrAbove(nodes, p)].IsPass())
  {
    PushedLinked(nodes, p, POS_PASS, koPosNew, boardUndo);
    var (b, c) := Pushed(nodes, p, POS_PASS, koPosNew, boardUndo);
    KeepsPath(nodes, b, p);
  }

  // ----- undo and redo, on values -----

  /** A setup difference as values: its turn change and its sorted change list. */
  datatype SetupValue = SetupValue(turn: Option<TurnChange>, changes: seq<Change>)

  ghost function ValueOf(d: BoardDiff): SetupValue
    reads d
  {
    SetupValue(d.turn, d.intersections)
  }

  /** A setup that can be applied to and taken back from a `w` by `h` board of stone states. */
  ghost predicate Fits(v: SetupValue, w: int, h: int) {
    && StrictlySorted(v.changes) && ChangesFit(w, h, v.changes)
    && forall i :: 0 <= i < |v.changes| ==> IsState(v.changes[i].oldState)
  }

  /** The board after a setup is applied: its points take their new states and the turn its new turn. */
  ghost function SetupApplied(s: BoardState, v: SetupValue): BoardState {
    s.(cells := ApplyMap(s.cells, ToMap(v.changes)), turn := ApplyTurnValue(s.turn, v.turn))
  }

  /** The board after a setup is taken back: its points return to their old states and the turn to its old turn. */
  ghost function SetupUndone(s: BoardState, v: SetupValue): BoardState {
    s.(cells := ApplyInverseMap(s.cells, ToMap(v.changes)), turn := if v.turn.Some? then v.turn.value.oldTurn else s.turn)
  }

  /** The setup as applying it to `s` leaves it: old states and old turn read from `s`. */
  ghost function CorrectedSetup(v: SetupValue, s: BoardState): SetupValue
    requires forall i :: 0 <= i < |v.changes| ==> 0 <= v.changes[i].pos < |s.cells|
  {
    SetupValue(if v.turn.Some? then Some(v.turn.value.(oldTurn := s.turn)) else None, Corrected(v.changes, s.cells))
  }

  /** Applying a setup that fits keeps the board's points to stone states. */
  lemma SetupAppliedWellFormed(s: BoardState, v: SetupValue)
    requires WellFormed(s) && Fits(v, s.w, s.h)
    ensures WellFormed(SetupApplied(s, v))
  {
    var m := ToMap(v.changes);
    var c := ApplyMap(s.cells, m);
    forall p | 0 <= p < |c| ensures IsState(c[p]) {
      if p in m {
        ToMapKeys(v.changes);
        assert p in PosSet(v.changes);
        var i :| 0 <= i < |v.changes| && v.changes[i].pos == p;
        ToMapSorted(v.changes, i);
      }
    }
  }

  /** The corrected setup fits the board it was applied to. */
  lemma CorrectedFits(s: BoardState, v: SetupValue)
    requires WellFormed(s) && Fits(v, s.w, s.h)
    ensures Fits(CorrectedSetup(v, s), s.w, s.h)
  {
    CorrectedMap(v.changes, s.cells);
  }

  /**
   * Applying a setup keeps the board well formed, the corrected setup
   * still fits, and taking the corrected setup back restores the board.
   */
  lemma SetupRoundTrip(s: BoardState, v: SetupValue)
    requires WellFormed(s) && Fits(v, s.w, s.h)
    ensures WellFormed(SetupApplied(s, v))
    ensures Fits(CorrectedSetup(v, s), s.w, s.h)
    ensures SetupUndone(SetupApplied(s, v), CorrectedSetup(v, s)) == s
  {
    SetupAppliedWellFormed(s, v);
    CorrectedFits(s, v);
    ApplyRoundTrip(s.cells, v.changes);
  }

  /**
   * What redoing the move `pos` does to the board: a placement is played
   * again when it is still legal, and otherwise only the ko point clears
   * and the turn passes (the stone is not put down); a pass passes; a
   * resignation or a setup node leaves the board as it is.
   */
  ghost function ReplayedMove(s: BoardState, pos: int): BoardState
    requires WellFormed(s)
  {
    if IsIntersectionPosition(pos) then (if IsMoveLegal(s, pos, s.turn) then Place(s, pos, s.turn) else Pass(s))
    else if pos == POS_PASS then Pass(s)
    else s
  }

  lemma ReplayedWellFormed(s: BoardState, pos: int)
    requires WellFormed(s)
    ensures WellFormed(ReplayedMove(s, pos)) && ReplayedMove(s, pos).w == s.w && ReplayedMove(s, pos).h == s.h
  {
    if IsIntersectionPosition(pos) && IsMoveLegal(s, pos, s.turn) {
      PlaceFromParts(s, pos, s.turn, CapturedSet(s.w, s.h, s.cells[pos := s.turn], s.turn, pos), Place(s, pos, s.turn));
    }
  }

  /** The board after redoing node `pos` with setup `setup`: the move replayed, then the setup applied. */
  ghost function RedoneBoard(s: BoardState, pos: int, setup: Option<SetupValue>): BoardState
    requires WellFormed(s)
  {
    var t := ReplayedMove(s, pos);
    if setup.Some? then SetupApplied(t, setup.value) else t
  }

  /** The board after undoing a node: its setup taken back, then its undo payload applied. */
  ghost function UndoneBoard(s: BoardState, boardUndo: Option<BoardChanges>, setup: Option<SetupValue>): (r: BoardState)
    requires |s.prisoners| == 2
    ensures |r.prisoners| == 2
  {
    var t := if setup.Some? then SetupUndone(s, setup.value) else s;
    if boardUndo.Some? then ApplyChanges(t, boardUndo.value) else t
  }

  /** The board with the game's finished flag and winner beside it. */
  datatype Play = Play(board: BoardState, finished: bool, winner: int)

  /** The board's state with the game's finished flag and winner. */
  ghost function PlayOf(board: Board, game: Game): Play
    reads board, game
  {
    Play(board.State(), game.finished, game.winner)
  }

  /**
   * The game after stepping back from node `n`, whose setup (as values)
   * is `setup`: at the root nothing changes; elsewhere the board is
   * undone, and a resignation or a second consecutive pass un-finishes
   * the game.
   */
  ghost function UndoneFrom(nodes: seq<Node>, n: int, setup: Option<SetupValue>, st: Play): (r: Play)
    requires Ordered(nodes) && 0 <= n < |nodes| && |st.board.prisoners| == 2
    ensures |r.board.prisoners| == 2
  {
    if nodes[n].prev < 0 then st
    else if nodes[n].IsResign() || SecondConsecutivePass(nodes, n) then
      Play(UndoneBoard(st.board, nodes[n].boardUndo, setup), false, EMPTY)
    else
      st.(board := UndoneBoard(st.board, nodes[n].boardUndo, setup))
  }

  /** Every node's setup object has a value in `values`. */
  ghost predicate Covers(nodes: seq<Node>, values: map<BoardDiff, SetupValue>) {
    forall n | 0 <= n < |nodes| && nodes[n].setup.Some? :: nodes[n].setup.value in values
  }

  /** A node's setup, its value looked up in `values`. */
  function SetupIn(values: map<BoardDiff, SetupValue>, setup: Option<BoardDiff>): Option<SetupValue>
    requires setup.Some? ==> setup.value in values
  {
    if setup.Some? then Some(values[setup.value]) else None
  }

  /**
   * The game after stepping back from `p` node by node, `values` giving
   * each setup object's value, until the node `a` or the root is reached.
   */
  ghost function UndoneTo(nodes: seq<Node>, values: map<BoardDiff, SetupValue>, p: int, a: int, st: Play): (r: Play)
    requires Ordered(nodes) && Covers(nodes, values) && 0 <= p < |nodes| && |st.board.prisoners| == 2
    ensures |r.board.prisoners| == 2
    decreases p
  {
    if p == a || nodes[p].prev < 0 then st
    else UndoneTo(nodes, values, nodes[p].prev, a, UndoneFrom(nodes, p, SetupIn(values, nodes[p].setup), st))
  }

  /** The value of every setup object the arena holds. */
  ghost function SetupMap(nodes: seq<Node>): (r: map<BoardDiff, SetupValue>)
    reads SetupsOf(nodes)
    ensures r.Keys == SetupsOf(nodes) && Covers(nodes, r)
  {
    var r := map e | e in SetupsOf(nodes) :: ValueOf(e);
    assert forall n | 0 <= n < |nodes| && nodes[n].setup.Some? :: nodes[n].setup.value in SetupsOf(nodes);
    r
  }

  /** Arenas with the same setup objects give them the same values. */
  lemma SameSetupMap(n1: seq<Node>, n2: seq<Node>)
    requires SetupsOf(n1) == SetupsOf(n2)
    ensures SetupMap(n1) == SetupMap(n2)
  {
  }

  /** `after` is `before` corrected to the board `s` it was applied to (no setup stays no setup). */
  ghost predicate SetupCorrected(after: Option<SetupValue>, before: Option<SetupValue>, s: BoardState) {
    if before.Some? then
      && (forall i :: 0 <= i < |before.value.changes| ==> 0 <= before.value.changes[i].pos < |s.cells|)
      && after == Some(CorrectedSetup(before.value, s))
    else after.None?
  }

  /** The undo payload a redo leaves on a node takes the replayed board back to the board before it. */
  ghost predicate PayloadUndoes(s: BoardState, pos: int, boardUndo: Option<BoardChanges>)
    requires WellFormed(s)
  {
    if boardUndo.Some? then ApplyChanges(ReplayedMove(s, pos), boardUndo.value) == s else ReplayedMove(s, pos) == s
  }

  /**
   * Undo after redo restores the board: the payload takes the replayed
   * move back once the corrected setup has been taken back.
   */
  lemma RedoThenUndoRestores(s: BoardState, pos: int, setup: Option<SetupValue>, after: Option<SetupValue>, boardUndo: Option<BoardChanges>)
    requires WellFormed(s) && (setup.Some? ==> Fits(setup.value, s.w, s.h))
    requires PayloadUndoes(s, pos, boardUndo) && SetupCorrected(after, setup, ReplayedMove(s, pos))
    ensures WellFormed(RedoneBoard(s, pos, setup))
    ensures UndoneBoard(RedoneBoard(s, pos, setup), boardUndo, after) == s
  {
    ReplayedWellFormed(s, pos);
    if setup.Some? {
      SetupRoundTrip(ReplayedMove(s, pos), setup.value);
    }
  }

  /** A placement that stays legal, or a pass, is undone by the payload the board records for it. */
  lemma RecordedPayloadUndoes(s: BoardState, pos: int, removed: seq<int>)
    requires WellFormed(s)
    requires IsIntersectionPosition(pos) && IsMoveLegal(s, pos, s.turn)
    requires Distinct(removed) && Elems(removed) == CapturedSet(s.w, s.h, s.cells[pos := s.turn], s.turn, pos)
    ensures PayloadUndoes(s, pos, Some(CreateUndoMove(s.turn, pos, removed, s.koPos)))
  {
    UndoPlacementRestores(s, pos, s.turn, removed);
  }

  /** The setup objects the nodes of an arena hold. */
  ghost function SetupsOf(nodes: seq<Node>): set<BoardDiff> {
    set i | 0 <= i < |nodes| && nodes[i].setup.Some? :: nodes[i].setup.value
  }

  /** Every setup of the arena can be applied to and taken back from a `w` by `h` board. */
  ghost predicate SetupsFit(nodes: seq<Node>, w: int, h: int)
    reads SetupsOf(nodes)
  {
    forall d :: d in SetupsOf(nodes) ==> Fits(ValueOf(d), w, h)
  }

  /** A node's setup, as values. */
  ghost function SetupValueOf(setup: Option<BoardDiff>): Option<SetupValue>
    reads if setup.Some? then {setup.value} else {}
  {
    if setup.Some? then Some(ValueOf(setup.value)) else None
  }

  lemma SameSetupsOf(a: seq<Node>, b: seq<Node>)
    requires SameSetups(a, b)
    ensures SetupsOf(a) == SetupsOf(b)
  {
    forall d | d in SetupsOf(b) ensures d in SetupsOf(a) {
      var i :| 0 <= i < |b| && b[i].setup.Some? && b[i].setup.value == d;
    }
  }

  // ----- editing the current node's children, on values -----

  /** Two equal entries of `t` make its multiplicity at least two. */
  lemma PairCount(t: seq<int>, k: int, l: int)
    requires 0 <= k < l < |t|
    ensures t[k] == t[l] ==> multiset(t)[t[k]] >= 2
  {
    assert t == t[..l] + [t[l]] + t[l + 1..];
    assert t[k] in t[..l];
  }

  /** A list without repeats holds each value at most once. */
  lemma {:induction false} AtMostOnce(s: seq<int>, x: int)
    requires forall k, l :: 0 <= k < l < |s| ==> s[k] != s[l]
    ensures multiset(s)[x] <= 1
  {
    if s != [] {
      var init := s[..|s| - 1];
      assert s == init + [s[|s| - 1]];
      AtMostOnce(init, x);
      assert s[|s| - 1] == x ==> x !in init;
    }
  }

  /** Taking entries out of a list without repeats leaves a list without repeats. */
  lemma FewerDistinct(s: seq<int>, t: seq<int>)
    requires forall k, l :: 0 <= k < l < |s| ==> s[k] != s[l]
    requires multiset(t) <= multiset(s)
    ensures forall k, l :: 0 <= k < l < |t| ==> t[k] != t[l]
  {
    forall k, l | 0 <= k < l < |t| ensures t[k] != t[l] {
      PairCount(t, k, l);
      AtMostOnce(s, t[k]);
    }
  }

  /** The entries of a sub-multiset are entries of the larger list. */
  lemma FewerEntries(s: seq<int>, t: seq<int>)
    requires multiset(t) <= multiset(s)
    ensures forall x :: x in t ==> x in s
  {
    forall x | x in t ensures x in s {
      assert multiset(t)[x] > 0;
    }
  }

  /** What the lemmas below assume: node `p` loses children (or has them reordered) and nothing else changes. */
  ghost predicate FewerChildren(a: seq<Node>, b: seq<Node>, p: int) {
    && |a| == |b| && 0 <= p < |a|
    && (forall i :: 0 <= i < |a| && i != p ==> b[i] == a[i])
    && b[p].prev == a[p].prev && b[p].pos == a[p].pos
    && multiset(b[p].nexts) <= multiset(a[p].nexts)
    && (b[p].lastVisited == -1 || b[p].lastVisited in b[p].nexts)
  }

  lemma FewerChildrenParent(a: seq<Node>, b: seq<Node>, p: int)
    requires Linked(a) && FewerChildren(a, b, p)
    ensures NodeLinked(b, p)
  {
    FewerEntries(a[p].nexts, b[p].nexts);
    assert NodeLinked(a, p);
    FewerDistinct(a[p].nexts, b[p].nexts);
    forall k | 0 <= k < |b[p].nexts| ensures 0 <= b[p].nexts[k] < |b| && b[b[p].nexts[k]].prev == p {
      var x := b[p].nexts[k];
      assert x in b[p].nexts;
      assert x in a[p].nexts;
      var j :| 0 <= j < |a[p].nexts| && a[p].nexts[j] == x;
      assert 0 <= x < |a| && a[x].prev == p;
    }
  }

  lemma FewerChildrenOther(a: seq<Node>, b: seq<Node>, p: int, i: int)
    requires Linked(a) && FewerChildren(a, b, p) && 0 <= i < |b| && i != p
    ensures NodeLinked(b, i)
  {
    assert NodeLinked(a, i);
  }

  /**
   * Node `p` loses children (or has them reordered) and nothing else about
   * the tree changes: the arena stays linked, and every node keeps its
   * parent and position.
   */
  lemma FewerChildrenLinked(a: seq<Node>, b: seq<Node>, p: int)
    requires Linked(a) && FewerChildren(a, b, p)
    ensures Linked(b) && Keeps(a, b, p)
    ensures forall i :: 0 <= i < |b| ==> b[i].prev == a[i].prev && b[i].pos == a[i].pos
  {
    FewerEntries(a[p].nexts, b[p].nexts);
    FewerChildrenParent(a, b, p);
    forall i | 0 <= i < |b| && i != p ensures NodeLinked(b, i) {
      FewerChildrenOther(a, b, p, i);
    }
  }

  /** Deleting branch `child` of node `p` keeps the arena linked and takes exactly `child` out of `p`'s children. */
  lemma DeleteNextLinked(nodes: seq<Node>, p: int, child: int)
    requires Linked(nodes) && 0 <= p < |nodes|
    ensures var b := nodes[p := nodes[p].DeleteNext(child)];
      && Linked(b) && Keeps(nodes, b, p)
      && child !in b[p].nexts
      && forall c :: c in nodes[p].nexts && c != child ==> c in b[p].nexts
  {
    var b := nodes[p := nodes[p].DeleteNext(child)];
    assert NodeLinked(nodes, p);
    if child in nodes[p].nexts {
      var n := nodes[p];
      forall c | c in n.nexts ensures (c in b[p].nexts <==> c != child) {
        AtMostOnce(n.nexts, c);
        assert multiset(n.nexts)[c] >= 1;
      }
      assert b[p].lastVisited == -1 || b[p].lastVisited in b[p].nexts;
      FewerChildrenLinked(nodes, b, p);
    } else {
      FewerChildrenLinked(nodes, b, p);
    }
  }

  /** Reordering the children of node `p` keeps the arena linked and keeps the same children. */
  lemma ChangeNextOrderLinked(nodes: seq<Node>, p: int, child: int, delta: int)
    requires Linked(nodes) && 0 <= p < |nodes|
    ensures var b := nodes[p := nodes[p].ChangeNextOrder(child, delta)];
      && Linked(b) && Keeps(nodes, b, p)
      && multiset(b[p].nexts) == multiset(nodes[p].nexts)
  {
    var b := nodes[p := nodes[p].ChangeNextOrder(child, delta)];
    assert NodeLinked(nodes, p);
    assert b[p].lastVisited in nodes[p].nexts ==> multiset(nodes[p].nexts)[b[p].lastVisited] > 0;
    FewerChildrenLinked(nodes, b, p);
  }

  /** A change to a node's comment or properties keeps the arena linked and every line of play. */
  lemma AnnotatedLinked(nodes: seq<Node>, p: int, n: Node)
    requires Linked(nodes) && 0 <= p < |nodes|
    requires n.(comment := nodes[p].comment, props := nodes[p].props) == nodes[p]
    ensures var b := nodes[p := n]; Linked(b) && Keeps(nodes, b, p) && SameSetups(nodes, b)
  {
    var b := nodes[p := n];
    forall i | 0 <= i < |b| ensures b[i].lastVisited == -1 || b[i].lastVisited in b[i].nexts {
      assert NodeLinked(nodes, i);
    }
    LinkedTransfer(nodes, b);
  }

  /** A change to a node's setup keeps the arena linked and every line of play. */
  lemma SetupReplacedLinked(nodes: seq<Node>, p: int, n: Node)
    requires Linked(nodes) && 0 <= p < |nodes|
    requires n.(setup := nodes[p].setup) == nodes[p]
    ensures var b := nodes[p := n]; Linked(b) && Keeps(nodes, b, p)
  {
    var b := nodes[p := n];
    forall i | 0 <= i < |b| ensures b[i].lastVisited == -1 || b[i].lastVisited in b[i].nexts {
      assert NodeLinked(nodes, i);
    }
    LinkedTransfer(nodes, b);
  }

  /** Giving a node without a setup the setup `d` adds `d` to the arena's setups. */
  lemma SetupsOfReplaced(nodes: seq<Node>, p: int, d: BoardDiff)
    requires 0 <= p < |nodes| && nodes[p].setup.None?
    ensures SetupsOf(nodes[p := nodes[p].(setup := Some(d))]) == SetupsOf(nodes) + {d}
  {
    var b := nodes[p := nodes[p].(setup := Some(d))];
    assert d in SetupsOf(b) by {
      assert b[p].setup == Some(d);
    }
    forall e | e in SetupsOf(nodes) ensures e in SetupsOf(b) {
      var i :| 0 <= i < |nodes| && nodes[i].setup.Some? && nodes[i].setup.value == e;
      assert b[i] == nodes[i];
    }
    forall e | e in SetupsOf(b) ensures e in SetupsOf(nodes) + {d} {
      var i :| 0 <= i < |b| && b[i].setup.Some? && b[i].setup.value == e;
      if i != p {
        assert b[i] == nodes[i];
      }
    }
  }

  // ----- walks the navigation methods take -----

  /** The end of the redo targets from `a`: a node without one. */
  ghost function RedoEnd(nodes: seq<Node>, a: int): (r: int)
    requires Linked(nodes) && 0 <= a < |nodes|
    ensures 0 <= r < |nodes| && nodes[r].lastVisited < 0 && IsAncestor(nodes, a, r)
    decreases |nodes| - a
  {
    if nodes[a].lastVisited < 0 then a
    else
      assert NodeLinked(nodes, a);
      var c := nodes[a].lastVisited;
      ChildAbove(nodes, a, c);
      var r := RedoEnd(nodes, c);
      AncestorTrans(nodes, a, c, r);
      r
  }

  /** `b` differs from `a` at most in redo targets and undo payloads. */
  ghost predicate SameTree(a: seq<Node>, b: seq<Node>) {
    |a| == |b| && forall i :: 0 <= i < |a| ==> b[i] == a[i].(lastVisited := b[i].lastVisited, boardUndo := b[i].boardUndo)
  }

  /** A new undo payload at one node keeps the tree and its redo targets. */
  lemma SameTreeNewPayload(a: seq<Node>, b: seq<Node>, p: int, u: Option<BoardChanges>)
    requires SameTree(a, b) && 0 <= p < |b|
    ensures SameTree(a, b[p := b[p].(boardUndo := u)])
    ensures forall i :: 0 <= i < |b| ==> b[p := b[p].(boardUndo := u)][i].lastVisited == b[i].lastVisited
  {
    var c := b[p := b[p].(boardUndo := u)];
    forall i | 0 <= i < |c| ensures c[i] == a[i].(lastVisited := c[i].lastVisited, boardUndo := c[i].boardUndo) {
      assert b[i] == a[i].(lastVisited := b[i].lastVisited, boardUndo := b[i].boardUndo);
    }
  }

  /** `b` differs from `a` at most in redo targets. */
  ghost predicate Retargeted(a: seq<Node>, b: seq<Node>) {
    |a| == |b| && forall i :: 0 <= i < |a| ==> b[i] == a[i].(lastVisited := b[i].lastVisited)
  }

  /**
   * `b` is `a` with the redo targets pointed along the line from `node`
   * down to `d`: the walk from `node` is that line, and no other redo
   * target has changed.
   */
  ghost predicate Pointed(a: seq<Node>, b: seq<Node>, node: int, d: int)
    requires Linked(a) && 0 <= node < |a| && 0 <= d < |a|
  {
    && Linked(b) && Retargeted(a, b) && IsAncestor(a, node, d)
    && Follows(b, node, Line(a, node, d))
    && forall i :: 0 <= i < |b| && !(i == node && node != d) && !(i in Line(a, node, d) && i != d) ==>
      b[i].lastVisited == a[i].lastVisited
  }

  /**
   * Pointing the parent `p` of an attached `node` at it keeps the arena
   * linked and makes the walk from `p` the line from `p` down to `d`;
   * the redo targets changed so far are those of the nodes on that line
   * above `d`.
   */
  lemma PointRedoTarget(a: seq<Node>, b: seq<Node>, node: int, d: int)
    requires Linked(a) && 0 <= node < |a| && 0 <= d < |a| && Pointed(a, b, node, d)
    requires a[node].prev >= 0 && node in a[a[node].prev].nexts
    ensures var p := a[node].prev; Pointed(a, b[p := b[p].(lastVisited := node)], p, d)
  {
    var p := a[node].prev;
    var c := b[p := b[p].(lastVisited := node)];
    PointLinked(a, b, p, node);
    AncestorBelow(a, node, d);
    LineFirst(a, p, node, d);
    var line := Line(a, node, d);
    FollowsFrame(b, c, node, line);
    assert ([node] + line)[1..] == line;
    assert Follows(c, p, Line(a, p, d));
    forall i | 0 <= i < |c| && !(i == p && p != d) && !(i in Line(a, p, d) && i != d)
      ensures c[i].lastVisited == a[i].lastVisited
    {
      assert i != p && !(i in line && i != d) && !(i == node && node != d);
    }
  }

  /** Pointing `p`'s redo target at one of its children keeps the arena linked and changes only a redo target. */
  lemma PointLinked(a: seq<Node>, b: seq<Node>, p: int, node: int)
    requires Linked(b) && Retargeted(a, b) && 0 <= p < |b| && node in b[p].nexts
    ensures var c := b[p := b[p].(lastVisited := node)]; Linked(c) && Retargeted(a, c)
  {
    var c := b[p := b[p].(lastVisited := node)];
    forall i | 0 <= i < |c| ensures c[i].lastVisited == -1 || c[i].lastVisited in c[i].nexts {
      assert NodeLinked(b, i);
    }
    LinkedTransfer(b, c);
  }

  /** Changing only redo targets keeps the line to `n` and every setup and payload. */
  lemma RetargetedKeeps(a: seq<Node>, b: seq<Node>, n: int)
    requires Linked(a) && Linked(b) && Retargeted(a, b) && 0 <= n < |a| && Attached(a, n)
    ensures SameTree(a, b) && SameSetups(a, b) && Attached(b, n) && MoveCount(b, n) == MoveCount(a, n)
    ensures forall i :: 0 <= i < |b| ==> b[i].boardUndo == a[i].boardUndo
  {
    assert Keeps(a, b, n);
    KeepsPath(a, b, n);
  }

  /** The nearest node at or above `m` recording `pos`, or -1: below it, no node on the line records `pos`. */
  ghost function NearestWithPos(nodes: seq<Node>, m: int, pos: int): (r: int)
    requires Ordered(nodes) && -1 <= m < |nodes|
    ensures -1 <= r <= m
    ensures r >= 0 ==> nodes[r].pos == pos && IsAncestor(nodes, r, m)
    ensures forall x :: 0 <= x < |nodes| && IsAncestor(nodes, x, m) && nodes[x].pos == pos ==> r >= 0 && IsAncestor(nodes, x, r)
    decreases m + 1
  {
    if m < 0 then -1
    else if nodes[m].pos == pos then m
    else NearestWithPos(nodes, nodes[m].prev, pos)
  }

  // ----- redoing along a walk, on values -----

  /** `path` follows redo targets from `a`: each node on it is the redo target of the node before. */
  ghost predicate Follows(nodes: seq<Node>, a: int, path: seq<int>)
    requires 0 <= a < |nodes|
    decreases |path|
  {
    |path| == 0 || (0 <= path[0] < |nodes| && path[0] == nodes[a].lastVisited && Follows(nodes, path[0], path[1..]))
  }

  /** A walk along redo targets goes down the tree: every node on it lies below `a`, each further down than the one before. */
  lemma {:induction false} FollowsDown(nodes: seq<Node>, a: int, path: seq<int>)
    requires Linked(nodes) && 0 <= a < |nodes| && Follows(nodes, a, path)
    ensures forall k :: 0 <= k < |path| ==> a < path[k] < |nodes|
    ensures forall i, j :: 0 <= i < j < |path| ==> path[i] < path[j]
    decreases |path|
  {
    if |path| > 0 {
      assert NodeLinked(nodes, a);
      ChildAbove(nodes, a, path[0]);
      FollowsDown(nodes, path[0], path[1..]);
      assert forall k :: 1 <= k < |path| ==> path[k] == path[1..][k - 1];
    }
  }

  /** A walk along redo targets that is not over yet still has its last node below. */
  lemma FollowsToLast(nodes: seq<Node>, a: int, path: seq<int>, k: int)
    requires Linked(nodes) && 0 <= a < |nodes| && 0 <= k < |path| && Follows(nodes, a, path[k..])
    ensures a < path[|path| - 1]
  {
    FollowsDown(nodes, a, path[k..]);
    assert path[k..][|path| - 1 - k] == path[|path| - 1];
  }

  /** A walk along redo targets only looks at the redo targets of `x` and of the nodes on it. */
  lemma {:induction false} FollowsFrame(a: seq<Node>, b: seq<Node>, x: int, path: seq<int>)
    requires 0 <= x < |a| == |b| && Follows(a, x, path) && b[x].lastVisited == a[x].lastVisited
    requires forall k :: 0 <= k < |path| ==> 0 <= path[k] < |a| && b[path[k]].lastVisited == a[path[k]].lastVisited
    ensures Follows(b, x, path)
    decreases |path|
  {
    if |path| > 0 {
      assert forall k :: 0 <= k < |path| - 1 ==> path[1..][k] == path[k + 1];
      FollowsFrame(a, b, path[0], path[1..]);
    }
  }

  /** The walk along redo targets from `a` to the node without one where it ends. */
  ghost function RedoPath(nodes: seq<Node>, a: int): (r: seq<int>)
    requires Linked(nodes) && 0 <= a < |nodes|
    ensures Follows(nodes, a, r) && (if |r| == 0 then a else r[|r| - 1]) == RedoEnd(nodes, a)
    ensures |r| == 0 <==> nodes[a].lastVisited < 0
    ensures forall k :: 0 <= k < |r| ==> a < r[k] < |nodes|
    decreases |nodes| - a
  {
    if nodes[a].lastVisited < 0 then []
    else
      assert NodeLinked(nodes, a);
      ChildAbove(nodes, a, nodes[a].lastVisited);
      [nodes[a].lastVisited] + RedoPath(nodes, nodes[a].lastVisited)
  }

  /** The nodes from below `a` down to its descendant `d`, in order. */
  ghost function Line(nodes: seq<Node>, a: int, d: int): (r: seq<int>)
    requires Ordered(nodes) && 0 <= d < |nodes| && IsAncestor(nodes, a, d)
    ensures forall k :: 0 <= k < |r| ==> a < r[k] <= d
    ensures if |r| == 0 then a == d else r[|r| - 1] == d
    decreases d
  {
    if a == d then []
    else
      AncestorBelow(nodes, a, d);
      Line(nodes, a, nodes[d].prev) + [d]
  }

  /** The line from `a` down to `d` starts with the child `c` of `a` that `d` lies below. */
  lemma {:induction false} LineFirst(nodes: seq<Node>, a: int, c: int, d: int)
    requires Ordered(nodes) && 0 <= a && 0 <= c < |nodes| && 0 <= d < |nodes|
    requires nodes[c].prev == a && IsAncestor(nodes, c, d)
    ensures IsAncestor(nodes, a, d) && Line(nodes, a, d) == [c] + Line(nodes, c, d)
    decreases d
  {
    assert IsAncestor(nodes, a, c);
    AncestorTrans(nodes, a, c, d);
    AncestorBelow(nodes, c, d);
    if c != d {
      LineFirst(nodes, a, c, nodes[d].prev);
    }
  }

  /** Trees that differ only in redo targets and undo payloads see the same moves above every node. */
  lemma {:induction false} SameTreeMoves(a: seq<Node>, b: seq<Node>, m: int)
    requires Ordered(a) && SameTree(a, b) && -1 <= m < |a|
    ensures Ordered(b) && MoveAtOrAbove(a, m) == MoveAtOrAbove(b, m)
    decreases m + 1
  {
    assert forall i :: 0 <= i < |a| ==> b[i].prev == a[i].prev && b[i].pos == a[i].pos;
    if m >= 0 {
      SameTreeMoves(a, b, a[m].prev);
    }
  }

  /** Node `c` can be redone on `s` with setup values `values`: the board is well formed, and the setup has a value that fits it. */
  ghost predicate Redoable(nodes: seq<Node>, values: map<BoardDiff, SetupValue>, c: int, s: BoardState)
    requires 0 <= c < |nodes|
  {
    && WellFormed(s)
    && (nodes[c].setup.Some? ==> nodes[c].setup.value in values && Fits(values[nodes[c].setup.value], s.w, s.h))
  }

  /** The setup part of a redo, on values: the setup applied to `t`, and its value corrected to `t`. */
  ghost function SetupStep(values: map<BoardDiff, SetupValue>, setup: Option<BoardDiff>, t: BoardState): (r: (BoardState, map<BoardDiff, SetupValue>))
    requires WellFormed(t) && (setup.Some? ==> setup.value in values && Fits(values[setup.value], t.w, t.h))
    ensures WellFormed(r.0) && r.0.w == t.w && r.0.h == t.h && r.1.Keys == values.Keys
  {
    if setup.Some? then
      SetupAppliedWellFormed(t, values[setup.value]);
      (SetupApplied(t, values[setup.value]), values[setup.value := CorrectedSetup(values[setup.value], t)])
    else (t, values)
  }

  /**
   * The setup step applies the setup and corrects it to the board it was
   * applied to, so that taking the corrected setup back restores that
   * board; every other setup keeps its value.
   */
  lemma SetupStepCorrects(values: map<BoardDiff, SetupValue>, setup: Option<BoardDiff>, t: BoardState)
    requires WellFormed(t) && (setup.Some? ==> setup.value in values && Fits(values[setup.value], t.w, t.h))
    ensures var r := SetupStep(values, setup, t);
      && r.0 == (if setup.Some? then SetupApplied(t, values[setup.value]) else t)
      && SetupCorrected(SetupIn(r.1, setup), SetupIn(values, setup), t)
      && (setup.Some? ==> SetupUndone(r.0, r.1[setup.value]) == t)
      && forall e :: e in values && (setup.None? || e != setup.value) ==> r.1[e] == values[e]
  {
    if setup.Some? {
      SetupRoundTrip(t, values[setup.value]);
    }
  }

  /**
   * The game part of a redo to node `c` that left the board `b`: a
   * resignation finishes the game with the player to move as the winner,
   * a second consecutive pass finishes it drawn, anything else keeps it.
   */
  ghost function Finished(nodes: seq<Node>, c: int, st: Play, b: BoardState): Play
    requires Ordered(nodes) && 0 <= c < |nodes|
  {
    if nodes[c].IsResign() then Play(b, true, GetOppositeColor(b.turn))
    else if SecondConsecutivePass(nodes, c) then Play(b, true, EMPTY)
    else st.(board := b)
  }

  /** One redo to node `c`, on values: the move replayed, then the setup step, then the game step. */
  ghost function RedoStep(nodes: seq<Node>, values: map<BoardDiff, SetupValue>, c: int, st: Play): (r: (Play, map<BoardDiff, SetupValue>))
    requires Ordered(nodes) && 0 <= c < |nodes| && Redoable(nodes, values, c, st.board)
    ensures WellFormed(r.0.board) && r.0.board.w == st.board.w && r.0.board.h == st.board.h && r.1.Keys == values.Keys
  {
    ReplayedWellFormed(st.board, nodes[c].pos);
    var step := SetupStep(values, nodes[c].setup, ReplayedMove(st.board, nodes[c].pos));
    (Finished(nodes, c, st, step.0), step.1)
  }

  /** The board a redo step leaves is the redone board. */
  lemma RedoStepBoard(nodes: seq<Node>, values: map<BoardDiff, SetupValue>, c: int, st: Play)
    requires Ordered(nodes) && 0 <= c < |nodes| && Redoable(nodes, values, c, st.board)
    ensures RedoStep(nodes, values, c, st).0.board == RedoneBoard(st.board, nodes[c].pos, SetupIn(values, nodes[c].setup))
  {
  }

  /** Trees that differ only in redo targets and undo payloads redo each node alike. */
  lemma RedoStepSameTree(a: seq<Node>, b: seq<Node>, values: map<BoardDiff, SetupValue>, c: int, st: Play)
    requires Ordered(a) && SameTree(a, b) && 0 <= c < |a| && Redoable(a, values, c, st.board)
    ensures Ordered(b) && Redoable(b, values, c, st.board) && RedoStep(b, values, c, st) == RedoStep(a, values, c, st)
  {
    assert b[c] == a[c].(lastVisited := b[c].lastVisited, boardUndo := b[c].boardUndo);
    SameTreeMoves(a, b, a[c].prev);
  }

  /** A redo step is the replayed move, then the setup step on the replayed board, then the game step. */
  lemma RedoStepOf(nodes0: seq<Node>, nodes: seq<Node>, values: map<BoardDiff, SetupValue>, c: int, st: Play, t: BoardState)
    requires Ordered(nodes0) && SameTree(nodes0, nodes) && 0 <= c < |nodes0| && Redoable(nodes0, values, c, st.board)
    requires t == ReplayedMove(st.board, nodes0[c].pos)
    ensures Ordered(nodes) && WellFormed(t) && (nodes[c].setup.Some? ==> nodes[c].setup.value in values && Fits(values[nodes[c].setup.value], t.w, t.h))
    ensures var step := SetupStep(values, nodes[c].setup, t);
      (Finished(nodes, c, Play(t, st.finished, st.winner), step.0), step.1) == RedoStep(nodes0, values, c, st)
  {
    RedoStepSameTree(nodes0, nodes, values, c, st);
    ReplayedWellFormed(st.board, nodes0[c].pos);
  }

  /**
   * One redo along `path` at its node `k`, from the arena `prior` at its
   * node `p` to `nodes`, keeps the fold over the rest of the walk and
   * adds the redone node's payload.
   */
  lemma RedoOnPathStep(tree0: seq<Node>, prior: seq<Node>, nodes: seq<Node>, path: seq<int>, k: int, from: seq<BoardState>,
                       p: int, values: map<BoardDiff, SetupValue>, after: map<BoardDiff, SetupValue>, st: Play, now: Play)
    requires Ordered(tree0) && Ordered(prior) && SameTree(tree0, prior) && 0 <= p < |prior|
    requires forall i :: 0 <= i < |path| ==> 0 <= path[i] < |tree0|
    requires Walked(prior, p, path, k, from) && k < |path|
    requires |nodes| == |prior| && nodes == prior[path[k] := prior[path[k]].(boardUndo := nodes[path[k]].boardUndo)] && p < path[k]
    requires Redoable(prior, values, path[k], st.board) && (now, after) == RedoStep(prior, values, path[k], st)
    requires nodes[path[k]].IsMove() ==> PayloadUndoes(st.board, nodes[path[k]].pos, nodes[path[k]].boardUndo)
    ensures SameTree(tree0, nodes) && SameSetups(prior, nodes)
    ensures Walked(nodes, path[k], path, k + 1, from + [st.board])
    ensures RedoneOver(tree0, after, path[k + 1..], now, from + [st.board]) == RedoneOver(tree0, values, path[k..], st, from)
  {
    var c := path[k];
    assert path[k..][0] == c && path[k..][1..] == path[k + 1..];
    assert prior[c].setup == tree0[c].setup;
    RedoStepSameTree(tree0, prior, values, c, st);
    SameTreeNewPayload(tree0, prior, c, nodes[c].boardUndo);
    WalkedStep(prior, nodes, p, path, k, from, st.board);
  }

  /** Redoing the next node of a walk, its new payload taking back the board `b`, goes one node further along it. */
  lemma WalkedStep(prior: seq<Node>, nodes: seq<Node>, p: int, path: seq<int>, k: int, from: seq<BoardState>, b: BoardState)
    requires 0 <= p < |prior| && forall i :: 0 <= i < |path| ==> 0 <= path[i] < |prior|
    requires Walked(prior, p, path, k, from) && k < |path| && WellFormed(b)
    requires |nodes| == |prior| && nodes == prior[path[k] := prior[path[k]].(boardUndo := nodes[path[k]].boardUndo)] && p < path[k]
    requires nodes[path[k]].IsMove() ==> PayloadUndoes(b, nodes[path[k]].pos, nodes[path[k]].boardUndo)
    ensures Walked(nodes, path[k], path, k + 1, from + [b])
  {
    var c := path[k];
    assert path[k..][0] == c && path[k..][1..] == path[k + 1..];
    FollowsFrame(prior, nodes, c, path[k + 1..]);
  }

  /** What redoing along a walk gives: the game, the setup values, and the board each node was redone from. */
  datatype Redone = Redone(play: Play, values: map<BoardDiff, SetupValue>, from: seq<BoardState>)

  /**
   * Redoing node by node along `path` from the game `st`, `values` giving
   * each setup object's value; `from` collects the boards redone from.  A
   * node that cannot be redone stops the walk.
   */
  ghost function RedoneOver(nodes: seq<Node>, values: map<BoardDiff, SetupValue>, path: seq<int>, st: Play, from: seq<BoardState>): Redone
    requires Ordered(nodes)
    decreases |path|
  {
    if |path| == 0 || !(0 <= path[0] < |nodes|) || !Redoable(nodes, values, path[0], st.board) then Redone(st, values, from)
    else
      var step := RedoStep(nodes, values, path[0], st);
      RedoneOver(nodes, step.1, path[1..], step.0, from + [st.board])
  }

  /**
   * Redoing along `path` of `tree` from the game `st` with setup values
   * `values` redoes every node on it and ends in the game `now` with setup
   * values `after`; each move's undo payload in `nodes` takes the board
   * it was replayed on back.
   */
  ghost predicate RedoneAs(tree: seq<Node>, values: map<BoardDiff, SetupValue>, path: seq<int>, st: Play,
                           now: Play, after: map<BoardDiff, SetupValue>, nodes: seq<Node>)
    requires Ordered(tree) && |nodes| == |tree| && forall k :: 0 <= k < |path| ==> 0 <= path[k] < |tree|
  {
    var g := RedoneOver(tree, values, path, st, []);
    g.play == now && g.values == after && |g.from| == |path| && PayloadsUndo(nodes, path, g.from, |path|)
  }

  /**
   * Halfway along `path`: its first `k` nodes are redone from the boards
   * in `from`, the walk goes on from `p` along redo targets, and no node
   * passed lies below `p`.
   */
  ghost predicate Walked(nodes: seq<Node>, p: int, path: seq<int>, k: int, from: seq<BoardState>)
    requires 0 <= p < |nodes| && forall j :: 0 <= j < |path| ==> 0 <= path[j] < |nodes|
  {
    0 <= k <= |path| && |from| == k && Follows(nodes, p, path[k..])
    && (forall j :: 0 <= j < k ==> path[j] <= p) && PayloadsUndo(nodes, path, from, k)
  }

  /** The first `k` nodes on `path` that are moves carry payloads taking back the boards in `from` they were redone from. */
  ghost predicate PayloadsUndo(nodes: seq<Node>, path: seq<int>, from: seq<BoardState>, k: int)
    requires 0 <= k <= |path| && k <= |from| && forall j :: 0 <= j < |path| ==> 0 <= path[j] < |nodes|
  {
    forall j :: 0 <= j < k ==>
      WellFormed(from[j]) && (nodes[path[j]].IsMove() ==> PayloadUndoes(from[j], nodes[path[j]].pos, nodes[path[j]].boardUndo))
  }

  // ----- the board's move methods with a history to record in -----

  /**
   * A placement recorded in the history: the board plays the stone by the
   * rules; when the move is legal the history pushes it with a payload
   * that takes the new board back to the old one.  An illegal move changes
   * nothing.
   */
  method PutStoneRecorded(board: Board, pos: int, color: int, history: HistoryTree) returns (ok: bool)
    requires board.Valid() && history.Valid()
    modifies board, board.intersections, history
    ensures board.Valid() && history.Valid() && board.intersections == old(board.intersections)
    ensures ok == IsMoveLegal(old(board.State()), pos, color)
    ensures board.State() == Rules.PutStone(old(board.State()), pos, color)
    ensures !ok ==> history.nodes == old(history.nodes) && history.pointer == old(history.pointer) && history.moveNumber == old(history.moveNumber)
    ensures ok ==> history.moveNumber == old(history.moveNumber) + 1 && history.nodes[history.pointer].boardUndo.Some?
    ensures ok ==> (history.nodes, history.pointer) == Pushed(old(history.nodes), old(history.pointer), pos, board.koPos, history.nodes[history.pointer].boardUndo)
    ensures ok ==> ApplyChanges(board.State(), history.nodes[history.pointer].boardUndo.value) == old(board.State())
    ensures Keeps(old(history.nodes), history.nodes, old(history.pointer)) && SameSetups(old(history.nodes), history.nodes)
  {
    ghost var s := board.State();
    var removed, koPosOld, turnOld;
    ok, removed, koPosOld, turnOld := board.PutStone(pos, color);
    if ok {
      UndoPlacementRestores(s, pos, color, removed);
      var undo := CreateUndoMove(turnOld, pos, removed, koPosOld);
      assert ApplyChanges(board.State(), undo) == s;
      history.PushPlace(pos, removed, koPosOld, board.koPos, turnOld);
      assert history.nodes[history.pointer].boardUndo == Some(undo);
    } else {
      assert Keeps(history.nodes, history.nodes, history.pointer);
    }
  }

  /** A pass recorded in the history, with a payload that restores the ko point and the turn. */
  method PassRecorded(board: Board, history: HistoryTree)
    requires board.Valid() && history.Valid()
    modifies board, history
    ensures board.Valid() && history.Valid() && board.intersections == old(board.intersections)
    ensures board.State() == Pass(old(board.State()))
    ensures history.moveNumber == old(history.moveNumber) + 1
    ensures (history.nodes, history.pointer) == Pushed(old(history.nodes), old(history.pointer), POS_PASS, NPOS, Some(KoAndTurnUndo(old(board.koPos), old(board.turn))))
    ensures ApplyChanges(board.State(), KoAndTurnUndo(old(board.koPos), old(board.turn))) == old(board.State())
    ensures Keeps(old(history.nodes), history.nodes, old(history.pointer)) && SameSetups(old(history.nodes), history.nodes)
  {
    UndoPassRestores(board.State());
    var koPosOld, turnOld := board.Pass();
    history.PushPass(koPosOld, turnOld);
  }

  // ----- the history tree -----

  class HistoryTree {
    /** The node arena; node 0 is the root. */
    var nodes: seq<Node>
    /** The current node. */
    var pointer: int
    /** The number of moves from the root to the current node. */
    var moveNumber: int

    /** The arena is a linked tree and the current node hangs in it. */
    ghost predicate Shaped()
      reads this
    {
      Linked(nodes) && 0 <= pointer < |nodes| && Attached(nodes, pointer)
    }

    /** ... and the move number counts the moves on the line to the current node. */
    ghost predicate Valid()
      reads this
    {
      Shaped() && moveNumber == MoveCount(nodes, pointer)
    }

    /** The node a redo goes to: the current node's redo target, or -1. */
    ghost function RedoTarget(): (c: int)
      reads this
      requires Shaped()
      ensures -1 <= c < |nodes|
      ensures c >= 0 ==> c in nodes[pointer].nexts && nodes[c].prev == pointer && pointer < c
    {
      assert NodeLinked(nodes, pointer);
      nodes[pointer].lastVisited
    }

    /** The setup object of the redo target, which a redo corrects. */
    ghost function RedoSetup(): (r: set<BoardDiff>)
      reads this
      requires Shaped()
      ensures r <= SetupsOf(nodes)
    {
      var c := RedoTarget();
      if c >= 0 && nodes[c].setup.Some? then {nodes[c].setup.value} else {}
    }

    /** A tree holding only the root, which is the current node. */
    constructor()
      ensures Valid() && nodes == [NewNode(-1, NPOS, NPOS, None)] && pointer == 0 && moveNumber == 0
    {
      nodes := [NewNode(-1, NPOS, NPOS, None)];
      pointer := 0;
      moveNumber := 0;
    }

    /** Adds a child to the current node and moves to it. */
    method PushNewNode(pos: int, koPosNew: int, boardUndo: Option<BoardChanges>) returns (n: int)
      requires Valid() && (pos != NPOS ==> FindNextByPos(nodes, pointer, pos) < 0)
      modifies this
      ensures (nodes, pointer) == AddedNode(old(nodes), old(pointer), pos, koPosNew, boardUndo) && n == pointer
      ensures Shaped() && moveNumber == old(moveNumber)
      ensures MoveCount(nodes, pointer) == old(moveNumber) + (if CountsAsMove(pos) then 1 else 0)
      ensures Keeps(old(nodes), nodes, old(pointer)) && SameSetups(old(nodes), nodes)
    {
      AddedNodeLinked(nodes, pointer, pos, koPosNew, boardUndo);
      n := |nodes|;
      nodes := nodes[pointer := nodes[pointer].(nexts := nodes[pointer].nexts + [n], lastVisited := n)] + [NewNode(pointer, pos, koPosNew, boardUndo)];
      pointer := n;
    }

    /**
     * Pushes a move or resignation: a child recording `pos` is reused with
     * the new payload, otherwise a child is added; the move number rises
     * for placements and passes.  A setup position pushes nothing.
     */
    method PushMoveOrResign(pos: int, koPosNew: int, boardUndo: Option<BoardChanges>)
      requires Valid()
      modifies this
      ensures Valid()
      ensures (nodes, pointer) == Pushed(old(nodes), old(pointer), pos, koPosNew, boardUndo)
      ensures pos != NPOS ==> nodes[pointer].boardUndo == boardUndo
      ensures moveNumber == old(moveNumber) + (if CountsAsMove(pos) then 1 else 0)
      ensures Keeps(old(nodes), nodes, old(pointer)) && SameSetups(old(nodes), nodes)
    {
      if pos == NPOS {
        assert Keeps(nodes, nodes, pointer);
        return;
      }
      PushedLinked(nodes, pointer, pos, koPosNew, boardUndo);
      var c := FindNextByPos(nodes, pointer, pos);
      if c >= 0 {
        nodes := nodes[c := nodes[c].(boardUndo := boardUndo)][pointer := nodes[pointer].(lastVisited := c)];
        pointer := c;
      } else {
        var _ := PushNewNode(pos, koPosNew, boardUndo);
      }
      if IsIntersectionPosition(pos) || pos == POS_PASS {
        moveNumber := moveNumber + 1;
      }
    }

    method PushPass(koPosOld: int, turnOld: int)
      requires Valid()
      modifies this
      ensures Valid() && moveNumber == old(moveNumber) + 1
      ensures (nodes, pointer) == Pushed(old(nodes), old(pointer), POS_PASS, NPOS, Some(KoAndTurnUndo(koPosOld, turnOld)))
      ensures Keeps(old(nodes), nodes, old(pointer)) && SameSetups(old(nodes), nodes)
    {
      PushMoveOrResign(POS_PASS, NPOS, Some(KoAndTurnUndo(koPosOld, turnOld)));
    }

    /** A resignation keeps the ko point and carries no undo payload. */
    method PushResign(koPos: int, turnOld: int)
      requires Valid()
      modifies this
      ensures Valid() && moveNumber == old(moveNumber)
      ensures (nodes, pointer) == Pushed(old(nodes), old(pointer), POS_RESIGN, koPos, None)
      ensures Keeps(old(nodes), nodes, old(pointer)) && SameSetups(old(nodes), nodes)
    {
      PushMoveOrResign(POS_RESIGN, koPos, None);
    }

    method PushPlace(pos: int, removedStones: seq<int>, koPosOld: int, koPosNew: int, turnOld: int)
      requires Valid()
      modifies this
      ensures Valid()
      ensures moveNumber == old(moveNumber) + (if CountsAsMove(pos) then 1 else 0)
      ensures (nodes, pointer) == Pushed(old(nodes), old(pointer), pos, koPosNew, Some(CreateUndoMove(turnOld, pos, removedStones, koPosOld)))
      ensures pos != NPOS ==> nodes[pointer].boardUndo == Some(CreateUndoMove(turnOld, pos, removedStones, koPosOld))
      ensures Keeps(old(nodes), nodes, old(pointer)) && SameSetups(old(nodes), nodes)
    {
      PushMoveOrResign(pos, koPosNew, Some(CreateUndoMove(turnOld, pos, removedStones, koPosOld)));
    }

    /** A placement that could not be replayed: it clears the ko point, and its payload restores only ko and turn. */
    method PushPlaceIllegal(pos: int, koPosOld: int, turnOld: int)
      requires Valid()
      modifies this
      ensures Valid()
      ensures moveNumber == old(moveNumber) + (if CountsAsMove(pos) then 1 else 0)
      ensures (nodes, pointer) == Pushed(old(nodes), old(pointer), pos, NPOS, Some(KoAndTurnUndo(koPosOld, turnOld)))
      ensures Keeps(old(nodes), nodes, old(pointer)) && SameSetups(old(nodes), nodes)
    {
      PushMoveOrResign(pos, NPOS, Some(KoAndTurnUndo(koPosOld, turnOld)));
    }

    /** A setup node is always a new child, however many setup siblings there are. */
    method PushSetupNode(koPosNew: int) returns (n: int)
      requires Valid()
      modifies this
      ensures Valid() && moveNumber == old(moveNumber)
      ensures (nodes, pointer) == AddedNode(old(nodes), old(pointer), NPOS, koPosNew, None) && n == pointer
      ensures Keeps(old(nodes), nodes, old(pointer)) && SameSetups(old(nodes), nodes)
    {
      n := PushNewNode(NPOS, koPosNew, None);
    }

    /** The game part of undoing node `n`: leaving a resignation or a second consecutive pass un-finishes the game. */
    method Unfinish(n: int, game: Game)
      requires Linked(nodes) && 0 <= n < |nodes|
      modifies game
      ensures nodes[n].IsResign() || SecondConsecutivePass(nodes, n) ==> !game.finished && game.winner == EMPTY
      ensures !(nodes[n].IsResign() || SecondConsecutivePass(nodes, n)) ==> game.finished == old(game.finished) && game.winner == old(game.winner)
    {
      if nodes[n].IsResign() {
        game.CancelFinish();
      } else {
        var second := IsSecondConsecutivePass(nodes, n);
        if second {
          game.CancelFinish();
        }
      }
    }

    /** The board part of undoing node `n`: its setup taken back, then its undo payload applied. */
    method TakeBack(n: int, board: Board)
      requires 0 <= n < |nodes| && board.Valid() && SetupsFit(nodes, board.w, board.h)
      modifies board, board.intersections
      ensures board.Valid() && board.intersections == old(board.intersections)
      ensures board.State() == UndoneBoard(old(board.State()), nodes[n].boardUndo, SetupValueOf(nodes[n].setup))
    {
      if nodes[n].setup.Some? {
        assert nodes[n].setup.value in SetupsOf(nodes);
        nodes[n].setup.value.ApplyInverseTo(board);
      }
      if nodes[n].boardUndo.Some? {
        nodes[n].boardUndo.value.ApplyTo(board);
      }
    }

    /**
     * Steps back to the parent: a resignation or a second consecutive pass
     * un-finishes the game, the node's setup is taken back and its undo
     * payload applied, and the move number drops for a move.  At the root
     * nothing happens.
     */
    method Undo(board: Board, game: Game) returns (r: bool)
      requires Valid() && board.Valid() && SetupsFit(nodes, board.w, board.h)
      modifies this, board, board.intersections, game
      ensures Valid() && board.Valid() && board.intersections == old(board.intersections)
      ensures nodes == old(nodes) && SetupsFit(nodes, board.w, board.h)
      ensures r == (old(nodes[pointer].prev) >= 0)
      ensures !r ==> pointer == old(pointer) && board.State() == old(board.State())
      ensures r ==> pointer == old(nodes[pointer].prev)
      ensures r ==> board.State() == UndoneBoard(old(board.State()), old(nodes[pointer].boardUndo), old(SetupValueOf(nodes[pointer].setup)))
      ensures r && old(nodes[pointer].IsResign() || SecondConsecutivePass(nodes, pointer)) ==> !game.finished && game.winner == EMPTY
      ensures !(r && old(nodes[pointer].IsResign() || SecondConsecutivePass(nodes, pointer))) ==>
        game.finished == old(game.finished) && game.winner == old(game.winner)
      ensures r ==> (Play(board.State(), game.finished, game.winner)
        == UndoneFrom(nodes, old(pointer), old(SetupValueOf(nodes[pointer].setup)), old(Play(board.State(), game.finished, game.winner))))
    {
      var node := pointer;
      if nodes[node].prev < 0 {
        return false;
      }
      Unfinish(node, game);
      TakeBack(node, board);
      if IsIntersectionPosition(nodes[node].pos) || nodes[node].pos == POS_PASS {
        moveNumber := moveNumber - 1;
      }
      pointer := nodes[node].prev;
      return true;
    }

    /**
     * The move part of a redo: a placement is played again through the
     * board, a pass is passed again, and either re-pushes the redo target,
     * which refreshes its undo payload; a resignation or a setup node is
     * reached without touching the board.
     */
    method ReplayMove(board: Board)
      requires Valid() && board.Valid() && RedoTarget() >= 0
      modifies this, board, board.intersections
      ensures Valid() && board.Valid() && board.intersections == old(board.intersections)
      ensures pointer == old(RedoTarget()) && |nodes| == |old(nodes)|
      ensures board.State() == ReplayedMove(old(board.State()), nodes[pointer].pos)
      ensures nodes == old(nodes)[pointer := old(nodes[RedoTarget()]).(boardUndo := nodes[pointer].boardUndo)]
      ensures nodes[pointer].IsMove() ==> PayloadUndoes(old(board.State()), nodes[pointer].pos, nodes[pointer].boardUndo)
      ensures !nodes[pointer].IsMove() ==> nodes == old(nodes)
      ensures SetupMap(nodes) == old(SetupMap(nodes))
    {
      ghost var nodes0 := nodes;
      var c := nodes[pointer].lastVisited;
      var pos := nodes[c].pos;
      if IsIntersectionPosition(pos) {
        ReplayPlace(board);
      } else if pos == POS_PASS {
        ReplayPass(board);
      } else {
        ChildAbove(nodes, pointer, c);
        pointer := c;
      }
      assert SameSetups(nodes0, nodes);
      SameSetupsOf(nodes0, nodes);
      SameSetupMap(nodes0, nodes);
    }

    /** Replays a placement: played when legal, otherwise recorded as a placement that only clears the ko point and passes the turn. */
    method ReplayPlace(board: Board)
      requires Valid() && board.Valid() && RedoTarget() >= 0 && IsIntersectionPosition(nodes[RedoTarget()].pos)
      modifies this, board, board.intersections
      ensures Valid() && board.Valid() && board.intersections == old(board.intersections)
      ensures pointer == old(RedoTarget())
      ensures board.State() == ReplayedMove(old(board.State()), nodes[pointer].pos)
      ensures nodes == old(nodes)[pointer := old(nodes[RedoTarget()]).(boardUndo := nodes[pointer].boardUndo)]
      ensures PayloadUndoes(old(board.State()), nodes[pointer].pos, nodes[pointer].boardUndo)
    {
      var c := nodes[pointer].lastVisited;
      ghost var s := board.State();
      var pos := nodes[c].pos;
      PushRedoTarget(nodes, pointer, c);
      var ok := PutStoneRecorded(board, pos, board.turn, this);
      if !ok {
        var koPosOld := board.koPos;
        board.SetKoPos(NPOS);
        var turnOld := board.turn;
        board.RotateTurn();
        UndoPassRestores(s);
        PushPlaceIllegal(pos, koPosOld, turnOld);
      }
    }

    /** Replays a pass. */
    method ReplayPass(board: Board)
      requires Valid() && board.Valid() && RedoTarget() >= 0 && nodes[RedoTarget()].pos == POS_PASS
      modifies this, board, board.intersections
      ensures Valid() && board.Valid() && board.intersections == old(board.intersections)
      ensures pointer == old(RedoTarget())
      ensures board.State() == ReplayedMove(old(board.State()), nodes[pointer].pos)
      ensures nodes == old(nodes)[pointer := old(nodes[RedoTarget()]).(boardUndo := nodes[pointer].boardUndo)]
      ensures PayloadUndoes(old(board.State()), nodes[pointer].pos, nodes[pointer].boardUndo)
    {
      PushRedoTarget(nodes, pointer, RedoTarget());
      PassRecorded(board, this);
    }

    /** The setup part of a redo: the current node's setup is applied, which corrects it to the board. */
    method Resetup(board: Board)
      requires Shaped() && board.Valid() && SetupsFit(nodes, board.w, board.h)
      modifies board, board.intersections, if nodes[pointer].setup.Some? then {nodes[pointer].setup.value} else {}
      ensures board.Valid() && board.intersections == old(board.intersections) && SetupsFit(nodes, board.w, board.h)
      ensures (board.State(), SetupMap(nodes)) == SetupStep(old(SetupMap(nodes)), nodes[pointer].setup, old(board.State()))
    {
      ghost var m0 := SetupMap(nodes);
      if nodes[pointer].setup.Some? {
        var d := nodes[pointer].setup.value;
        assert d in SetupsOf(nodes);
        ghost var s := board.State();
        ghost var v := ValueOf(d);
        CorrectedFits(s, v);
        d.ApplyTo(board);
        forall e | e in SetupsOf(nodes) ensures Fits(ValueOf(e), board.w, board.h) && (e != d ==> ValueOf(e) == m0[e]) {
          if e != d {
            assert old(Fits(ValueOf(e), board.w, board.h));
          }
        }
        assert ValueOf(d) == CorrectedSetup(v, s);
        assert SetupMap(nodes) == m0[d := ValueOf(d)];
      }
    }

    /** The setup and game parts of a redo, at the node just reached. */
    method Settle(board: Board, game: Game)
      requires Shaped() && board.Valid() && SetupsFit(nodes, board.w, board.h)
      modifies board, board.intersections, game, if nodes[pointer].setup.Some? then {nodes[pointer].setup.value} else {}
      ensures board.Valid() && board.intersections == old(board.intersections) && SetupsFit(nodes, board.w, board.h)
      ensures var step := SetupStep(old(SetupMap(nodes)), nodes[pointer].setup, old(board.State()));
        (PlayOf(board, game), SetupMap(nodes)) == (Finished(nodes, pointer, old(PlayOf(board, game)), step.0), step.1)
    {
      Resetup(board);
      Finish(board, game);
    }

    /** The game part of a redo: reaching a resignation or a second consecutive pass finishes the game. */
    method Finish(board: Board, game: Game)
      requires Linked(nodes) && 0 <= pointer < |nodes|
      modifies game
      ensures nodes[pointer].IsResign() ==> game.finished && game.winner == GetOppositeColor(board.turn)
      ensures !nodes[pointer].IsResign() && SecondConsecutivePass(nodes, pointer) ==> game.finished && game.winner == EMPTY
      ensures !(nodes[pointer].IsResign() || SecondConsecutivePass(nodes, pointer)) ==>
        game.finished == old(game.finished) && game.winner == old(game.winner)
      ensures PlayOf(board, game) == Finished(nodes, pointer, old(PlayOf(board, game)), board.State())
    {
      if nodes[pointer].IsResign() {
        game.SetFinished(GetOppositeColor(board.turn));
      } else {
        var second := IsSecondConsecutivePass(nodes, pointer);
        if second {
          game.SetFinished(EMPTY);
        }
      }
    }

    /**
     * Steps to the redo target: its move is replayed on the board (which
     * refreshes its undo payload), its setup applied (which corrects the
     * setup to the board), and a resignation or second consecutive pass
     * finishes the game.  Without a redo target nothing happens.
     */
    method Redo(board: Board, game: Game) returns (r: bool)
      requires Valid() && board.Valid() && SetupsFit(nodes, board.w, board.h)
      modifies this, board, board.intersections, game, RedoSetup()
      ensures Valid() && board.Valid() && board.intersections == old(board.intersections)
      ensures SetupsFit(nodes, board.w, board.h) && |nodes| == |old(nodes)|
      ensures r == (old(RedoTarget()) >= 0)
      ensures !r ==> nodes == old(nodes) && pointer == old(pointer) && board.State() == old(board.State())
      ensures !r ==> game.finished == old(game.finished) && game.winner == old(game.winner)
      ensures r ==> pointer == old(RedoTarget())
      ensures r ==> nodes == old(nodes)[pointer := old(nodes[RedoTarget()]).(boardUndo := nodes[pointer].boardUndo)]
      ensures r && nodes[pointer].IsMove() ==> PayloadUndoes(old(board.State()), nodes[pointer].pos, nodes[pointer].boardUndo)
      ensures r ==> Redoable(old(nodes), old(SetupMap(nodes)), pointer, old(board.State()))
      ensures r ==> (PlayOf(board, game), SetupMap(nodes)) == RedoStep(old(nodes), old(SetupMap(nodes)), pointer, old(PlayOf(board, game)))
    {
      if nodes[pointer].lastVisited < 0 {
        return false;
      }
      ghost var values := SetupMap(nodes);
      ghost var nodes0 := nodes;
      ghost var st := PlayOf(board, game);
      ReplayMove(board);
      ghost var t := board.State();
      SameSetupsOf(nodes0, nodes);
      Settle(board, game);
      RedoStepOf(nodes0, nodes, values, pointer, st, t);
      return true;
    }

    /**
     * The move number of the nearest node at or above the current one that
     * records `pos`, or -1 when the line holds no such node.
     */
    method GetMoveNumberAt(pos: int) returns (num: int)
      requires Valid()
      ensures var x := NearestWithPos(nodes, pointer, pos); num == if x >= 0 then MoveCount(nodes, x) else -1
    {
      num := moveNumber;
      var node := pointer;
      while node >= 0
        invariant -1 <= node < |nodes| && num == MoveCount(nodes, node)
        invariant NearestWithPos(nodes, node, pos) == NearestWithPos(nodes, pointer, pos)
        decreases node + 1
      {
        if nodes[node].pos == pos {
          return num;
        }
        if nodes[node].IsMove() {
          num := num - 1;
        }
        node := nodes[node].prev;
      }
      return -1;
    }

    /**
     * Redoes to `descendant` (-1 for none): the redo targets on the way
     * are pointed at it, then redone one by one.  A node that is not below
     * the current node changes nothing and gives false.
     */
    method RedoTo(descendant: int, board: Board, game: Game) returns (r: bool)
      requires Valid() && board.Valid() && SetupsFit(nodes, board.w, board.h)
      requires -1 <= descendant < |nodes|
      requires descendant >= 0 && IsAncestor(nodes, pointer, descendant) ==> Attached(nodes, descendant)
      modifies this, board, board.intersections, game, SetupsOf(nodes)
      ensures Valid() && board.Valid() && board.intersections == old(board.intersections)
      ensures SetupsFit(nodes, board.w, board.h) && SameTree(old(nodes), nodes)
      ensures r == (descendant >= 0 && old(IsAncestor(nodes, pointer, descendant)))
      ensures r ==> pointer == descendant
      ensures r ==> RedoneAs(old(nodes), old(SetupMap(nodes)), Line(old(nodes), old(pointer), descendant),
                             old(PlayOf(board, game)), PlayOf(board, game), SetupMap(nodes), nodes)
      ensures !r ==> nodes == old(nodes) && pointer == old(pointer) && board.State() == old(board.State())
      ensures !r ==> game.finished == old(game.finished) && game.winner == old(game.winner)
    {
      if descendant < 0 {
        return false;
      }
      var from := pointer;
      var below := IsDescendantOf(nodes, descendant, from);
      if !below {
        return false;
      }
      ghost var nodes0 := nodes;
      ghost var values := SetupMap(nodes);
      ghost var line := Line(nodes, from, descendant);
      PointRedoTargets(descendant);
      SameSetupsOf(nodes0, nodes);
      SameSetupMap(nodes0, nodes);
      assert SetupMap(nodes) == values;
      RedoAlong(descendant, board, game, nodes0, line);
      return true;
    }

    /**
     * The redo loop of `RedoTo`: redoes along `path`, which follows the
     * redo targets, until the current node is `descendant`.  Each redo
     * follows a target already set, so the program's early return on a
     * failed redo cannot happen.
     */
    method RedoAlong(descendant: int, board: Board, game: Game, ghost tree0: seq<Node>, ghost path: seq<int>)
      requires Valid() && board.Valid() && SetupsFit(nodes, board.w, board.h)
      requires 0 <= descendant < |nodes| && Ordered(tree0) && SameTree(tree0, nodes)
      requires Follows(nodes, pointer, path) && (if |path| == 0 then pointer == descendant else path[|path| - 1] == descendant)
      requires forall k :: 0 <= k < |path| ==> 0 <= path[k] < |tree0|
      modifies this, board, board.intersections, game, SetupsOf(nodes)
      ensures Valid() && board.Valid() && board.intersections == old(board.intersections)
      ensures SetupsFit(nodes, board.w, board.h) && SameTree(tree0, nodes)
      ensures pointer == descendant
      ensures RedoneAs(tree0, old(SetupMap(nodes)), path, old(PlayOf(board, game)), PlayOf(board, game), SetupMap(nodes), nodes)
    {
      ghost var goal := RedoneOver(tree0, SetupMap(nodes), path, PlayOf(board, game), []);
      ghost var k := 0;
      ghost var from: seq<BoardState> := [];
      while pointer != descendant
        invariant Valid() && board.Valid() && board.intersections == old(board.intersections)
        invariant SetupsFit(nodes, board.w, board.h) && SameTree(tree0, nodes) && SetupsOf(nodes) == old(SetupsOf(nodes))
        invariant Walked(nodes, pointer, path, k, from) && (k == |path| ==> pointer == descendant)
        invariant RedoneOver(tree0, SetupMap(nodes), path[k..], PlayOf(board, game), from) == goal
        decreases |path| - k
      {
        var ok;
        ok, k, from := RedoOnPath(board, game, tree0, path, k, from);
      }
      if k < |path| {
        FollowsToLast(nodes, pointer, path, k);
        assert false;
      }
    }

    /**
     * One redo on the walk `path`, at its node `k`: the fold over the rest
     * of the walk keeps its outcome, and the redone node's new payload
     * takes back the board it was redone from.  At the end of a walk that
     * ends where the redo targets do, the redo fails and changes nothing.
     * `k'` and `from'` are how far along the walk it then is.
     */
    method RedoOnPath(board: Board, game: Game, ghost tree0: seq<Node>, ghost path: seq<int>, ghost k: int, ghost from: seq<BoardState>)
      returns (ok: bool, ghost k': int, ghost from': seq<BoardState>)
      requires Valid() && board.Valid() && SetupsFit(nodes, board.w, board.h) && Ordered(tree0) && SameTree(tree0, nodes)
      requires forall i :: 0 <= i < |path| ==> 0 <= path[i] < |tree0|
      requires Walked(nodes, pointer, path, k, from) && (k == |path| ==> nodes[pointer].lastVisited < 0)
      modifies this, board, board.intersections, game, RedoSetup()
      ensures Valid() && board.Valid() && board.intersections == old(board.intersections)
      ensures SetupsFit(nodes, board.w, board.h) && SameTree(tree0, nodes) && SetupsOf(nodes) == old(SetupsOf(nodes))
      ensures ok == (k < |path|) && k' == (if ok then k + 1 else k)
      ensures from' == (if ok then from + [old(board.State())] else from)
      ensures forall i :: 0 <= i < |nodes| ==> nodes[i].lastVisited == old(nodes)[i].lastVisited
      ensures pointer == (if ok then path[k] else old(pointer)) && Walked(nodes, pointer, path, k', from')
      ensures RedoneOver(tree0, SetupMap(nodes), path[k'..], PlayOf(board, game), from')
        == RedoneOver(tree0, old(SetupMap(nodes)), path[k..], old(PlayOf(board, game)), from)
      ensures !ok ==> nodes == old(nodes)
    {
      ghost var prior := nodes;
      ghost var p := pointer;
      ghost var values := SetupMap(nodes);
      ghost var st := PlayOf(board, game);
      ok := Redo(board, game);
      k', from' := k, from;
      if ok {
        RedoOnPathStep(tree0, prior, nodes, path, k, from, p, values, SetupMap(nodes), st, PlayOf(board, game));
        k', from' := k + 1, from + [st.board];
      }
    }

    /** Points the redo targets from the current node down to `descendant`, an attached node below it. */
    method PointRedoTargets(descendant: int)
      requires Valid() && 0 <= descendant < |nodes|
      requires IsAncestor(nodes, pointer, descendant) && Attached(nodes, descendant)
      modifies this
      ensures Valid() && pointer == old(pointer) && moveNumber == old(moveNumber)
      ensures SameTree(old(nodes), nodes) && SameSetups(old(nodes), nodes)
      ensures forall i :: 0 <= i < |nodes| ==> nodes[i].boardUndo == old(nodes)[i].boardUndo
      ensures Follows(nodes, pointer, Line(old(nodes), pointer, descendant))
      ensures forall i :: 0 <= i < |nodes| && i != pointer && !(i in Line(old(nodes), pointer, descendant) && i != descendant) ==>
        nodes[i].lastVisited == old(nodes)[i].lastVisited
    {
      ghost var nodes0 := nodes;
      var ns := nodes;
      var node := descendant;
      while node != pointer
        invariant 0 <= node < |nodes0| && IsAncestor(nodes0, pointer, node) && Attached(nodes0, node)
        invariant Pointed(nodes0, ns, node, descendant)
        modifies {}
        decreases node
      {
        var p := ns[node].prev;
        AncestorBelow(nodes0, pointer, node);
        PointRedoTarget(nodes0, ns, node, descendant);
        ns := ns[p := ns[p].(lastVisited := node)];
        node := p;
      }
      RetargetedKeeps(nodes0, ns, pointer);
      nodes := ns;
    }

    /** Undoes until the current node is `ancestor`, or the root when `ancestor` is not above the current node. */
    method UndoTo(ancestor: int, board: Board, game: Game)
      requires Valid() && board.Valid() && SetupsFit(nodes, board.w, board.h)
      modifies this, board, board.intersections, game
      ensures Valid() && board.Valid() && board.intersections == old(board.intersections)
      ensures nodes == old(nodes) && SetupsFit(nodes, board.w, board.h)
      ensures pointer == if old(IsAncestor(nodes, ancestor, pointer)) then ancestor else 0
      ensures Play(board.State(), game.finished, game.winner)
        == UndoneTo(nodes, old(SetupMap(nodes)), old(pointer), ancestor, old(Play(board.State(), game.finished, game.winner)))
    {
      ghost var p0 := pointer;
      ghost var values := SetupMap(nodes);
      ghost var goal := UndoneTo(nodes, values, p0, ancestor, Play(board.State(), game.finished, game.winner));
      while pointer != ancestor && nodes[pointer].prev >= 0
        invariant Valid() && board.Valid() && board.intersections == old(board.intersections)
        invariant nodes == old(nodes) && SetupsFit(nodes, board.w, board.h)
        invariant IsAncestor(nodes, pointer, p0)
        invariant IsAncestor(nodes, ancestor, p0) ==> IsAncestor(nodes, ancestor, pointer)
        invariant UndoneTo(nodes, values, pointer, ancestor, Play(board.State(), game.finished, game.winner)) == goal
        decreases pointer
      {
        ghost var p := pointer;
        assert SetupIn(values, nodes[p].setup) == SetupValueOf(nodes[p].setup);
        var _ := Undo(board, game);
        AncestorTrans(nodes, pointer, p, p0);
      }
    }

    /**
     * Undoes until the current node records `pos` (the nearest such node
     * on the line), or to the root when none does.
     */
    method BackToMove(pos: int, board: Board, game: Game)
      requires Valid() && board.Valid() && SetupsFit(nodes, board.w, board.h)
      modifies this, board, board.intersections, game
      ensures Valid() && board.Valid() && board.intersections == old(board.intersections)
      ensures nodes == old(nodes) && SetupsFit(nodes, board.w, board.h)
      ensures var x := old(NearestWithPos(nodes, pointer, pos)); pointer == if x >= 0 then x else 0
      ensures Play(board.State(), game.finished, game.winner)
        == UndoneTo(nodes, old(SetupMap(nodes)), old(pointer), pointer, old(Play(board.State(), game.finished, game.winner)))
    {
      ghost var x := NearestWithPos(nodes, pointer, pos);
      ghost var target := if x >= 0 then x else 0;
      ghost var values := SetupMap(nodes);
      ghost var goal := UndoneTo(nodes, values, pointer, target, Play(board.State(), game.finished, game.winner));
      while nodes[pointer].pos != pos && nodes[pointer].prev >= 0
        invariant Valid() && board.Valid() && board.intersections == old(board.intersections)
        invariant nodes == old(nodes) && SetupsFit(nodes, board.w, board.h)
        invariant NearestWithPos(nodes, pointer, pos) == x
        invariant UndoneTo(nodes, values, pointer, target, Play(board.State(), game.finished, game.winner)) == goal
        decreases pointer
      {
        assert pointer != target;
        assert SetupIn(values, nodes[pointer].setup) == SetupValueOf(nodes[pointer].setup);
        var _ := Undo(board, game);
      }
    }

    /** Undoes back to the root. */
    method UndoAll(board: Board, game: Game)
      requires Valid() && board.Valid() && SetupsFit(nodes, board.w, board.h)
      modifies this, board, board.intersections, game
      ensures Valid() && board.Valid() && board.intersections == old(board.intersections)
      ensures nodes == old(nodes) && SetupsFit(nodes, board.w, board.h)
      ensures pointer == 0 && moveNumber == 0
      ensures Play(board.State(), game.finished, game.winner)
        == UndoneTo(nodes, old(SetupMap(nodes)), old(pointer), 0, old(Play(board.State(), game.finished, game.winner)))
    {
      ghost var values := SetupMap(nodes);
      ghost var goal := UndoneTo(nodes, values, pointer, 0, Play(board.State(), game.finished, game.winner));
      var more := true;
      while more
        invariant Valid() && board.Valid() && board.intersections == old(board.intersections)
        invariant nodes == old(nodes) && SetupsFit(nodes, board.w, board.h)
        invariant !more ==> pointer == 0
        invariant UndoneTo(nodes, values, pointer, 0, Play(board.State(), game.finished, game.winner)) == goal
        decreases pointer + (if more then 1 else 0)
      {
        assert SetupIn(values, nodes[pointer].setup) == SetupValueOf(nodes[pointer].setup);
        more := Undo(board, game);
      }
    }

    /** Redoes along the redo targets until a node without one. */
    method RedoAll(board: Board, game: Game)
      requires Valid() && board.Valid() && SetupsFit(nodes, board.w, board.h)
      modifies this, board, board.intersections, game, SetupsOf(nodes)
      ensures Valid() && board.Valid() && board.intersections == old(board.intersections)
      ensures SetupsFit(nodes, board.w, board.h) && SameTree(old(nodes), nodes)
      ensures pointer == RedoEnd(old(nodes), old(pointer))
      ensures RedoneAs(old(nodes), old(SetupMap(nodes)), RedoPath(old(nodes), old(pointer)),
                       old(PlayOf(board, game)), PlayOf(board, game), SetupMap(nodes), nodes)
    {
      ghost var tree0 := nodes;
      ghost var path := RedoPath(nodes, pointer);
      ghost var end := RedoEnd(nodes, pointer);
      assert |path| > 0 ==> path[|path| - 1] == end;
      ghost var goal := RedoneOver(tree0, SetupMap(nodes), path, PlayOf(board, game), []);
      ghost var k := 0;
      ghost var from: seq<BoardState> := [];
      var more := true;
      while more
        invariant Valid() && board.Valid() && board.intersections == old(board.intersections)
        invariant SetupsFit(nodes, board.w, board.h) && SameTree(tree0, nodes) && SetupsOf(nodes) == old(SetupsOf(nodes))
        invariant 0 <= k <= |path| && (!more ==> k == |path|)
        invariant Walked(nodes, pointer, path, k, from) && (k == |path| ==> pointer == end) && nodes[end].lastVisited < 0
        invariant RedoneOver(tree0, SetupMap(nodes), path[k..], PlayOf(board, game), from) == goal
        decreases |path| - k + (if more then 1 else 0)
      {
        more, k, from := RedoOnPath(board, game, tree0, path, k, from);
      }
    }
    /** Sets the current node's comment; nothing else in the tree changes. */
    method SetCommentToCurrentNode(text: string)
      requires Valid()
      modifies this
      ensures Valid() && pointer == old(pointer) && SetupsOf(nodes) == old(SetupsOf(nodes))
      ensures nodes == old(nodes)[pointer := old(nodes[pointer]).(comment := Some(text))]
      ensures nodes[pointer].HasComment() && nodes[pointer].comment.value == text
    {
      ghost var before := nodes;
      nodes := nodes[pointer := nodes[pointer].(comment := Some(text))];
      AnnotatedLinked(before, pointer, nodes[pointer]);
      KeepsPath(before, nodes, pointer);
      SameSetupsOf(before, nodes);
    }

    /** Sets property `id` of the current node; nothing else in the tree changes. */
    method SetPropertyToCurrentNode(id: string, value: string, inherit: bool)
      requires Valid()
      modifies this
      ensures Valid() && pointer == old(pointer) && SetupsOf(nodes) == old(SetupsOf(nodes))
      ensures nodes == old(nodes)[pointer := old(nodes[pointer]).AddProperty(id, value, inherit)]
      ensures nodes[pointer].props.Some? && id in nodes[pointer].props.value
      ensures nodes[pointer].props.value[id] == Property(value, inherit)
    {
      ghost var before := nodes;
      nodes := nodes[pointer := nodes[pointer].AddProperty(id, value, inherit)];
      AnnotatedLinked(before, pointer, nodes[pointer]);
      KeepsPath(before, nodes, pointer);
      SameSetupsOf(before, nodes);
    }

    /** Sets property `id` of the root node, wherever the current node is; nothing else in the tree changes. */
    method AddPropertyToRootNode(id: string, value: string, inherit: bool)
      requires Valid()
      modifies this
      ensures Valid() && pointer == old(pointer) && SetupsOf(nodes) == old(SetupsOf(nodes))
      ensures nodes == old(nodes)[0 := old(nodes[0]).AddProperty(id, value, inherit)]
      ensures nodes[0].props.Some? && id in nodes[0].props.value && nodes[0].props.value[id] == Property(value, inherit)
    {
      ghost var before := nodes;
      nodes := nodes[0 := nodes[0].AddProperty(id, value, inherit)];
      AnnotatedLinked(before, 0, nodes[0]);
      assert Keeps(before, nodes, pointer);
      KeepsPath(before, nodes, pointer);
      SameSetupsOf(before, nodes);
    }

    /**
     * The current node's setup, created empty (no turn change, no
     * intersection change) when the node has none; nothing else changes.
     */
    method AcquireSetup() returns (d: BoardDiff)
      requires Valid()
      modifies this
      ensures Valid() && pointer == old(pointer) && moveNumber == old(moveNumber)
      ensures nodes == old(nodes)[pointer := old(nodes[pointer]).(setup := Some(d))]
      ensures old(nodes[pointer].setup).Some? ==> d == old(nodes[pointer].setup.value) && nodes == old(nodes)
      ensures old(nodes[pointer].setup).None? ==> fresh(d) && d.turn.None? && d.intersections == []
      ensures SetupsOf(nodes) == old(SetupsOf(nodes)) + {d}
    {
      if nodes[pointer].setup.Some? {
        d := nodes[pointer].setup.value;
        assert nodes[pointer := nodes[pointer].(setup := Some(d))] == nodes;
        assert d in SetupsOf(nodes);
      } else {
        d := new BoardDiff(None, []);
        ghost var before := nodes;
        nodes := nodes[pointer := nodes[pointer].(setup := Some(d))];
        SetupReplacedLinked(before, pointer, nodes[pointer]);
        KeepsPath(before, nodes, pointer);
        SetupsOfReplaced(before, pointer, d);
      }
    }

    /**
     * Deletes branch `node` of the current node: it is no longer a child,
     * every other child stays, and a redo target that was `node` moves to
     * the first remaining child.
     */
    method DeleteBranch(node: int)
      requires Valid()
      modifies this
      ensures Valid() && pointer == old(pointer) && SetupsOf(nodes) == old(SetupsOf(nodes))
      ensures nodes == old(nodes)[pointer := old(nodes[pointer]).DeleteNext(node)]
      ensures node !in nodes[pointer].nexts
      ensures forall c :: c in old(nodes[pointer].nexts) && c != node ==> c in nodes[pointer].nexts
    {
      ghost var before := nodes;
      nodes := nodes[pointer := nodes[pointer].DeleteNext(node)];
      DeleteNextLinked(before, pointer, node);
      KeepsPath(before, nodes, pointer);
      SameSetupsOf(before, nodes);
    }

    /**
     * Moves branch `node` of the current node `delta` places among its
     * siblings, clamped to the first and last place; the children stay
     * the same.
     */
    method ChangeBranchOrder(node: int, delta: int)
      requires Valid()
      modifies this
      ensures Valid() && pointer == old(pointer) && SetupsOf(nodes) == old(SetupsOf(nodes))
      ensures nodes == old(nodes)[pointer := old(nodes[pointer]).ChangeNextOrder(node, delta)]
      ensures multiset(nodes[pointer].nexts) == multiset(old(nodes[pointer].nexts))
    {
      ghost var before := nodes;
      var n := nodes[pointer].ChangeNextOrder(node, delta);
      nodes := nodes[pointer := n];
      ChangeNextOrderLinked(before, pointer, node, delta);
      KeepsPath(before, nodes, pointer);
      SameSetupsOf(before, nodes);
    }
  }

  // ----- the game -----

  class Game {
    const board: Board
    const history: HistoryTree
    var finished: bool
    /** BLACK, WHITE, or EMPTY for a draw. */
    var winner: int

    ghost predicate Valid()
      reads this, board, board.intersections, history, SetupsOf(history.nodes)
    {
      board.Valid() && history.Valid() && SetupsFit(history.nodes, board.w, board.h)
    }

    /** An empty `w` by `h` board, BLACK to move, with a history holding only the root; the game is not finished. */
    constructor(w: int, h: int)
      requires Dims(w, h)
      ensures Valid() && !finished && winner == EMPTY && fresh(board) && fresh(board.intersections) && fresh(history)
      ensures board.State() == BoardState(w, h, seq(w * h, _ => EMPTY), [0, 0], NPOS, BLACK)
      ensures history.nodes == [NewNode(-1, NPOS, NPOS, None)] && history.pointer == 0 && history.moveNumber == 0
    {
      finished := false;
      winner := EMPTY;
      board := new Board(w, h);
      history := new HistoryTree();
    }

    method SetFinished(winner: int)
      modifies this
      ensures finished && this.winner == winner
    {
      finished := true;
      this.winner := winner;
    }

    method CancelFinish()
      modifies this
      ensures !finished && winner == EMPTY
    {
      finished := false;
      winner := EMPTY;
    }

    /**
     * A pass, unless the game is finished: the board passes and the
     * history records it; a second consecutive pass finishes the game as
     * a draw.
     */
    method Pass()
      requires Valid()
      modifies this, board, board.intersections, history
      ensures Valid() && board.intersections == old(board.intersections) && SetupsOf(history.nodes) == old(SetupsOf(history.nodes))
      ensures old(finished) ==> finished && winner == old(winner) && board.State() == old(board.State())
      ensures old(finished) ==> history.nodes == old(history.nodes) && history.pointer == old(history.pointer)
      ensures !old(finished) ==> board.State() == Rules.Pass(old(board.State()))
      ensures !old(finished) ==>
        (history.nodes, history.pointer) == Pushed(old(history.nodes), old(history.pointer), POS_PASS, NPOS, Some(KoAndTurnUndo(old(board.koPos), old(board.turn))))
      ensures !old(finished) ==> finished == SecondConsecutivePass(history.nodes, history.pointer)
      ensures !old(finished) ==> winner == if finished then EMPTY else old(winner)
    {
      if !finished {
        ghost var before := history.nodes;
        PassRecorded(board, history);
        SameSetupsOf(before, history.nodes);
        var second := IsSecondConsecutivePass(history.nodes, history.pointer);
        if second {
          SetFinished(EMPTY);
        }
      }
    }

    /** A stone of the side to move at `pos`, unless the game is finished; false when it is finished or the move is illegal. */
    method PutStone(pos: int) returns (ok: bool)
      requires Valid()
      modifies board, board.intersections, history
      ensures Valid() && board.intersections == old(board.intersections) && SetupsOf(history.nodes) == old(SetupsOf(history.nodes))
      ensures ok == (!finished && IsMoveLegal(old(board.State()), pos, old(board.turn)))
      ensures board.State() == if finished then old(board.State()) else Rules.PutStone(old(board.State()), pos, old(board.turn))
      ensures !ok ==> history.nodes == old(history.nodes) && history.pointer == old(history.pointer)
      ensures ok ==> history.moveNumber == old(history.moveNumber) + 1 && history.nodes[history.pointer].boardUndo.Some?
      ensures ok ==> (history.nodes, history.pointer) == Pushed(old(history.nodes), old(history.pointer), pos, board.koPos, history.nodes[history.pointer].boardUndo)
      ensures ok ==> ApplyChanges(board.State(), history.nodes[history.pointer].boardUndo.value) == old(board.State())
    {
      if !finished {
        ghost var before := history.nodes;
        ok := PutStoneRecorded(board, pos, board.turn, history);
        SameSetupsOf(before, history.nodes);
      } else {
        ok := false;
      }
    }

    /**
     * Resigns for the side to move, unless the game is finished: the
     * other side wins, and the history records a resignation keeping the
     * ko point and the turn.
     */
    method Resign()
      requires Valid()
      modifies this, history
      ensures Valid() && SetupsOf(history.nodes) == old(SetupsOf(history.nodes))
      ensures old(finished) ==> finished && winner == old(winner)
      ensures old(finished) ==> history.nodes == old(history.nodes) && history.pointer == old(history.pointer)
      ensures !old(finished) ==> finished && winner == GetOppositeColor(board.turn)
      ensures !old(finished) ==> (history.nodes, history.pointer) == Pushed(old(history.nodes), old(history.pointer), POS_RESIGN, board.koPos, None)
      ensures history.moveNumber == old(history.moveNumber)
    {
      if !finished {
        SetFinished(GetOppositeColor(board.turn));
        ghost var before := history.nodes;
        history.PushResign(board.koPos, board.turn);
        SameSetupsOf(before, history.nodes);
      }
    }

    /** Sets the side to move when `color` is BLACK or WHITE; false otherwise, changing nothing. */
    method SetTurnForced(color: int) returns (ok: bool)
      requires Valid()
      modifies board
      ensures Valid() && ok == IsValidColor(color) && board.intersections == old(board.intersections)
      ensures board.State() == if ok then old(board.State()).(turn := color) else old(board.State())
    {
      if !IsValidColor(color) {
        return false;
      }
      board.SetTurn(color);
      return true;
    }

    /** Writes `state` at `pos` when `pos` is an intersection of the board; always true. */
    method SetIntersectionStateForced(pos: int, state: int) returns (ok: bool)
      requires Valid() && IsState(state)
      modifies board, board.intersections
      ensures Valid() && ok && board.intersections == old(board.intersections)
      ensures board.State() == if IsValidPosition(pos, board.w, board.h) then old(board.State()).(cells := old(board.cells)[pos := state]) else old(board.State())
    {
      if IsValidPosition(pos, board.w, board.h) {
        WellFormedAfterSet(board.State(), pos, state);
        board.SetAt(pos, state);
      }
      return true;
    }

    /** Undo through the history; see `HistoryTree.Undo`. */
    method Undo() returns (r: bool)
      requires Valid()
      modifies this, board, board.intersections, history
      ensures Valid() && history.nodes == old(history.nodes) && board.intersections == old(board.intersections)
      ensures r == (old(history.nodes[history.pointer].prev) >= 0)
      ensures !r ==> history.pointer == old(history.pointer) && board.State() == old(board.State())
      ensures r ==> history.pointer == old(history.nodes[history.pointer].prev)
      ensures r ==> board.State() == UndoneBoard(old(board.State()), old(history.nodes[history.pointer].boardUndo), old(SetupValueOf(history.nodes[history.pointer].setup)))
      ensures r && old(history.nodes[history.pointer].IsResign() || SecondConsecutivePass(history.nodes, history.pointer)) ==> !finished && winner == EMPTY
      ensures !(r && old(history.nodes[history.pointer].IsResign() || SecondConsecutivePass(history.nodes, history.pointer))) ==>
        finished == old(finished) && winner == old(winner)
      ensures r ==> (Play(board.State(), finished, winner)
        == UndoneFrom(history.nodes, old(history.pointer), old(SetupValueOf(history.nodes[history.pointer].setup)), old(Play(board.State(), finished, winner))))
    {
      r := history.Undo(board, this);
    }

    /** Redo through the history; see `HistoryTree.Redo`. */
    method Redo() returns (r: bool)
      requires Valid()
      modifies this, board, board.intersections, history, SetupsOf(history.nodes)
      ensures Valid() && |history.nodes| == |old(history.nodes)|
      ensures r == (old(history.RedoTarget()) >= 0)
      ensures !r ==> history.nodes == old(history.nodes) && history.pointer == old(history.pointer) && board.State() == old(board.State())
      ensures r ==> history.pointer == old(history.RedoTarget())
      ensures !r ==> finished == old(finished) && winner == old(winner)
      ensures r ==> history.nodes == old(history.nodes)[history.pointer := old(history.nodes[history.RedoTarget()]).(boardUndo := history.nodes[history.pointer].boardUndo)]
      ensures r && history.nodes[history.pointer].IsMove() ==>
        PayloadUndoes(old(board.State()), history.nodes[history.pointer].pos, history.nodes[history.pointer].boardUndo)
      ensures r ==>
        (PlayOf(board, this), SetupMap(history.nodes)) == RedoStep(old(history.nodes), old(SetupMap(history.nodes)), history.pointer, old(PlayOf(board, this)))
    {
      r := history.Redo(board, this);
    }

    /** Redo to `descendant` through the history; see `HistoryTree.RedoTo`. */
    method RedoTo(descendant: int) returns (r: bool)
      requires Valid() && -1 <= descendant < |history.nodes|
      requires descendant >= 0 && IsAncestor(history.nodes, history.pointer, descendant) ==> Attached(history.nodes, descendant)
      modifies this, board, board.intersections, history, SetupsOf(history.nodes)
      ensures Valid() && SameTree(old(history.nodes), history.nodes)
      ensures r == (descendant >= 0 && old(IsAncestor(history.nodes, history.pointer, descendant)))
      ensures r ==> history.pointer == descendant
      ensures r ==> RedoneAs(old(history.nodes), old(SetupMap(history.nodes)), Line(old(history.nodes), old(history.pointer), descendant),
                             old(PlayOf(board, this)), PlayOf(board, this), SetupMap(history.nodes), history.nodes)
      ensures !r ==> history.nodes == old(history.nodes) && history.pointer == old(history.pointer) && board.State() == old(board.State())
      ensures !r ==> finished == old(finished) && winner == old(winner)
    {
      r := history.RedoTo(descendant, board, this);
    }

    /**
     * Redo to the node the queries lead to from the current node.  A query
     * naming no point of the board fails, as the program throws there,
     * changing nothing; otherwise the answer is `RedoTo`'s.
     */
    method RedoByQuery(queries: seq<Query>) returns (r: Result<bool>)
      requires Valid()
      modifies this, board, board.intersections, history, SetupsOf(history.nodes)
      ensures Valid() && SameTree(old(history.nodes), history.nodes)
      ensures var q := old(QueryFrom(history.nodes, history.pointer, queries, board.w, board.h));
        (q.Failure? ==> r == Failure(q.error)) && (q.Success? ==> r == Success(old(IsAncestor(history.nodes, history.pointer, q.value))))
      ensures var q := old(QueryFrom(history.nodes, history.pointer, queries, board.w, board.h));
        r == Success(true) ==>
          q.Success? && history.pointer == q.value
          && RedoneAs(old(history.nodes), old(SetupMap(history.nodes)), Line(old(history.nodes), old(history.pointer), q.value),
                      old(PlayOf(board, this)), PlayOf(board, this), SetupMap(history.nodes), history.nodes)
      ensures r != Success(true) ==> history.nodes == old(history.nodes) && history.pointer == old(history.pointer)
      ensures r != Success(true) ==> board.State() == old(board.State()) && finished == old(finished) && winner == old(winner)
    {
      var found := FindByQuery(history.nodes, history.pointer, queries, board.w, board.h);
      if found.Failure? {
        return Failure(found.error);
      }
      QueryFromAttached(history.nodes, history.pointer, queries, board.w, board.h);
      var ok := history.RedoTo(found.value, board, this);
      r := Success(ok);
    }

    /** Undo back to the root through the history. */
    method UndoAll()
      requires Valid()
      modifies this, board, board.intersections, history
      ensures Valid() && history.nodes == old(history.nodes) && history.pointer == 0 && history.moveNumber == 0
      ensures board.intersections == old(board.intersections)
      ensures Play(board.State(), finished, winner)
        == UndoneTo(history.nodes, old(SetupMap(history.nodes)), old(history.pointer), 0, old(Play(board.State(), finished, winner)))
    {
      history.UndoAll(board, this);
    }

    /** Redo along the redo targets through the history. */
    method RedoAll()
      requires Valid()
      modifies this, board, board.intersections, history, SetupsOf(history.nodes)
      ensures Valid() && SameTree(old(history.nodes), history.nodes)
      ensures history.pointer == RedoEnd(old(history.nodes), old(history.pointer))
      ensures RedoneAs(old(history.nodes), old(SetupMap(history.nodes)), RedoPath(old(history.nodes), old(history.pointer)),
                       old(PlayOf(board, this)), PlayOf(board, this), SetupMap(history.nodes), history.nodes)
    {
      history.RedoAll(board, this);
    }

    /** Undo back to the nearest node recording `pos`, or the root. */
    method BackToMove(pos: int)
      requires Valid()
      modifies this, board, board.intersections, history
      ensures Valid() && history.nodes == old(history.nodes)
      ensures var x := old(NearestWithPos(history.nodes, history.pointer, pos)); history.pointer == if x >= 0 then x else 0
      ensures Play(board.State(), finished, winner)
        == UndoneTo(history.nodes, old(SetupMap(history.nodes)), old(history.pointer), history.pointer, old(Play(board.State(), finished, winner)))
    {
      history.BackToMove(pos, board, this);
    }

    /** Sets the current node's comment. */
    method SetCommentToCurrentNode(text: string)
      requires Valid()
      modifies history
      ensures Valid() && history.pointer == old(history.pointer)
      ensures history.nodes == old(history.nodes)[history.pointer := old(history.nodes[history.pointer]).(comment := Some(text))]
    {
      history.SetCommentToCurrentNode(text);
    }
  }
}
