/**
 * The undo payload a history node keeps for a move: points to set back to
 * BLACK, to WHITE and to EMPTY, the ko point and turn to restore, and
 * signed prisoner corrections.  Applying it to the board after the move
 * gives back the board before the move.
 */
module Changes {
  import opened Stones
  import opened Geometry
  import opened Strings
  import opened Rules
  import opened Wrappers
  import opened Boards

  /** A point list field: absent, a single position, or an array of positions. */
  datatype Positions = NoPoints | One(pos: int) | Many(list: seq<int>)

  datatype BoardChanges = BoardChanges(
    black: Positions, white: Positions, empty: Positions,
    koPos: Option<int>, turn: Option<int>,
    blackPrisoners: Option<int>, whitePrisoners: Option<int>)
  {
    /** Nothing to restore: no points, no ko point, no turn, no non-zero prisoner correction. */
    predicate IsEmpty() {
      && NoPointsIn(black) && NoPointsIn(white) && NoPointsIn(empty)
      && koPos.None? && turn.None?
      && (blackPrisoners.None? || blackPrisoners.value == 0)
      && (whitePrisoners.None? || whitePrisoners.value == 0)
    }

    /**
     * Restores the board: BLACK points, then WHITE points, then EMPTY
     * points (positions off the board are skipped), then the ko point,
     * the turn when it is a real colour, and the two prisoner corrections.
     */
    method ApplyTo(board: Board)
      requires board.Valid()
      modifies board, board.intersections
      ensures board.Valid() && board.intersections == old(board.intersections)
      ensures board.State() == ApplyChanges(old(board.State()), this)
    {
      SetIntersections(board, black, BLACK);
      SetIntersections(board, white, WHITE);
      SetIntersections(board, empty, EMPTY);
      if koPos.Some? {
        board.SetKoPos(koPos.value);
      }
      if turn.Some? && IsValidColor(turn.value) {
        board.SetTurn(turn.value);
      }
      AddPrisonerDelta(board, BLACK, blackPrisoners);
      AddPrisonerDelta(board, WHITE, whitePrisoners);
    }
  }

  predicate NoPointsIn(ps: Positions) {
    ps.NoPoints? || (ps.Many? && |ps.list| == 0)
  }

  /** The undo payload of a placement by `color` at `pos` that captured `removedStones`. */
  function CreateUndoMove(color: int, pos: int, removedStones: seq<int>, koPosOld: int): (r: BoardChanges)
    ensures r.empty == One(pos) && r.koPos == Some(koPosOld) && r.turn == Some(color)
    ensures color == WHITE ==>
      r.black == Many(removedStones) && r.white == NoPoints &&
      r.blackPrisoners == Some(-|removedStones|) && r.whitePrisoners == Some(0)
    ensures color == BLACK ==>
      r.white == Many(removedStones) && r.black == NoPoints &&
      r.whitePrisoners == Some(-|removedStones|) && r.blackPrisoners == Some(0)
    ensures !IsValidColor(color) ==>
      r.black == NoPoints && r.white == NoPoints &&
      r.blackPrisoners == Some(0) && r.whitePrisoners == Some(0)
  {
    BoardChanges(
      if color == WHITE then Many(removedStones) else NoPoints,
      if color == BLACK then Many(removedStones) else NoPoints,
      One(pos),
      Some(koPosOld),
      Some(color),
      Some(if color == WHITE then -|removedStones| else 0),
      Some(if color == BLACK then -|removedStones| else 0))
  }

  /** The undo payload of a pass, and of a move replayed as illegal: ko point and turn only. */
  function KoAndTurnUndo(koPosOld: int, turnOld: int): (r: BoardChanges)
    ensures r.koPos == Some(koPosOld) && r.turn == Some(turnOld)
    ensures NoPointsIn(r.black) && NoPointsIn(r.white) && NoPointsIn(r.empty)
    ensures r.blackPrisoners.None? && r.whitePrisoners.None?
  {
    BoardChanges(NoPoints, NoPoints, NoPoints, Some(koPosOld), Some(turnOld), None, None)
  }

  // ----- the effect on a board value -----

  /** `c` with every on-board position of `ps` set to `color`, in list order. */
  function SetList(w: int, h: int, c: seq<int>, ps: seq<int>, color: int): (r: seq<int>)
    decreases |ps|
  {
    if ps == [] then c
    else
      var r0 := SetList(w, h, c, ps[..|ps| - 1], color);
      var p := ps[|ps| - 1];
      if IsValidPosition(p, w, h) && p < |r0| then r0[p := color] else r0
  }

  function SetPositions(w: int, h: int, c: seq<int>, ps: Positions, color: int): seq<int> {
    match ps
    case NoPoints => c
    case One(p) => SetList(w, h, c, [p], color)
    case Many(list) => SetList(w, h, c, list, color)
  }

  function AddDelta(prisoners: seq<int>, color: int, delta: Option<int>): seq<int>
    requires |prisoners| == 2
  {
    if delta.Some? then PrisonersAdded(prisoners, color, delta.value) else prisoners
  }

  /** The board after `ch` is applied to `s`. */
  ghost function ApplyChanges(s: BoardState, ch: BoardChanges): BoardState
    requires |s.prisoners| == 2
  {
    var c1 := SetPositions(s.w, s.h, s.cells, ch.black, BLACK);
    var c2 := SetPositions(s.w, s.h, c1, ch.white, WHITE);
    var c3 := SetPositions(s.w, s.h, c2, ch.empty, EMPTY);
    s.(cells := c3,
       koPos := if ch.koPos.Some? then ch.koPos.value else s.koPos,
       turn := if ch.turn.Some? && IsValidColor(ch.turn.value) then ch.turn.value else s.turn,
       prisoners := AddDelta(AddDelta(s.prisoners, BLACK, ch.blackPrisoners), WHITE, ch.whitePrisoners))
  }

  /** Each on-board point listed ends up `color`; every other point keeps its state. */
  lemma {:induction false} SetListAt(w: int, h: int, c: seq<int>, ps: seq<int>, color: int)
    requires |c| == w * h
    ensures |SetList(w, h, c, ps, color)| == |c|
    ensures forall q :: 0 <= q < |c| ==> SetList(w, h, c, ps, color)[q] == if q in ps then color else c[q]
    decreases |ps|
  {
    if ps != [] {
      var init := ps[..|ps| - 1];
      SetListAt(w, h, c, init, color);
      assert ps == init + [ps[|ps| - 1]];
      forall q | 0 <= q < |c|
        ensures q in ps <==> q in init || q == ps[|ps| - 1]
      {
        if q in ps {
          var i :| 0 <= i < |ps| && ps[i] == q;
          if i < |ps| - 1 { assert init[i] == q; }
        }
      }
    }
  }

  lemma SetListStep(w: int, h: int, c: seq<int>, list: seq<int>, i: nat, color: int)
    requires i < |list|
    ensures var r0 := SetList(w, h, c, list[..i], color);
      SetList(w, h, c, list[..i + 1], color) ==
        if IsValidPosition(list[i], w, h) && list[i] < |r0| then r0[list[i] := color] else r0
  {
    assert list[..i + 1][..i] == list[..i];
  }

  // ----- the method the payload's ApplyTo uses -----

  method SetIntersections(board: Board, ps: Positions, color: int)
    requires board.Valid() && IsState(color)
    modifies board, board.intersections
    ensures board.Valid() && board.OnlyStones()
    ensures board.cells == SetPositions(board.w, board.h, old(board.cells), ps, color)
  {
    var list := match ps case NoPoints => [] case One(p) => [p] case Many(l) => l;
    assert SetPositions(board.w, board.h, board.cells, ps, color) == SetList(board.w, board.h, board.cells, list, color);
    ghost var c0 := board.cells;
    var i := 0;
    while i < |list|
      invariant 0 <= i <= |list|
      invariant board.Valid() && board.OnlyStones()
      invariant board.cells == SetList(board.w, board.h, c0, list[..i], color)
    {
      SetListed(board, c0, list, i, color);
      i := i + 1;
    }
    assert list[..|list|] == list;
  }

  /** One pass of the loop of `setIntersections`: the `i`-th listed point, when on the board, takes `color`. */
  method SetListed(board: Board, ghost c0: seq<int>, list: seq<int>, i: nat, color: int)
    requires i < |list| && board.Valid() && IsState(color)
    requires board.cells == SetList(board.w, board.h, c0, list[..i], color)
    modifies board, board.intersections
    ensures board.Valid() && board.OnlyStones()
    ensures board.cells == SetList(board.w, board.h, c0, list[..i + 1], color)
  {
    var p := list[i];
    SetListStep(board.w, board.h, c0, list, i, color);
    if IsValidPosition(p, board.w, board.h) {
      WellFormedAfterSet(board.State(), p, color);
      board.SetAt(p, color);
    }
  }

  method AddPrisonerDelta(board: Board, color: int, delta: Option<int>)
    requires board.Valid()
    modifies board
    ensures board.Valid() && board.intersections == old(board.intersections)
    ensures board.cells == old(board.cells) && board.koPos == old(board.koPos) && board.turn == old(board.turn)
    ensures board.prisoners == AddDelta(old(board.prisoners), color, delta)
  {
    if delta.Some? {
      if delta.value < 0 {
        board.RemovePrisoners(color, -delta.value);
      } else {
        board.AddPrisoners(color, delta.value);
      }
    }
  }

  // ----- what the payloads restore -----

  /** An empty payload changes nothing. */
  lemma EmptyChangesNothing(s: BoardState, ch: BoardChanges)
    requires WellFormed(s) && ch.IsEmpty()
    ensures ApplyChanges(s, ch) == s
  {
    assert SetPositions(s.w, s.h, s.cells, ch.black, BLACK) == s.cells;
    assert SetPositions(s.w, s.h, s.cells, ch.white, WHITE) == s.cells;
    assert SetPositions(s.w, s.h, s.cells, ch.empty, EMPTY) == s.cells;
  }

  /**
   * Undoing a legal placement: the captured stones come back in the
   * opponent's colour, the placed point is emptied, the old ko point and
   * turn return and the opponent-colour prisoners lose the captured count,
   * which is exactly the board before the move.
   */
  lemma UndoPlacementRestores(s: BoardState, pos: int, color: int, removed: seq<int>)
    requires WellFormed(s) && IsMoveLegal(s, pos, color)
    requires Distinct(removed) && Elems(removed) == CapturedSet(s.w, s.h, s.cells[pos := color], color, pos)
    ensures ApplyChanges(Place(s, pos, color), CreateUndoMove(color, pos, removed, s.koPos)) == s
  {
    var c1 := s.cells[pos := color];
    CapturedStonesAreOpponents(s.w, s.h, c1, color, pos);
    DistinctCard(removed);
    UndoFromParts(s, pos, color, removed, Place(s, pos, color));
  }

  /** The undo payload restores any board whose parts are those of the placement. */
  lemma UndoFromParts(s: BoardState, pos: int, color: int, removed: seq<int>, t: BoardState)
    requires WellFormed(s) && OnBoard(s.w, s.h, pos) && s.cells[pos] == EMPTY && IsValidColor(color) && s.turn == color
    requires forall p :: p in Elems(removed) ==> 0 <= p < |s.cells| && s.cells[pos := color][p] == GetOppositeColor(color)
    requires |Elems(removed)| == |removed|
    requires t.w == s.w && t.h == s.h && t.cells == Clear(s.cells[pos := color], Elems(removed))
    requires t.prisoners == PrisonersAdded(s.prisoners, GetOppositeColor(color), |Elems(removed)|)
    ensures ApplyChanges(t, CreateUndoMove(color, pos, removed, s.koPos)) == s
  {
    UndoPlacementCells(s.w, s.h, s.cells, pos, color, Elems(removed), removed, t.cells);
  }

  /** The cell part of the undo: the captured points get the opponent's colour back and `pos` its EMPTY. */
  lemma {:induction false} UndoPlacementCells(w: int, h: int, c: seq<int>, pos: int, color: int, taken: set<int>, removed: seq<int>, after: seq<int>)
    requires |c| == w * h && OnBoard(w, h, pos) && c[pos] == EMPTY && IsValidColor(color)
    requires taken == Elems(removed)
    requires forall p :: p in taken ==> 0 <= p < |c| && c[pos := color][p] == GetOppositeColor(color)
    requires after == Clear(c[pos := color], taken)
    ensures var ch := CreateUndoMove(color, pos, removed, NPOS);
      SetPositions(w, h, SetPositions(w, h, SetPositions(w, h, after, ch.black, BLACK), ch.white, WHITE), ch.empty, EMPTY) == c
  {
    var opp := GetOppositeColor(color);
    var ch := CreateUndoMove(color, pos, removed, NPOS);
    var b1 := SetList(w, h, after, removed, opp);
    SetListAt(w, h, after, removed, opp);
    SetListAt(w, h, b1, [pos], EMPTY);
    var r := SetList(w, h, b1, [pos], EMPTY);
    forall q | 0 <= q < |c|
      ensures r[q] == c[q]
    {
      if q != pos && q in taken {
        assert q in removed;
      }
    }
    if color == WHITE {
      assert SetPositions(w, h, after, ch.black, BLACK) == b1;
      assert SetPositions(w, h, b1, ch.white, WHITE) == b1;
    } else {
      assert SetPositions(w, h, after, ch.black, BLACK) == after;
      assert SetPositions(w, h, after, ch.white, WHITE) == b1;
    }
    assert r == c;
  }

  /** Undoing a pass gives back the ko point and the turn, and so the board before the pass. */
  lemma UndoPassRestores(s: BoardState)
    requires WellFormed(s)
    ensures ApplyChanges(Pass(s), KoAndTurnUndo(s.koPos, s.turn)) == s
  {
    var t := Pass(s);
    assert SetPositions(t.w, t.h, t.cells, NoPoints, BLACK) == s.cells;
  }
}
