/**
 * Replaying a tree record into a live game, shared by the base64 and the
 * human-readable decoders: a setup token becomes a setup node (or the
 * root's setup) whose recorded difference is built point by point while
 * the board is painted, and the branch tokens walk the history with a
 * stack of the nodes where branches began.
 *
 * Painting is specified by `Paint`: a listed on-board point takes the
 * group's state, every other point keeps its own.  The recorded
 * difference is specified by `Tracks`: it takes the board as it was before
 * the setup to the board as it is, and taking it back restores the former
 * (`TracksUndo`).
 */
module TreeReplay {
  import opened Stones
  import Seqs
  import Changes
  import opened Wrappers
  import opened Geometry
  import opened Rules
  import opened Diffs
  import opened HistoryNodes
  import opened History
  import opened TreeTokens
  import opened SgfPoints
  import TreeBase64

  // ----- what a setup token paints -----

  /** `c` with every listed point that lies on it set to `state`. */
  function Paint(c: seq<int>, ps: seq<int>, state: int): (r: seq<int>)
    ensures |r| == |c|
  {
    seq(|c|, q requires 0 <= q < |c| => if q in ps then state else c[q])
  }

  lemma PaintStep(c: seq<int>, ps: seq<int>, p: int, state: int)
    ensures 0 <= p < |c| ==> Paint(c, ps + [p], state) == Paint(c, ps, state)[p := state]
    ensures !(0 <= p < |c|) ==> Paint(c, ps + [p], state) == Paint(c, ps, state)
  {
  }

  lemma PaintNothing(c: seq<int>, state: int)
    ensures Paint(c, [], state) == c
  {
  }

  lemma PaintPaint(c: seq<int>, a: seq<int>, b: seq<int>, state: int)
    ensures Paint(Paint(c, a, state), b, state) == Paint(c, a + b, state)
  {
  }

  /** The points of the rectangle with corners `lt` and `rb`, row by row; none when `rb` is left of or above `lt`. */
  function RectCells(lt: int, rb: int, w: int): seq<int>
    requires w >= 1
  {
    RectPoints(ToX(w, lt), ToY(w, lt), ToX(w, rb), ToY(w, rb), w)
  }

  function RectsCells(rs: seq<(nat, nat)>, w: int): seq<int>
    requires w >= 1
  {
    if rs == [] then [] else RectsCells(rs[..|rs| - 1], w) + RectCells(rs[|rs| - 1].0, rs[|rs| - 1].1, w)
  }

  /** The points a group paints: its single points, then its rectangles in order. */
  function GroupCells(g: Group, w: int): seq<int>
    requires w >= 1
  {
    g.points + RectsCells(g.rects, w)
  }

  /** The cells after the three groups are painted EMPTY, BLACK and WHITE, in that order. */
  function SetupCells(c: seq<int>, gs: seq<Group>, w: int): seq<int>
    requires w >= 1 && |gs| == 3
  {
    Paint(Paint(Paint(c, GroupCells(gs[0], w), EMPTY), GroupCells(gs[1], w), BLACK), GroupCells(gs[2], w), WHITE)
  }

  /** A rectangle paints exactly the on-board points whose column and row lie between its corners'. */
  lemma RectCellsAreTheBox(lt: int, rb: int, w: int, h: int, q: int)
    requires Dims(w, h) && OnBoard(w, h, lt) && OnBoard(w, h, rb) && OnBoard(w, h, q)
    ensures q in RectCells(lt, rb, w) <==>
      ToX(w, lt) <= ToX(w, q) <= ToX(w, rb) && ToY(w, lt) <= ToY(w, q) <= ToY(w, rb)
  {
    DivModFacts(w, lt);
    DivModFacts(w, rb);
    DivModFacts(w, q);
    var x0, y0, x1, y1 := ToX(w, lt), ToY(w, lt), ToX(w, rb), ToY(w, rb);
    var cells := RectCells(lt, rb, w);
    if x0 <= ToX(w, q) <= x1 && y0 <= ToY(w, q) <= y1 {
      RectPointsCover(x0, y0, x1, y1, w);
      assert ToPosition(ToX(w, q), ToY(w, q), w) == q;
    }
    if q in cells {
      RectPointsInside(x0, y0, x1, y1, w);
      var k :| 0 <= k < |cells| && cells[k] == q;
    }
  }

  // ----- the difference a setup records -----

  /**
   * `m` records the change from `c0` to `c`: each entry is keyed by its
   * position, starts from the old board's state there and ends at the new
   * board's, and every unrecorded point is unchanged.
   */
  ghost predicate Tracks(m: map<int, Change>, c0: seq<int>, c: seq<int>) {
    && |c0| == |c|
    && (forall q | 0 <= q < |c0| :: IsState(c0[q]))
    && (forall p | p in m :: m[p].pos == p)
    && ConsistentWith(m, c0)
    && ApplyMap(c0, m) == c
  }

  /** An empty record tracks a board that has not changed. */
  lemma TracksStart(c: seq<int>)
    requires forall q | 0 <= q < |c| :: IsState(c[q])
    ensures Tracks(map[], c, c)
  {
  }

  /** Taking a tracked record back restores the board it started from. */
  lemma TracksUndo(m: map<int, Change>, c0: seq<int>, c: seq<int>)
    requires Tracks(m, c0, c)
    ensures ApplyInverseMap(c, m) == c0
  {
    forall q | 0 <= q < |c0| ensures ApplyInverseMap(c, m)[q] == c0[q] {
      if q !in m {
        assert ApplyMap(c0, m)[q] == c0[q];
      }
    }
  }

  /** The board a record started from, read back from the board it ends at. */
  function Before(m: map<int, Change>, c: seq<int>): seq<int> {
    ApplyInverseMap(c, m)
  }

  /** Every entry of the record is keyed by its on-board position and goes between stone states. */
  ghost predicate MapFits(m: map<int, Change>, w: int, h: int) {
    forall p | p in m :: m[p].pos == p && OnBoard(w, h, p) && IsState(m[p].oldState) && IsState(m[p].newState)
  }

  /** A sorted change list fits the board exactly when the map it stands for does. */
  lemma FitsAsMap(s: seq<Change>, t: Option<TurnChange>, w: int, h: int)
    requires StrictlySorted(s)
    ensures Fits(SetupValue(t, s), w, h) <==> MapFits(ToMap(s), w, h)
  {
    var m := ToMap(s);
    if Fits(SetupValue(t, s), w, h) {
      forall p | p in m ensures m[p].pos == p && OnBoard(w, h, p) && IsState(m[p].oldState) && IsState(m[p].newState) {
        ToMapKeys(s);
        assert p in PosSet(s);
        var i :| 0 <= i < |s| && s[i].pos == p;
        ToMapSorted(s, i);
      }
    }
    if MapFits(m, w, h) {
      forall i | 0 <= i < |s| ensures OnBoard(w, h, s[i].pos) && IsState(s[i].newState) && IsState(s[i].oldState) {
        ToMapSorted(s, i);
      }
    }
  }

  /** Recording a change between stone states at an on-board point keeps the record fitting the board. */
  lemma AddedChangeFits(m: map<int, Change>, pos: int, oldState: int, newState: int, w: int, h: int)
    requires MapFits(m, w, h) && OnBoard(w, h, pos) && IsState(oldState) && IsState(newState)
    ensures MapFits(AddedChange(m, pos, oldState, newState), w, h)
  {
  }

  // ----- painting a live board -----

  /**
   * One point of a setup: the change from the board's state there is
   * added to the record, then the point takes `state`.  A record that
   * tracked the board from `c0` still does.
   */
  method PaintPoint(game: Game, d: BoardDiff, pos: int, state: int, ghost c0: seq<int>)
    requires game.Valid() && d in SetupsOf(game.history.nodes)
    requires OnBoard(game.board.w, game.board.h, pos) && IsState(state)
    modifies game.board, game.board.intersections, d
    ensures game.Valid() && game.board.intersections == old(game.board.intersections)
    ensures game.board.State() == old(game.board.State()).(cells := old(game.board.cells)[pos := state])
    ensures old(Tracks(ToMap(d.intersections), c0, game.board.cells)) ==> Tracks(ToMap(d.intersections), c0, game.board.cells)
    ensures d.turn == old(d.turn)
  {
    var w, h := game.board.w, game.board.h;
    var oldState := game.board.GetAt(pos);
    assert Fits(ValueOf(d), w, h);
    FitsAsMap(d.intersections, d.turn, w, h);
    AddedChangeFits(ToMap(d.intersections), pos, oldState, state, w, h);
    if Tracks(ToMap(d.intersections), c0, game.board.cells) {
      AddedChangeTracksBoard(c0, ToMap(d.intersections), pos, state);
    }
    d.AddIntersectionChange(pos, oldState, state);
    FitsAsMap(d.intersections, d.turn, w, h);
    forall e | e in SetupsOf(game.history.nodes) ensures Fits(ValueOf(e), w, h) {
      if e != d {
        assert old(Fits(ValueOf(e), w, h));
      }
    }
    var _ := game.SetIntersectionStateForced(pos, state);
  }

  /** The program's points loop: each listed point on the board is painted; others are skipped. */
  method PaintPoints(game: Game, d: BoardDiff, ps: seq<int>, state: int, ghost c0: seq<int>)
    requires game.Valid() && d in SetupsOf(game.history.nodes) && IsState(state)
    modifies game.board, game.board.intersections, d
    ensures game.Valid() && game.board.intersections == old(game.board.intersections)
    ensures game.board.State() == old(game.board.State()).(cells := Paint(old(game.board.cells), ps, state))
    ensures old(Tracks(ToMap(d.intersections), c0, game.board.cells)) ==> Tracks(ToMap(d.intersections), c0, game.board.cells)
    ensures d.turn == old(d.turn)
  {
    var k := 0;
    while k < |ps|
      invariant 0 <= k <= |ps|
      invariant game.Valid() && game.board.intersections == old(game.board.intersections)
      invariant game.board.State() == old(game.board.State()).(cells := Paint(old(game.board.cells), ps[..k], state))
      invariant old(Tracks(ToMap(d.intersections), c0, game.board.cells)) ==> Tracks(ToMap(d.intersections), c0, game.board.cells)
      invariant d.turn == old(d.turn)
    {
      var pos := ps[k];
      if IsValidPosition(pos, game.board.w, game.board.h) {
        PaintPoint(game, d, pos, state, c0);
      }
      PaintStep(old(game.board.cells), ps[..k], pos, state);
      assert ps[..k + 1] == ps[..k] + [pos];
      k := k + 1;
    }
    Seqs.TakeAll(ps);
  }

  lemma RowStep(x0: int, x: int, y: int, w: int)
    requires x0 <= x
    ensures RowPoints(x0, x, y, w) == RowPoints(x0, x - 1, y, w) + [ToPosition(x, y, w)]
  {
  }

  /** The program's inner rectangle loop: row `y` from column `left` to column `right`. */
  method PaintRow(game: Game, d: BoardDiff, y: int, left: int, right: int, state: int, ghost c0: seq<int>)
    requires game.Valid() && d in SetupsOf(game.history.nodes) && IsState(state)
    requires 0 <= y < game.board.h && 0 <= left && right < game.board.w
    modifies game.board, game.board.intersections, d
    ensures game.Valid() && game.board.intersections == old(game.board.intersections)
    ensures game.board.State() == old(game.board.State()).(cells := Paint(old(game.board.cells), RowPoints(left, right, y, game.board.w), state))
    ensures old(Tracks(ToMap(d.intersections), c0, game.board.cells)) ==> Tracks(ToMap(d.intersections), c0, game.board.cells)
    ensures d.turn == old(d.turn)
  {
    var w, h := game.board.w, game.board.h;
    var x := left;
    while x <= right
      invariant left <= x && (x <= right + 1 || x == left)
      invariant game.Valid() && game.board.intersections == old(game.board.intersections)
      invariant game.board.State() == old(game.board.State()).(cells := Paint(old(game.board.cells), RowPoints(left, x - 1, y, w), state))
      invariant old(Tracks(ToMap(d.intersections), c0, game.board.cells)) ==> Tracks(ToMap(d.intersections), c0, game.board.cells)
      invariant d.turn == old(d.turn)
    {
      var pos := ToPosition(x, y, w);
      CornerOnBoard(x, y, w, h);
      PaintPoint(game, d, pos, state, c0);
      RowStep(left, x, y, w);
      PaintStep(old(game.board.cells), RowPoints(left, x - 1, y, w), pos, state);
      x := x + 1;
    }
  }

  /** The program's rectangle loops: the rows from the top-left corner's to the bottom-right corner's. */
  method PaintRect(game: Game, d: BoardDiff, lt: int, rb: int, state: int, ghost c0: seq<int>)
    requires game.Valid() && d in SetupsOf(game.history.nodes) && IsState(state)
    requires OnBoard(game.board.w, game.board.h, lt) && OnBoard(game.board.w, game.board.h, rb)
    modifies game.board, game.board.intersections, d
    ensures game.Valid() && game.board.intersections == old(game.board.intersections)
    ensures game.board.State() == old(game.board.State()).(cells := Paint(old(game.board.cells), RectCells(lt, rb, game.board.w), state))
    ensures old(Tracks(ToMap(d.intersections), c0, game.board.cells)) ==> Tracks(ToMap(d.intersections), c0, game.board.cells)
    ensures d.turn == old(d.turn)
  {
    var w, h := game.board.w, game.board.h;
    RowOnBoard(w, h, lt);
    RowOnBoard(w, h, rb);
    PaintRows(game, d, ToX(w, lt), ToY(w, lt), ToX(w, rb), ToY(w, rb), state, c0);
  }

  method PaintRows(game: Game, d: BoardDiff, left: int, top: int, right: int, bottom: int, state: int, ghost c0: seq<int>)
    requires game.Valid() && d in SetupsOf(game.history.nodes) && IsState(state)
    requires 0 <= left && right < game.board.w && 0 <= top && bottom < game.board.h
    modifies game.board, game.board.intersections, d
    ensures game.Valid() && game.board.intersections == old(game.board.intersections)
    ensures game.board.State() == old(game.board.State()).(cells := Paint(old(game.board.cells), RectPoints(left, top, right, bottom, game.board.w), state))
    ensures old(Tracks(ToMap(d.intersections), c0, game.board.cells)) ==> Tracks(ToMap(d.intersections), c0, game.board.cells)
    ensures d.turn == old(d.turn)
  {
    ghost var s0 := game.board.State();
    ghost var tracked := Tracks(ToMap(d.intersections), c0, game.board.cells);
    var y := top;
    PaintNothing(s0.cells, state);
    while y <= bottom
      invariant top <= y && (y <= bottom + 1 || y == top)
      invariant game.Valid() && game.board.intersections == old(game.board.intersections)
      invariant game.board.State() == s0.(cells := Paint(s0.cells, RectPoints(left, top, right, y - 1, game.board.w), state))
      invariant tracked ==> Tracks(ToMap(d.intersections), c0, game.board.cells)
      invariant d.turn == old(d.turn)
    {
      PaintNextRow(game, d, y, left, top, right, state, c0, s0);
      y := y + 1;
    }
    RowsPainted(left, top, right, bottom, y, game.board.w);
  }

  /** Once the rows run past `bottom`, or never start, the rows painted are those of the rectangle. */
  lemma RowsPainted(left: int, top: int, right: int, bottom: int, y: int, w: int)
    requires top <= y && (y == bottom + 1 || (y == top && bottom < top))
    ensures RectPoints(left, top, right, y - 1, w) == RectPoints(left, top, right, bottom, w)
  {
  }

  /** One pass of the rectangle loops' outer loop: row `y` joins the rows above it. */
  method PaintNextRow(game: Game, d: BoardDiff, y: int, left: int, top: int, right: int, state: int, ghost c0: seq<int>, ghost s0: BoardState)
    requires game.Valid() && d in SetupsOf(game.history.nodes) && IsState(state)
    requires 0 <= left && right < game.board.w && 0 <= top <= y < game.board.h
    requires game.board.State() == s0.(cells := Paint(s0.cells, RectPoints(left, top, right, y - 1, game.board.w), state))
    modifies game.board, game.board.intersections, d
    ensures game.Valid() && game.board.intersections == old(game.board.intersections)
    ensures game.board.State() == s0.(cells := Paint(s0.cells, RectPoints(left, top, right, y, game.board.w), state))
    ensures old(Tracks(ToMap(d.intersections), c0, game.board.cells)) ==> Tracks(ToMap(d.intersections), c0, game.board.cells)
    ensures d.turn == old(d.turn)
  {
    var w := game.board.w;
    PaintRow(game, d, y, left, right, state, c0);
    PaintPaint(s0.cells, RectPoints(left, top, right, y - 1, w), RowPoints(left, right, y, w), state);
    assert RectPoints(left, top, right, y, w) == RectPoints(left, top, right, y - 1, w) + RowPoints(left, right, y, w);
  }

  method PaintRects(game: Game, d: BoardDiff, rs: seq<(nat, nat)>, state: int, ghost c0: seq<int>)
    requires game.Valid() && d in SetupsOf(game.history.nodes) && IsState(state)
    requires forall i | 0 <= i < |rs| :: OnBoard(game.board.w, game.board.h, rs[i].0) && OnBoard(game.board.w, game.board.h, rs[i].1)
    modifies game.board, game.board.intersections, d
    ensures game.Valid() && game.board.intersections == old(game.board.intersections)
    ensures game.board.State() == old(game.board.State()).(cells := Paint(old(game.board.cells), RectsCells(rs, game.board.w), state))
    ensures old(Tracks(ToMap(d.intersections), c0, game.board.cells)) ==> Tracks(ToMap(d.intersections), c0, game.board.cells)
    ensures d.turn == old(d.turn)
  {
    var w := game.board.w;
    var k := 0;
    while k < |rs|
      invariant 0 <= k <= |rs|
      invariant game.Valid() && game.board.intersections == old(game.board.intersections)
      invariant game.board.State() == old(game.board.State()).(cells := Paint(old(game.board.cells), RectsCells(rs[..k], w), state))
      invariant old(Tracks(ToMap(d.intersections), c0, game.board.cells)) ==> Tracks(ToMap(d.intersections), c0, game.board.cells)
      invariant d.turn == old(d.turn)
    {
      PaintRect(game, d, rs[k].0, rs[k].1, state, c0);
      PaintPaint(old(game.board.cells), RectsCells(rs[..k], w), RectCells(rs[k].0, rs[k].1, w), state);
      assert rs[..k + 1][..k] == rs[..k];
      k := k + 1;
    }
    Seqs.TakeAll(rs);
  }

  method PaintGroup(game: Game, d: BoardDiff, g: Group, state: int, ghost c0: seq<int>)
    requires game.Valid() && d in SetupsOf(game.history.nodes) && IsState(state)
    requires ValidGroup(g, game.board.w * game.board.h)
    modifies game.board, game.board.intersections, d
    ensures game.Valid() && game.board.intersections == old(game.board.intersections)
    ensures game.board.State() == old(game.board.State()).(cells := Paint(old(game.board.cells), GroupCells(g, game.board.w), state))
    ensures old(Tracks(ToMap(d.intersections), c0, game.board.cells)) ==> Tracks(ToMap(d.intersections), c0, game.board.cells)
    ensures d.turn == old(d.turn)
  {
    PaintPoints(game, d, g.points, state, c0);
    PaintRects(game, d, g.rects, state, c0);
    PaintPaint(old(game.board.cells), g.points, RectsCells(g.rects, game.board.w), state);
  }

  /** The three groups of a setup token, painted EMPTY, BLACK and WHITE. */
  method PaintGroups(game: Game, d: BoardDiff, gs: seq<Group>, ghost c0: seq<int>)
    requires game.Valid() && d in SetupsOf(game.history.nodes)
    requires |gs| == 3 && forall si | 0 <= si < 3 :: ValidGroup(gs[si], game.board.w * game.board.h)
    modifies game.board, game.board.intersections, d
    ensures game.Valid() && game.board.intersections == old(game.board.intersections)
    ensures game.board.State() == old(game.board.State()).(cells := SetupCells(old(game.board.cells), gs, game.board.w))
    ensures old(Tracks(ToMap(d.intersections), c0, game.board.cells)) ==> Tracks(ToMap(d.intersections), c0, game.board.cells)
    ensures d.turn == old(d.turn)
  {
    PaintGroup(game, d, gs[0], EMPTY, c0);
    PaintGroup(game, d, gs[1], BLACK, c0);
    PaintGroup(game, d, gs[2], WHITE, c0);
  }

  /** The program's setup-turn step: the turn change from the side to move is recorded, then the side to move is set. */
  method SetupTurn(game: Game, d: BoardDiff, newTurn: int)
    requires game.Valid() && d in SetupsOf(game.history.nodes) && IsValidColor(newTurn)
    modifies game.board, d
    ensures game.Valid() && game.board.State() == old(game.board.State()).(turn := newTurn)
    ensures game.board.intersections == old(game.board.intersections)
    ensures d.intersections == old(d.intersections)
    ensures d.turn.Some? <==> old(game.board.turn) != newTurn
    ensures d.turn.Some? ==> d.turn.value.oldTurn == old(game.board.turn)
    ensures ApplyTurnValue(old(game.board.turn), d.turn) == newTurn
  {
    var w, h := game.board.w, game.board.h;
    var oldTurn := game.board.turn;
    d.SetTurnChange(oldTurn, newTurn);
    forall e | e in SetupsOf(game.history.nodes) ensures Fits(ValueOf(e), w, h) {
      assert old(Fits(ValueOf(e), w, h));
    }
    var _ := game.SetTurnForced(newTurn);
  }

  /** The setup objects an optional setup holds. */
  function SetupSet(setup: Option<BoardDiff>): set<BoardDiff> {
    if setup.Some? then {setup.value} else {}
  }

  /** The history a setup token leaves: a new setup node, unless the root takes the setup, and the setup `d` on the current node. */
  ghost predicate SetupPushed(nodes0: seq<Node>, p0: int, koPos: int, atRoot: bool, nodes: seq<Node>, p: int, d: BoardDiff)
    requires 0 <= p0 < |nodes0|
  {
    if atRoot then p == p0 && nodes == nodes0[p0 := nodes0[p0].(setup := Some(d))]
    else
      var (ns, n) := AddedNode(nodes0, p0, NPOS, koPos, None);
      0 <= n < |ns| && p == n && nodes == ns[n := ns[n].(setup := Some(d))]
  }

  /** A setup token's history keeps the setup of every node of `nodes0` but the current one. */
  lemma SetupPushedKeeps(nodes0: seq<Node>, p0: int, koPos: int, atRoot: bool, nodes: seq<Node>, p: int, d: BoardDiff)
    requires 0 <= p0 < |nodes0| && SetupPushed(nodes0, p0, koPos, atRoot, nodes, p, d)
    ensures |nodes0| <= |nodes| && 0 <= p < |nodes|
    ensures forall i | 0 <= i < |nodes0| && i != p :: nodes[i].setup == nodes0[i].setup
  {
  }

  /** The board a setup token leaves: its groups painted, and the side to move set when it carries a turn. */
  function SetupBoard(s: BoardState, gs: Option<seq<Group>>, turn: Option<int>): BoardState
    requires s.w >= 1 && (gs.Some? ==> |gs.value| == 3)
  {
    s.(cells := if gs.Some? then SetupCells(s.cells, gs.value, s.w) else s.cells,
       turn := if turn.Some? then turn.value else s.turn)
  }

  /**
   * The program's `procSetup`: at the root with no branch open the root
   * takes the setup (merging into one it already has); anywhere else a new
   * setup node is pushed.  The groups are painted and recorded, then the
   * turn is set and recorded.  A new setup records exactly the change the
   * token made; a merged one that tracked the board before still does.
   */
  method ProcSetup(game: Game, stack: seq<int>, gs: Option<seq<Group>>, turn: Option<int>)
    requires game.Valid() && ValidToken(Setup(gs, turn), game.board.w * game.board.h) && StackIn(stack, game.history.nodes)
    modifies game.board, game.board.intersections, game.history, SetupSet(game.history.nodes[game.history.pointer].setup)
    ensures game.Valid() && game.board.intersections == old(game.board.intersections)
    ensures game.history.nodes[game.history.pointer].setup.Some?
    ensures var d := game.history.nodes[game.history.pointer].setup.value;
      var atRoot := old(game.history.nodes[game.history.pointer].IsRoot()) && stack == [];
      && SetupPushed(old(game.history.nodes), old(game.history.pointer), old(game.board.koPos), atRoot, game.history.nodes, game.history.pointer, d)
      && game.board.State() == SetupBoard(old(game.board.State()), gs, turn)
      && (turn.Some? ==> ApplyTurnValue(old(game.board.turn), d.turn) == turn.value && (d.turn.Some? ==> d.turn.value.oldTurn == old(game.board.turn)))
      && (!atRoot || old(game.history.nodes[game.history.pointer].setup).None? ==>
            fresh(d) && Tracks(ToMap(d.intersections), old(game.board.cells), game.board.cells) && (turn.None? ==> d.turn.None?))
      && (atRoot && old(game.history.nodes[game.history.pointer].setup).Some? ==>
            var m0 := old(ToMap(game.history.nodes[game.history.pointer].setup.value.intersections));
            Tracks(m0, Before(m0, old(game.board.cells)), old(game.board.cells)) ==>
              Tracks(ToMap(d.intersections), Before(m0, old(game.board.cells)), game.board.cells))
    ensures forall e | e in SetupsOf(game.history.nodes) :: e in old(SetupsOf(game.history.nodes)) || fresh(e)
    ensures var merged := old(game.history.nodes[game.history.pointer].IsRoot() && game.history.nodes[game.history.pointer].setup.Some?) && stack == [];
      forall e | e in old(SetupsOf(game.history.nodes)) && (merged ==> Some(e) != old(game.history.nodes[game.history.pointer].setup)) ::
        ValueOf(e) == old(ValueOf(e))
    ensures old(SetupsOf(game.history.nodes)) <= SetupsOf(game.history.nodes)
  {
    var atRoot := game.history.nodes[game.history.pointer].IsRoot() && |stack| == 0;
    if atRoot && game.history.nodes[game.history.pointer].setup.Some? {
      MergeSetup(game, gs, turn);
    } else {
      NewSetup(game, gs, turn, !atRoot);
    }
  }

  /** A setup at the root that already has one: the token's groups and turn are merged into that setup object. */
  method MergeSetup(game: Game, gs: Option<seq<Group>>, turn: Option<int>)
    requires game.Valid() && ValidToken(Setup(gs, turn), game.board.w * game.board.h)
    requires game.history.nodes[game.history.pointer].setup.Some?
    modifies game.board, game.board.intersections, game.history.nodes[game.history.pointer].setup.value
    ensures game.Valid() && game.board.intersections == old(game.board.intersections)
    ensures game.history.nodes == old(game.history.nodes) && game.history.pointer == old(game.history.pointer)
    ensures var d := game.history.nodes[game.history.pointer].setup.value;
      && game.board.State() == SetupBoard(old(game.board.State()), gs, turn)
      && (turn.Some? ==> ApplyTurnValue(old(game.board.turn), d.turn) == turn.value && (d.turn.Some? ==> d.turn.value.oldTurn == old(game.board.turn)))
      && var m0 := old(ToMap(d.intersections));
         Tracks(m0, Before(m0, old(game.board.cells)), old(game.board.cells)) ==>
           Tracks(ToMap(d.intersections), Before(m0, old(game.board.cells)), game.board.cells)
  {
    var d := game.history.nodes[game.history.pointer].setup.value;
    assert d in SetupsOf(game.history.nodes);
    ApplySetup(game, d, gs, turn, Before(ToMap(d.intersections), game.board.cells));
  }

  /** A setup on a node without one: a new setup object, on a new setup node unless `push` is false, records exactly what the token does. */
  method NewSetup(game: Game, gs: Option<seq<Group>>, turn: Option<int>, push: bool)
    requires game.Valid() && ValidToken(Setup(gs, turn), game.board.w * game.board.h)
    requires !push ==> game.history.nodes[game.history.pointer].setup.None?
    modifies game.board, game.board.intersections, game.history
    ensures game.Valid() && game.board.intersections == old(game.board.intersections)
    ensures game.history.nodes[game.history.pointer].setup.Some?
    ensures var d := game.history.nodes[game.history.pointer].setup.value;
      && SetupPushed(old(game.history.nodes), old(game.history.pointer), old(game.board.koPos), !push, game.history.nodes, game.history.pointer, d)
      && game.board.State() == SetupBoard(old(game.board.State()), gs, turn)
      && (turn.Some? ==> ApplyTurnValue(old(game.board.turn), d.turn) == turn.value && (d.turn.Some? ==> d.turn.value.oldTurn == old(game.board.turn)))
      && fresh(d) && Tracks(ToMap(d.intersections), old(game.board.cells), game.board.cells) && (turn.None? ==> d.turn.None?)
      && SetupsOf(game.history.nodes) == old(SetupsOf(game.history.nodes)) + {d}
  {
    if push {
      ghost var before := game.history.nodes;
      var _ := game.history.PushSetupNode(game.board.koPos);
      SameSetupsOf(before, game.history.nodes);
    }
    ghost var nodes1 := game.history.nodes;
    var d := game.history.AcquireSetup();
    forall e | e in SetupsOf(game.history.nodes) ensures Fits(ValueOf(e), game.board.w, game.board.h) {
      if e != d {
        assert e in SetupsOf(nodes1);
      }
    }
    assert ToMap(d.intersections) == map[];
    TracksStart(game.board.cells);
    ApplySetup(game, d, gs, turn, game.board.cells);
  }

  /** The groups painted and recorded, then the turn set and recorded. */
  method ApplySetup(game: Game, d: BoardDiff, gs: Option<seq<Group>>, turn: Option<int>, ghost c0: seq<int>)
    requires game.Valid() && d in SetupsOf(game.history.nodes) && ValidToken(Setup(gs, turn), game.board.w * game.board.h)
    modifies game.board, game.board.intersections, d
    ensures game.Valid() && game.board.intersections == old(game.board.intersections)
    ensures game.board.State() == SetupBoard(old(game.board.State()), gs, turn)
    ensures old(Tracks(ToMap(d.intersections), c0, game.board.cells)) ==> Tracks(ToMap(d.intersections), c0, game.board.cells)
    ensures turn.Some? ==> ApplyTurnValue(old(game.board.turn), d.turn) == turn.value && (d.turn.Some? ==> d.turn.value.oldTurn == old(game.board.turn))
    ensures turn.None? ==> d.turn == old(d.turn)
  {
    if gs.Some? {
      PaintGroups(game, d, gs.value, c0);
    }
    if turn.Some? {
      SetupTurn(game, d, turn.value);
    }
  }

  // ----- one token -----

  /** What a token leaves the decoder with: the branch stack to go on with, the end of the tree, or an illegal move. */
  datatype Step = Going(stack: seq<int>) | Ended | Illegal(pos: int)

  /** Every node on the branch stack is a node of the arena. */
  ghost predicate StackIn(stack: seq<int>, nodes: seq<Node>) {
    forall i | 0 <= i < |stack| :: 0 <= stack[i] < |nodes|
  }

  // ----- one token's effect, on values -----

  /**
   * The decoder's state at one moment, as values: the history's arena,
   * the value of each setup object it holds, the current node, the board with the finished flag
   * and the winner, and the branch stack.
   */
  datatype Snap = Snap(nodes: seq<Node>, values: map<BoardDiff, SetupValue>, pointer: int, play: Play, stack: seq<int>)

  ghost predicate Coherent(s: Snap) {
    && Linked(s.nodes) && 0 <= s.pointer < |s.nodes| && Covers(s.nodes, s.values)
    && WellFormed(s.play.board) && StackIn(s.stack, s.nodes)
  }

  /** The game and a branch stack, as values. */
  ghost function SnapOf(game: Game, stack: seq<int>): Snap
    reads game, game.board, game.board.intersections, game.history, SetupsOf(game.history.nodes)
  {
    Snap(game.history.nodes, SetupMap(game.history.nodes), game.history.pointer,
         Play(game.board.State(), game.finished, game.winner), stack)
  }

  /** `trace` goes from state to state by the tokens `ts`, one `Link` per token. */
  ghost predicate Chain(trace: seq<Snap>, ts: seq<Token>) {
    |trace| == |ts| + 1 && forall i | 0 <= i < |ts| :: Link(trace[i], ts[i], trace[i + 1])
  }

  /** A new game's state: an empty `w` by `h` board, BLACK to move, the root alone, nothing finished, no branch open. */
  function Start(w: nat, h: nat): Snap {
    Snap([NewNode(-1, NPOS, NPOS, None)], map[], 0, Play(BoardState(w, h, seq(w * h, _ => EMPTY), [0, 0], NPOS, BLACK), false, EMPTY), [])
  }

  /** A chain over the tokens before a refused one, the refused one last. */
  lemma ChainBeforeLast(trace: seq<Snap>, ts: seq<Token>, t: Token)
    requires Chain(trace, ts)
    ensures Chain(trace, (ts + [t])[..|ts + [t]| - 1]) && (ts + [t])[|ts + [t]| - 1] == t
  {
    assert (ts + [t])[..|ts + [t]| - 1] == ts;
  }

  lemma ChainAppend(trace: seq<Snap>, ts: seq<Token>, t: Token, b: Snap)
    requires Chain(trace, ts) && Link(trace[|trace| - 1], t, b)
    ensures Chain(trace + [b], ts + [t])
  {
  }

  /** A position the game refuses: any once the game is finished, else an illegal one. */
  ghost predicate Refused(a: Snap, t: Token) {
    Coherent(a) && t.Place? && (a.play.finished || !IsMoveLegal(a.play.board, t.pos, a.play.board.turn))
  }

  /**
   * What a token the game accepts does, from state `a` to state `b`.  A
   * position is played by the rules and pushed with a payload that takes
   * the board back; a pass or a resignation is ignored once the game is
   * finished, else passed (a second consecutive pass finishes the game as
   * a draw) or resigned (the other side wins) and pushed; a branch start
   * pushes the current node on the stack; a branch end undoes node by
   * node back to the node on top of the stack (the root at depth 0, or
   * when that node is not above the current one) and pops it; a setup
   * paints the board and is recorded on the root or on a new setup node,
   * every other node keeping its setup (save any sharing the root's
   * setup object, when the root takes the setup).
   */
  ghost predicate Link(a: Snap, t: Token, b: Snap) {
    && Coherent(a) && Coherent(b) && ValidToken(t, a.play.board.w * a.play.board.h)
    && match t
      case Place(pos) =>
        && !Refused(a, t)
        && b.play == a.play.(board := Rules.PutStone(a.play.board, pos, a.play.board.turn))
        && (b.nodes, b.pointer) == Pushed(a.nodes, a.pointer, pos, b.play.board.koPos, b.nodes[b.pointer].boardUndo)
        && b.nodes[b.pointer].boardUndo.Some?
        && Changes.ApplyChanges(b.play.board, b.nodes[b.pointer].boardUndo.value) == a.play.board
        && b.values == a.values && b.stack == a.stack
      case Pass =>
        if a.play.finished then b == a
        else
          && b.play.board == Rules.Pass(a.play.board)
          && (b.nodes, b.pointer) == Pushed(a.nodes, a.pointer, POS_PASS, NPOS, Some(Changes.KoAndTurnUndo(a.play.board.koPos, a.play.board.turn)))
          && b.play.finished == SecondConsecutivePass(b.nodes, b.pointer)
          && b.play.winner == (if b.play.finished then EMPTY else a.play.winner)
          && b.values == a.values && b.stack == a.stack
      case Resign =>
        if a.play.finished then b == a
        else
          && b.play == Play(a.play.board, true, GetOppositeColor(a.play.board.turn))
          && (b.nodes, b.pointer) == Pushed(a.nodes, a.pointer, POS_RESIGN, a.play.board.koPos, None)
          && b.values == a.values && b.stack == a.stack
      case BeginBranch =>
        b == a.(stack := a.stack + [a.pointer])
      case EndBranch =>
        var target := if a.stack == [] then 0 else a.stack[|a.stack| - 1];
        && b.nodes == a.nodes && b.values == a.values
        && b.stack == (if a.stack == [] then [] else a.stack[..|a.stack| - 1])
        && b.pointer == (if a.stack == [] || !IsAncestor(a.nodes, target, a.pointer) then 0 else target)
        && b.play == UndoneTo(a.nodes, a.values, a.pointer, target, a.play)
      case Setup(gs, turn) =>
        var merged := a.nodes[a.pointer].IsRoot() && a.stack == [] && a.nodes[a.pointer].setup.Some?;
        && b.play == a.play.(board := SetupBoard(a.play.board, gs, turn))
        && b.nodes[b.pointer].setup.Some?
        && SetupPushed(a.nodes, a.pointer, a.play.board.koPos, a.nodes[a.pointer].IsRoot() && a.stack == [],
             b.nodes, b.pointer, b.nodes[b.pointer].setup.value)
        && (forall e | e in a.values && (merged ==> e != a.nodes[a.pointer].setup.value) :: e in b.values && b.values[e] == a.values[e])
        && b.stack == a.stack
  }

  /** A position token given to the game: `putStone`, which refuses an illegal move and any move once the game is finished. */
  method PlaceToken(game: Game, pos: int, stack: seq<int>) returns (step: Step)
    requires game.Valid() && StackIn(stack, game.history.nodes) && OnBoardPos(pos, game.board.w * game.board.h)
    modifies game.board, game.board.intersections, game.history
    ensures game.Valid() && game.board.intersections == old(game.board.intersections)
    ensures |game.history.nodes| >= old(|game.history.nodes|)
    ensures SetupsOf(game.history.nodes) == old(SetupsOf(game.history.nodes))
    ensures step.Illegal? <==> !(!old(game.finished) && IsMoveLegal(old(game.board.State()), pos, old(game.board.turn)))
    ensures step.Illegal? ==> step.pos == pos
    ensures step.Going? ==> step == Going(stack) && StackIn(stack, game.history.nodes)
    ensures !step.Ended?
    ensures game.board.State() == if old(game.finished) then old(game.board.State()) else Rules.PutStone(old(game.board.State()), pos, old(game.board.turn))
    ensures step.Going? ==>
      && game.history.moveNumber == old(game.history.moveNumber) + 1
      && (game.history.nodes, game.history.pointer) == Pushed(old(game.history.nodes), old(game.history.pointer), pos, game.board.koPos, game.history.nodes[game.history.pointer].boardUndo)
    ensures step.Illegal? ==> game.history.nodes == old(game.history.nodes) && game.history.pointer == old(game.history.pointer)
    ensures step.Going? ==> Link(old(SnapOf(game, stack)), Place(pos), SnapOf(game, stack))
    ensures step.Illegal? ==> Refused(old(SnapOf(game, stack)), Place(pos)) && SnapOf(game, stack) == old(SnapOf(game, stack))
  {
    ghost var nodes0, p0 := game.history.nodes, game.history.pointer;
    ghost var values0 := SetupMap(nodes0);
    var ok := game.PutStone(pos);
    assert unchanged(SetupsOf(nodes0));
    step := if ok then Going(stack) else Illegal(pos);
    if ok {
      SameSetupMap(nodes0, game.history.nodes);
      assert SetupMap(nodes0) == values0;
      PushedLinked(nodes0, p0, pos, game.board.koPos, game.history.nodes[game.history.pointer].boardUndo);
      ghost var a, b := old(SnapOf(game, stack)), SnapOf(game, stack);
      assert Coherent(a) && Coherent(b);
      assert b.play == a.play.(board := Rules.PutStone(a.play.board, pos, a.play.board.turn));
    }
  }

  /** A pass token given to the game: ignored once the game is finished, else `pass`. */
  method PassToken(game: Game, stack: seq<int>) returns (step: Step)
    requires game.Valid() && StackIn(stack, game.history.nodes)
    modifies game, game.board, game.board.intersections, game.history
    ensures game.Valid() && game.board.intersections == old(game.board.intersections)
    ensures |game.history.nodes| >= old(|game.history.nodes|)
    ensures SetupsOf(game.history.nodes) == old(SetupsOf(game.history.nodes))
    ensures step == Going(stack) && StackIn(stack, game.history.nodes)
    ensures old(game.finished) ==>
      game.board.State() == old(game.board.State()) && game.history.nodes == old(game.history.nodes) && game.history.pointer == old(game.history.pointer)
    ensures !old(game.finished) ==>
      && game.board.State() == Rules.Pass(old(game.board.State()))
      && (game.history.nodes, game.history.pointer) == Pushed(old(game.history.nodes), old(game.history.pointer), POS_PASS, NPOS, Some(Changes.KoAndTurnUndo(old(game.board.koPos), old(game.board.turn))))
    ensures Link(old(SnapOf(game, stack)), Pass, SnapOf(game, stack))
  {
    ghost var nodes0, p0 := game.history.nodes, game.history.pointer;
    ghost var undo := Some(Changes.KoAndTurnUndo(game.board.koPos, game.board.turn));
    ghost var values0 := SetupMap(nodes0);
    game.Pass();
    assert unchanged(SetupsOf(nodes0));
    assert SetupMap(nodes0) == values0;
    step := Going(stack);
    PushedLinked(nodes0, p0, POS_PASS, NPOS, undo);
    SameSetupMap(nodes0, game.history.nodes);
  }

  /** A resignation token given to the game: ignored once the game is finished, else the other side wins. */
  method ResignToken(game: Game, stack: seq<int>) returns (step: Step)
    requires game.Valid() && StackIn(stack, game.history.nodes)
    modifies game, game.history
    ensures game.Valid() && game.board.intersections == old(game.board.intersections)
    ensures |game.history.nodes| >= old(|game.history.nodes|)
    ensures SetupsOf(game.history.nodes) == old(SetupsOf(game.history.nodes))
    ensures step == Going(stack) && StackIn(stack, game.history.nodes)
    ensures game.board.State() == old(game.board.State())
    ensures !old(game.finished) ==>
      && game.finished && game.winner == GetOppositeColor(old(game.board.turn))
      && (game.history.nodes, game.history.pointer) == Pushed(old(game.history.nodes), old(game.history.pointer), POS_RESIGN, old(game.board.koPos), None)
    ensures Link(old(SnapOf(game, stack)), Resign, SnapOf(game, stack))
  {
    ghost var nodes0, p0 := game.history.nodes, game.history.pointer;
    ghost var values0 := SetupMap(nodes0);
    game.Resign();
    assert unchanged(SetupsOf(nodes0));
    step := Going(stack);
    PushedLinked(nodes0, p0, POS_RESIGN, game.board.koPos, None);
    SameSetupMap(nodes0, game.history.nodes);
    assert SetupMap(nodes0) == values0;
  }

  /** A branch end given to the game: back to where the branch began, or at depth 0 to the root, which ends the tree. */
  method EndToken(game: Game, stack: seq<int>) returns (step: Step)
    requires game.Valid() && StackIn(stack, game.history.nodes)
    modifies game, game.board, game.board.intersections, game.history
    ensures game.Valid() && game.board.intersections == old(game.board.intersections)
    ensures game.history.nodes == old(game.history.nodes)
    ensures step.Ended? <==> stack == []
    ensures step.Ended? ==> game.history.pointer == 0
    ensures stack != [] ==>
      && step == Going(stack[..|stack| - 1])
      && StackIn(step.stack, game.history.nodes)
      && game.history.pointer == if old(IsAncestor(game.history.nodes, stack[|stack| - 1], game.history.pointer)) then stack[|stack| - 1] else 0
    ensures Link(old(SnapOf(game, stack)), EndBranch, SnapOf(game, if stack == [] then [] else stack[..|stack| - 1]))
  {
    ghost var nodes0 := game.history.nodes;
    if |stack| == 0 {
      game.UndoAll();
      assert unchanged(SetupsOf(nodes0));
      step := Ended;
    } else {
      game.history.UndoTo(stack[|stack| - 1], game.board, game);
      assert unchanged(SetupsOf(nodes0));
      step := Going(stack[..|stack| - 1]);
    }
  }

  /** A setup token given to the game: `procSetup`, on the root or a new setup node. */
  method SetupToken(game: Game, gs: Option<seq<Group>>, turn: Option<int>, stack: seq<int>) returns (step: Step)
    requires game.Valid() && ValidToken(Setup(gs, turn), game.board.w * game.board.h) && StackIn(stack, game.history.nodes)
    modifies game.board, game.board.intersections, game.history, SetupSet(game.history.nodes[game.history.pointer].setup)
    ensures game.Valid() && game.board.intersections == old(game.board.intersections)
    ensures |game.history.nodes| >= old(|game.history.nodes|)
    ensures forall e | e in SetupsOf(game.history.nodes) :: e in old(SetupsOf(game.history.nodes)) || fresh(e)
    ensures step == Going(stack)
    ensures Link(old(SnapOf(game, stack)), Setup(gs, turn), SnapOf(game, stack))
  {
    ghost var nodes0, p0, koPos0 := game.history.nodes, game.history.pointer, game.board.koPos;
    ghost var atRoot := game.history.nodes[game.history.pointer].IsRoot() && stack == [];
    ghost var merged := atRoot && game.history.nodes[game.history.pointer].setup.Some?;
    ghost var e0 := game.history.nodes[game.history.pointer].setup;
    ProcSetup(game, stack, gs, turn);
    SetupPushedKeeps(nodes0, p0, koPos0, atRoot, game.history.nodes, game.history.pointer, game.history.nodes[game.history.pointer].setup.value);
    step := Going(stack);
  }

  /**
   * The program's command switch, shared by both decoders: a position is
   * played (an illegal one, or any once the game is finished, stops the
   * decoder), a pass passes, a branch start pushes the current node, a
   * branch end goes back to the node where the branch started, or at
   * depth 0 back to the root, which ends the tree; a resignation resigns;
   * a setup is `ProcSetup`.  Each token the game accepts is a `Link` from
   * the state before it to the state after it.
   */
  method ApplyToken(game: Game, t: Token, stack: seq<int>) returns (step: Step)
    requires game.Valid() && ValidToken(t, game.board.w * game.board.h) && StackIn(stack, game.history.nodes)
    modifies game, game.board, game.board.intersections, game.history, SetupSet(game.history.nodes[game.history.pointer].setup)
    ensures game.Valid() && game.board.intersections == old(game.board.intersections)
    ensures |game.history.nodes| >= old(|game.history.nodes|)
    ensures forall e | e in SetupsOf(game.history.nodes) :: e in old(SetupsOf(game.history.nodes)) || fresh(e)
    ensures step.Ended? <==> t == EndBranch && stack == []
    ensures step.Illegal? <==> Refused(old(SnapOf(game, stack)), t)
    ensures step.Going? ==> StackIn(step.stack, game.history.nodes) && |step.stack| == TreeBase64.DepthAfter(t, |stack|)
    ensures step.Illegal? ==> step.pos == t.pos && SnapOf(game, stack) == old(SnapOf(game, stack))
    ensures !step.Illegal? ==> Link(old(SnapOf(game, stack)), t, SnapOf(game, if step.Going? then step.stack else []))
    ensures t.Place? && step.Going? ==> game.history.moveNumber == old(game.history.moveNumber) + 1
  {
    match t
    case Place(pos) =>
      step := PlaceToken(game, pos, stack);
    case Pass =>
      step := PassToken(game, stack);
    case Resign =>
      step := ResignToken(game, stack);
    case BeginBranch =>
      step := Going(stack + [game.history.pointer]);
    case EndBranch =>
      step := EndToken(game, stack);
    case Setup(gs, turn) =>
      step := SetupToken(game, gs, turn, stack);
  }
}
