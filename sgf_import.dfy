/**
 * Reading an SGF record into a game (`fromSGF`).  The first game tree of
 * the collection is replayed into a new game sized by its root node: each
 * node's properties are applied in order (a move is played, setup
 * properties paint the board and are recorded on a setup node, a comment
 * goes to the current node, game information to the root), then each
 * branch is replayed from the end of the sequence, and the moves of the
 * sequence are undone so that the next branch starts where this one did.
 *
 * A node pushes at most one node on the history: its move, or the setup
 * node its first setup property opens.  The program undoes once per node
 * of the sequence instead, so that a sequence holding a node that pushes
 * nothing (a node with only a comment, say) leaves the current node too
 * high up, and the next branch hangs from the wrong node.  `ProcessTree`
 * undoes once per pushed node and returns to the node it started at.
 */
module SgfImport {
  import opened Stones
  import opened Wrappers
  import opened Geometry
  import Rules
  import opened Changes
  import opened Diffs
  import opened HistoryNodes
  import opened History
  import opened SgfPoints
  import Sgf = SgfParser
  import SgfText
  import SgfExport
  import SgfRoot
  import TreeReplay

  // ----- the history only grows -----

  /** `b` keeps every node of `a` with its parent and position; nodes may be added and other fields change. */
  ghost predicate Grows(a: seq<Node>, b: seq<Node>) {
    |a| <= |b| && forall i | 0 <= i < |a| :: b[i].prev == a[i].prev && b[i].pos == a[i].pos
  }

  /** A move pushed at `p` leads to a child of `p` that records it, reused or new, and the arena grows. */
  lemma PushedChild(nodes: seq<Node>, p: int, pos: int, koPosNew: int, boardUndo: Option<BoardChanges>)
    requires Linked(nodes) && 0 <= p < |nodes| && pos != NPOS
    ensures 0 <= Pushed(nodes, p, pos, koPosNew, boardUndo).1 < |Pushed(nodes, p, pos, koPosNew, boardUndo).0|
    ensures Pushed(nodes, p, pos, koPosNew, boardUndo).0[Pushed(nodes, p, pos, koPosNew, boardUndo).1].prev == p
    ensures Pushed(nodes, p, pos, koPosNew, boardUndo).0[Pushed(nodes, p, pos, koPosNew, boardUndo).1].pos == pos
    ensures Pushed(nodes, p, pos, koPosNew, boardUndo).1 != p
    ensures Grows(nodes, Pushed(nodes, p, pos, koPosNew, boardUndo).0)
  {
    var c := FindNextByPos(nodes, p, pos);
    if c >= 0 {
      assert NodeLinked(nodes, p);
    }
  }

  /** `line` runs down the arena from its first node, each node a child of the one before. */
  ghost predicate Line(nodes: seq<Node>, line: seq<int>) {
    && |line| >= 1
    && (forall k | 0 <= k < |line| :: 0 <= line[k] < |nodes|)
    && (forall k | 0 < k < |line| :: nodes[line[k]].prev == line[k - 1])
  }

  lemma LineGrows(a: seq<Node>, b: seq<Node>, line: seq<int>)
    requires Line(a, line) && Grows(a, b)
    ensures Line(b, line)
  {
  }

  /** The node `n` undos lead to from `p`: up `n` parent links, stopping at the root. */
  ghost function UndoneTo(nodes: seq<Node>, p: int, n: nat): (r: int)
    requires Ordered(nodes) && 0 <= p < |nodes|
    ensures 0 <= r < |nodes|
    decreases n
  {
    if n == 0 || nodes[p].prev < 0 then p else UndoneTo(nodes, nodes[p].prev, n - 1)
  }

  lemma {:induction false} UndoneStep(nodes: seq<Node>, p: int, n: nat)
    requires Ordered(nodes) && 0 <= p < |nodes|
    ensures var q := UndoneTo(nodes, p, n);
      UndoneTo(nodes, p, n + 1) == if nodes[q].prev < 0 then q else nodes[q].prev
    decreases n
  {
    if n > 0 && nodes[p].prev >= 0 {
      UndoneStep(nodes, nodes[p].prev, n - 1);
    }
  }

  /** Undoing once per link of a line leads from its last node back to its first. */
  lemma {:induction false} LineUndone(nodes: seq<Node>, line: seq<int>)
    requires Ordered(nodes) && Line(nodes, line)
    ensures UndoneTo(nodes, line[|line| - 1], |line| - 1) == line[0]
    decreases |line|
  {
    if |line| > 1 {
      var init := line[..|line| - 1];
      assert Line(nodes, init);
      LineUndone(nodes, init);
      var last := line[|line| - 1];
      assert nodes[last].prev == init[|init| - 1] >= 0;
    }
  }

  /** Undoing once more than the line has links leads from its last node to the parent of its first, unless that is the root. */
  lemma LineOverUndone(nodes: seq<Node>, line: seq<int>)
    requires Ordered(nodes) && Line(nodes, line)
    ensures UndoneTo(nodes, line[|line| - 1], |line|) == UndoneTo(nodes, line[0], 1)
  {
    LineUndone(nodes, line);
    UndoneStep(nodes, line[|line| - 1], |line| - 1);
  }

  /** The program's undo loop: `n` undos. */
  method UndoTimes(game: Game, n: nat)
    requires game.Valid()
    modifies game, game.board, game.board.intersections, game.history
    ensures game.Valid() && game.board.intersections == old(game.board.intersections)
    ensures game.history.nodes == old(game.history.nodes)
    ensures game.history.pointer == UndoneTo(old(game.history.nodes), old(game.history.pointer), n)
  {
    var k := 0;
    while k < n
      invariant 0 <= k <= n
      invariant game.Valid() && game.board.intersections == old(game.board.intersections)
      invariant game.history.nodes == old(game.history.nodes)
      invariant game.history.pointer == UndoneTo(game.history.nodes, old(game.history.pointer), k)
    {
      UndoneStep(game.history.nodes, old(game.history.pointer), k);
      var _ := game.Undo();
      k := k + 1;
    }
  }

  // ----- property identifiers -----

  predicate IsMoveId(id: string) {
    id == "B" || id == "W"
  }

  predicate IsSetupId(id: string) {
    id == "AB" || id == "AW" || id == "AE" || id == "PL"
  }

  predicate IsMarkId(id: string) {
    id == "MA" || id == "CR" || id == "SQ" || id == "TR"
  }

  predicate IsGameInfoId(id: string) {
    id in SgfExport.GAME_INFO_IDS
  }

  /** Comments, markup, labels and `VW` are no game information. */
  lemma NotGameInfo(id: string)
    requires id == "C" || IsMarkId(id) || id == "VW" || id == "LB"
    ensures !IsGameInfoId(id)
  {
    forall k | 0 <= k < |SgfExport.GAME_INFO_IDS| ensures SgfExport.GAME_INFO_IDS[k] != id {
      InfoIdShape(k);
    }
  }

  /** Each game-information identifier has two letters, and none of them is a markup, `VW` or `LB` identifier. */
  lemma InfoIdShape(k: int)
    requires 0 <= k < |SgfExport.GAME_INFO_IDS|
    ensures var g := SgfExport.GAME_INFO_IDS[k];
      && |g| == 2 && !IsMarkId(g) && g != "VW" && g != "LB"
  {
  }

  /** The state an `AB`, `AW` or `AE` property sets its points to. */
  function SetupState(id: string): int {
    if id == "AB" then BLACK else if id == "AW" then WHITE else EMPTY
  }

  /** A game-information value as the program reads it: `GC` as text, the others as simple text. */
  function InfoText(id: string, v: string): string {
    if id == "GC" then SgfText.ParseSGFTextFixed(v) else SgfText.ParseSGFSimpleText(v)
  }

  /** Game information written by the formatter reads back as the text with its blanks (and, for simple text, its line breaks) made spaces. */
  lemma InfoRoundTrip(id: string, s: string)
    ensures InfoText(id, SgfExport.InfoValue(id, s)) == SgfText.Blanked(s, id != "GC")
  {
    if id == "GC" {
      SgfText.TextRoundTripFixed(s);
    } else {
      SgfText.SimpleTextRoundTrip(s);
    }
  }

  // ----- what a node does to the history -----

  /** The first move property of a node, if any. */
  function FirstMove(props: seq<Sgf.Property>): (r: Option<Sgf.Property>)
    ensures r.Some? ==> r.value in props && IsMoveId(r.value.ident)
    ensures r.None? ==> forall k | 0 <= k < |props| :: !IsMoveId(props[k].ident)
  {
    if props == [] then None
    else
      var f := FirstMove(props[..|props| - 1]);
      if f.Some? then f
      else if IsMoveId(props[|props| - 1].ident) then Some(props[|props| - 1])
      else None
  }

  /** Whether a node holds a setup property. */
  function HasSetup(props: seq<Sgf.Property>): (r: bool)
    ensures r <==> exists k | 0 <= k < |props| :: IsSetupId(props[k].ident)
  {
    if props == [] then false
    else HasSetup(props[..|props| - 1]) || IsSetupId(props[|props| - 1].ident)
  }

  /** A node with two move properties: the program refuses it. */
  predicate MovesTwice(props: seq<Sgf.Property>) {
    exists k, l | 0 <= k < l < |props| :: IsMoveId(props[k].ident) && IsMoveId(props[l].ident)
  }

  /** A node with a move property and a setup property: the program refuses it. */
  predicate MixesMoveAndSetup(props: seq<Sgf.Property>) {
    exists k, l | 0 <= k < |props| && 0 <= l < |props| :: IsMoveId(props[k].ident) && IsSetupId(props[l].ident)
  }

  /** A move value that is read as a pass on a `w` x `h` board. */
  predicate PassValue(p: Sgf.Property, w: int, h: int) {
    p.values != [] && ParseSGFMove(p.values[0], w, h) == Success(POS_PASS)
  }

  /**
   * Whether a node that the program accepts moves the current node down
   * one level: its move does, except a pass once the game is finished;
   * without a move its setup properties do, unless the current node is
   * already a setup node.
   */
  function NodePushes(props: seq<Sgf.Property>, atSetup: bool, finished: bool, w: int, h: int): bool {
    match FirstMove(props)
    case Some(p) => !(finished && PassValue(p, w, h))
    case None => HasSetup(props) && !atSetup
  }

  // ----- the properties -----

  /**
   * The turn a `B` or `W` property asks for: a move by the side not to
   * move is accepted only before the first move, the current node's setup
   * then recording the change of turn.
   */
  method TurnForMove(game: Game, color: int) returns (r: Result<()>)
    requires game.Valid() && IsValidColor(color)
    modifies game.board, game.history, TreeReplay.SetupSet(game.history.nodes[game.history.pointer].setup)
    ensures game.Valid() && game.board.intersections == old(game.board.intersections)
    ensures Grows(old(game.history.nodes), game.history.nodes) && game.history.pointer == old(game.history.pointer)
    ensures forall e | e in SetupsOf(game.history.nodes) :: e in old(SetupsOf(game.history.nodes)) || fresh(e)
    ensures r.Failure? <==> old(game.board.turn) != color && old(game.history.moveNumber) > 0
    ensures r.Success? ==> game.board.State() == old(game.board.State()).(turn := color)
  {
    if game.board.turn != color {
      if game.history.moveNumber > 0 {
        return Failure("Unexpected player change");
      }
      ghost var nodes0 := game.history.nodes;
      var d := game.history.AcquireSetup();
      forall e | e in SetupsOf(game.history.nodes) ensures Fits(ValueOf(e), game.board.w, game.board.h) {
        if e != d {
          assert e in SetupsOf(nodes0);
        }
      }
      TreeReplay.SetupTurn(game, d, color);
    }
    return Success(());
  }

  /** A move read from a property, by the side to move: a pass is passed, a point must be a legal move. */
  method PlayAt(game: Game, pos: int) returns (r: Result<()>)
    requires game.Valid()
    modifies game, game.board, game.board.intersections, game.history
    ensures game.Valid() && game.board.intersections == old(game.board.intersections)
    ensures Grows(old(game.history.nodes), game.history.nodes) && SetupsOf(game.history.nodes) == old(SetupsOf(game.history.nodes))
    ensures game.history.pointer == old(game.history.pointer) || game.history.nodes[game.history.pointer].prev == old(game.history.pointer)
    ensures game.history.pointer != old(game.history.pointer) ==> game.history.nodes[game.history.pointer].pos == pos
    ensures r.Failure? <==> pos != POS_PASS && !(!old(game.finished) && Rules.IsMoveLegal(old(game.board.State()), pos, old(game.board.turn)))
    ensures r.Success? && pos == POS_PASS ==>
      && game.board.State() == (if old(game.finished) then old(game.board.State()) else Rules.Pass(old(game.board.State())))
      && (game.history.pointer != old(game.history.pointer) <==> !old(game.finished))
    ensures r.Success? && pos != POS_PASS ==>
      && game.board.State() == Rules.PutStone(old(game.board.State()), pos, old(game.board.turn))
      && game.history.pointer != old(game.history.pointer)
  {
    ghost var nodes1, p1 := game.history.nodes, game.history.pointer;
    if pos == POS_PASS {
      game.Pass();
      if !old(game.finished) {
        PushedChild(nodes1, p1, POS_PASS, NPOS, Some(KoAndTurnUndo(old(game.board.koPos), old(game.board.turn))));
      }
    } else {
      var ok := game.PutStone(pos);
      if !ok {
        return Failure("SGF includes a illegal move");
      }
      PushedChild(nodes1, p1, pos, game.board.koPos, game.history.nodes[game.history.pointer].boardUndo);
    }
    return Success(());
  }

  /**
   * A `B` or `W` property: the turn is taken as `TurnForMove` says, then
   * the value is read as a move on the board and played by `PlayAt`.
   */
  method PlayMove(game: Game, color: int, value: string) returns (r: Result<()>)
    requires game.Valid() && IsValidColor(color)
    modifies game, game.board, game.board.intersections, game.history, TreeReplay.SetupSet(game.history.nodes[game.history.pointer].setup)
    ensures game.Valid() && game.board.intersections == old(game.board.intersections)
    ensures Grows(old(game.history.nodes), game.history.nodes)
    ensures forall e | e in SetupsOf(game.history.nodes) :: e in old(SetupsOf(game.history.nodes)) || fresh(e)
    ensures game.history.pointer == old(game.history.pointer) || game.history.nodes[game.history.pointer].prev == old(game.history.pointer)
    ensures game.history.pointer != old(game.history.pointer) ==> ParseSGFMove(value, game.board.w, game.board.h) == Success(game.history.nodes[game.history.pointer].pos)
    ensures r.Failure? <==>
      || (old(game.board.turn) != color && old(game.history.moveNumber) > 0)
      || ParseSGFMove(value, game.board.w, game.board.h).Failure?
      || (ParseSGFMove(value, game.board.w, game.board.h).value != POS_PASS &&
          !(!old(game.finished) && Rules.IsMoveLegal(old(game.board.State()).(turn := color), ParseSGFMove(value, game.board.w, game.board.h).value, color)))
    ensures r.Success? && ParseSGFMove(value, game.board.w, game.board.h).value == POS_PASS ==>
      && game.board.State() == (if old(game.finished) then old(game.board.State()).(turn := color) else Rules.Pass(old(game.board.State()).(turn := color)))
      && (game.history.pointer != old(game.history.pointer) <==> !old(game.finished))
    ensures r.Success? && ParseSGFMove(value, game.board.w, game.board.h).value != POS_PASS ==>
      && game.board.State() == Rules.PutStone(old(game.board.State()).(turn := color), ParseSGFMove(value, game.board.w, game.board.h).value, color)
      && game.history.pointer != old(game.history.pointer)
  {
    var turned := TurnForMove(game, color);
    if turned.Failure? {
      return Failure(turned.error);
    }
    var pos := ParseSGFMove(value, game.board.w, game.board.h);
    if pos.Failure? {
      return Failure(pos.error);
    }
    r := PlayAt(game, pos.value);
  }

  /**
   * The setup a node's first setup property opens: a new setup node
   * unless the current node is one already, and that node's setup, new
   * and empty when the node had none.
   */
  method PrepareSetup(game: Game) returns (d: BoardDiff)
    requires game.Valid()
    modifies game.history
    ensures game.Valid() && game.history.nodes[game.history.pointer].setup == Some(d)
    ensures game.history.nodes[game.history.pointer].IsSetup()
    ensures SetupsOf(game.history.nodes) == old(SetupsOf(game.history.nodes)) + {d}
    ensures d in old(SetupsOf(game.history.nodes)) || fresh(d)
    ensures Grows(old(game.history.nodes), game.history.nodes)
    ensures old(game.history.nodes[game.history.pointer].IsSetup()) <==> game.history.pointer == old(game.history.pointer)
    ensures game.history.pointer != old(game.history.pointer) ==>
      && game.history.nodes[game.history.pointer].prev == old(game.history.pointer)
      && game.history.pointer == |old(game.history.nodes)|
    ensures old(game.history.nodes[game.history.pointer].setup).None? || !old(game.history.nodes[game.history.pointer].IsSetup()) ==>
      fresh(d) && d.turn.None? && d.intersections == []
  {
    if !game.history.nodes[game.history.pointer].IsSetup() {
      ghost var before := game.history.nodes;
      var _ := game.history.PushSetupNode(game.board.koPos);
      SameSetupsOf(before, game.history.nodes);
    }
    ghost var nodes1 := game.history.nodes;
    d := game.history.AcquireSetup();
    forall e | e in SetupsOf(game.history.nodes) ensures Fits(ValueOf(e), game.board.w, game.board.h) {
      if e != d {
        assert e in SetupsOf(nodes1);
      }
    }
  }

  /** The points a composed point value lists, as `ParseSGFComposedPoint` reads them; None for a value it refuses. */
  function ComposedPoints(v: string, w: int, h: int): Option<seq<int>> {
    var cs := UnescapedColons(v, 0);
    UnescapedColonsAreColons(v, 0);
    if |cs| >= 2 then None
    else if |cs| == 0 then
      (var p := ParseSGFPoint(v, w, h); if p.Success? then Some([p.value]) else None)
    else
      var lt, rb := ParseSGFPointXY(v[..cs[0]], w, h), ParseSGFPointXY(v[cs[0] + 1..], w, h);
      if lt.Success? && rb.Success? then Some(RectPoints(lt.value.0, lt.value.1, rb.value.0, rb.value.1, w)) else None
  }

  /** The points all the values list, in order; None when one of them is refused. */
  function ValuesPoints(vs: seq<string>, w: int, h: int): Option<seq<int>> {
    if vs == [] then Some([])
    else
      var a, b := ValuesPoints(vs[..|vs| - 1], w, h), ComposedPoints(vs[|vs| - 1], w, h);
      if a.Some? && b.Some? then Some(a.value + b.value) else None
  }

  /** The points all the values list, read value by value as the program does; an error at the first value refused. */
  method ReadValuesPoints(values: seq<string>, w: int, h: int) returns (r: Result<seq<int>>)
    ensures r.Success? <==> ValuesPoints(values, w, h).Some?
    ensures r.Success? ==> r.value == ValuesPoints(values, w, h).value
  {
    var points: seq<int> := [];
    var i := 0;
    while i < |values|
      invariant 0 <= i <= |values| && ValuesPoints(values[..i], w, h) == Some(points)
    {
      assert values[..i + 1][..i] == values[..i];
      var one := ParseSGFComposedPoint(values[i], w, h);
      UnescapedColonsAreColons(values[i], 0);
      if one.Failure? {
        StaysRefused(values, i + 1, w, h);
        return Failure(one.error);
      }
      points := points + one.value;
      i := i + 1;
    }
    assert values[..|values|] == values;
    return Success(points);
  }

  /**
   * An `AB`, `AW` or `AE` property: every point its values list is set to
   * `state` and recorded in the setup `d`; a point outside the board is
   * skipped, a value that is no point or rectangle is an error.
   */
  method SetupPoints(game: Game, d: BoardDiff, values: seq<string>, state: int, ghost c0: seq<int>) returns (r: Result<()>)
    requires game.Valid() && d in SetupsOf(game.history.nodes) && IsState(state)
    modifies game.board, game.board.intersections, d
    ensures game.Valid() && game.board.intersections == old(game.board.intersections)
    ensures r.Success? <==> ValuesPoints(values, game.board.w, game.board.h).Some?
    ensures r.Success? ==>
      game.board.State() == old(game.board.State()).(cells := TreeReplay.Paint(old(game.board.cells), ValuesPoints(values, game.board.w, game.board.h).value, state))
    ensures old(TreeReplay.Tracks(ToMap(d.intersections), c0, game.board.cells)) ==> TreeReplay.Tracks(ToMap(d.intersections), c0, game.board.cells)
    ensures d.turn == old(d.turn)
  {
    var points := ReadValuesPoints(values, game.board.w, game.board.h);
    if points.Failure? {
      return Failure(points.error);
    }
    TreeReplay.PaintPoints(game, d, points.value, state, c0);
    return Success(());
  }

  /** Once a value is refused, every longer prefix of the values is refused too. */
  lemma {:induction false} StaysRefused(vs: seq<string>, i: nat, w: int, h: int)
    requires 0 < i <= |vs| && ValuesPoints(vs[..i], w, h).None?
    ensures ValuesPoints(vs, w, h).None?
    decreases |vs| - i
  {
    if i < |vs| {
      assert vs[..i + 1][..i] == vs[..i];
      StaysRefused(vs, i + 1, w, h);
    } else {
      assert vs[..i] == vs;
    }
  }

  /** The colour a `PL` value names: BLACK for "B", WHITE for "W", EMPTY otherwise. */
  function PlayerColor(v: string): int {
    if v == "B" then BLACK else if v == "W" then WHITE else EMPTY
  }

  /** A `PL` property: the side to move is set and the change recorded in the setup `d`; a value other than B or W is an error. */
  method SetupPlayer(game: Game, d: BoardDiff, value: string) returns (r: Result<()>)
    requires game.Valid() && d in SetupsOf(game.history.nodes)
    modifies game.board, d
    ensures game.Valid() && game.board.intersections == old(game.board.intersections)
    ensures r.Failure? <==> value != "B" && value != "W"
    ensures r.Failure? ==> game.board.State() == old(game.board.State())
    ensures r.Success? ==>
      && game.board.State() == old(game.board.State()).(turn := PlayerColor(value))
      && ApplyTurnValue(old(game.board.turn), d.turn) == PlayerColor(value)
      && (d.turn.Some? <==> old(game.board.turn) != PlayerColor(value))
    ensures d.intersections == old(d.intersections)
  {
    var newTurn := PlayerColor(value);
    if newTurn == EMPTY {
      return Failure("Invalid color");
    }
    TreeReplay.SetupTurn(game, d, newTurn);
    return Success(());
  }

  /** The check a markup or `VW` property's values pass: each non-empty value must list points. */
  method CheckPoints(values: seq<string>, w: int, h: int) returns (r: Result<()>)
    ensures r.Success? <==> forall k | 0 <= k < |values| :: values[k] != "" ==> ComposedPoints(values[k], w, h).Some?
  {
    var i := 0;
    while i < |values|
      invariant 0 <= i <= |values|
      invariant forall k | 0 <= k < i :: values[k] != "" ==> ComposedPoints(values[k], w, h).Some?
    {
      if values[i] != "" {
        var points := ParseSGFComposedPoint(values[i], w, h);
        UnescapedColonsAreColons(values[i], 0);
        if points.Failure? {
          return Failure(points.error);
        }
      }
      i := i + 1;
    }
    return Success(());
  }

  /** A label value the program accepts: a point, a colon, then the text. */
  predicate LabelValue(v: string, w: int, h: int) {
    var parts := SgfRoot.ComposeParts(v);
    parts.Success? && |parts.value| == 2 && ParseSGFPoint(parts.value[0], w, h).Success?
  }

  /** The check an `LB` property's values pass: each must be a point and a text. */
  method CheckLabels(values: seq<string>, w: int, h: int) returns (r: Result<()>)
    ensures r.Success? <==> forall k | 0 <= k < |values| :: LabelValue(values[k], w, h)
  {
    var i := 0;
    while i < |values|
      invariant 0 <= i <= |values|
      invariant forall k | 0 <= k < i :: LabelValue(values[k], w, h)
    {
      var parts := SplitSGFCompose(values[i]);
      UnescapedColonsAreColons(values[i], 0);
      if parts.Failure? {
        return Failure(parts.error);
      }
      assert parts == SgfRoot.ComposeParts(values[i]);
      var point := ParseSGFPoint(parts.value[0], w, h);
      if point.Failure? {
        return Failure(point.error);
      }
      if |parts.value| < 2 {
        return Failure("Label without text");
      }
      i := i + 1;
    }
    return Success(());
  }

  // ----- a node -----

  /** A node holds a property without the value the program reads. */
  const MISSING_VALUE := "Missing property value"

  /**
   * What the properties `prefix` of a node have done so far: whether a
   * move was played and which setup is open, the current node is the
   * node's start `p0` or a child of it as `NodePushes` says, and the
   * properties so far neither move twice nor mix a move with setup.
   */
  ghost predicate NodeState(game: Game, p0: int, atSetup0: bool, finished0: bool, prefix: seq<Sgf.Property>, moved: bool, setup: Option<BoardDiff>)
    reads game, game.board, game.board.intersections, game.history, SetupsOf(game.history.nodes)
  {
    && game.Valid()
    && 0 <= p0 < |game.history.nodes| && game.history.nodes[p0].IsSetup() == atSetup0
    && moved == FirstMove(prefix).Some?
    && setup.Some? == HasSetup(prefix)
    && (setup.Some? ==> game.history.nodes[game.history.pointer].setup == setup)
    && (!moved ==> game.finished == finished0)
    && (game.history.pointer != p0 <==> NodePushes(prefix, atSetup0, finished0, game.board.w, game.board.h))
    && (game.history.pointer == p0 || game.history.nodes[game.history.pointer].prev == p0)
    && (game.history.pointer != p0 && moved ==> MovedTo(FirstMove(prefix).value, game.history.nodes[game.history.pointer].pos, game.board.w, game.board.h))
    && (game.history.pointer != p0 && !moved ==> game.history.nodes[game.history.pointer].IsSetup())
    && !MovesTwice(prefix) && !MixesMoveAndSetup(prefix)
  }

  /** The move property `p` reads as the position `pos`. */
  predicate MovedTo(p: Sgf.Property, pos: int, w: int, h: int) {
    p.values != [] && ParseSGFMove(p.values[0], w, h) == Success(pos)
  }

  lemma MoveExtends(prefix: seq<Sgf.Property>, p: Sgf.Property)
    requires IsMoveId(p.ident) && FirstMove(prefix).None? && !HasSetup(prefix)
    ensures FirstMove(prefix + [p]) == Some(p) && !HasSetup(prefix + [p])
    ensures !MovesTwice(prefix + [p]) && !MixesMoveAndSetup(prefix + [p])
  {
    assert (prefix + [p])[..|prefix|] == prefix;
  }

  lemma SetupExtends(prefix: seq<Sgf.Property>, p: Sgf.Property)
    requires IsSetupId(p.ident) && FirstMove(prefix).None? && !MovesTwice(prefix)
    ensures FirstMove(prefix + [p]).None? && HasSetup(prefix + [p])
    ensures !MovesTwice(prefix + [p]) && !MixesMoveAndSetup(prefix + [p])
  {
    var q := prefix + [p];
    assert q[..|q| - 1] == prefix && q[|q| - 1] == p;
    assert !IsMoveId(p.ident) by {
      assert |p.ident| == 2;
    }
    assert FirstMove(q) == None;
    assert HasSetup(q) == (HasSetup(prefix) || IsSetupId(p.ident));
  }

  lemma OtherExtends(prefix: seq<Sgf.Property>, p: Sgf.Property)
    requires !IsMoveId(p.ident) && !IsSetupId(p.ident) && !MovesTwice(prefix) && !MixesMoveAndSetup(prefix)
    ensures FirstMove(prefix + [p]) == FirstMove(prefix) && HasSetup(prefix + [p]) == HasSetup(prefix)
    ensures !MovesTwice(prefix + [p]) && !MixesMoveAndSetup(prefix + [p])
  {
    var q := prefix + [p];
    assert q[..|prefix|] == prefix;
    forall k, l | 0 <= k < l < |q| ensures !(IsMoveId(q[k].ident) && IsMoveId(q[l].ident)) {
      if l < |prefix| {
        assert q[k] == prefix[k] && q[l] == prefix[l];
      }
    }
    forall k, l | 0 <= k < |q| && 0 <= l < |q| ensures !(IsMoveId(q[k].ident) && IsSetupId(q[l].ident)) {
      if k < |prefix| && l < |prefix| {
        assert q[k] == prefix[k] && q[l] == prefix[l];
      }
    }
  }

  /** A property that neither moves nor sets up leaves a node's state as it was. */
  lemma OtherKeeps(game: Game, p0: int, atSetup0: bool, finished0: bool, prefix: seq<Sgf.Property>, moved: bool, setup: Option<BoardDiff>, p: Sgf.Property)
    requires !IsMoveId(p.ident) && !IsSetupId(p.ident) && NodeState(game, p0, atSetup0, finished0, prefix, moved, setup)
    ensures NodeState(game, p0, atSetup0, finished0, prefix + [p], moved, setup)
  {
    OtherExtends(prefix, p);
  }

  /** A `B` or `W` property within a node. */
  method MoveProperty(game: Game, prop: Sgf.Property, moved: bool, setup: Option<BoardDiff>,
                      ghost p0: int, ghost atSetup0: bool, ghost finished0: bool, ghost prefix: seq<Sgf.Property>)
    returns (r: Result<()>)
    requires IsMoveId(prop.ident) && NodeState(game, p0, atSetup0, finished0, prefix, moved, setup)
    modifies game, game.board, game.board.intersections, game.history, SetupsOf(game.history.nodes)
    ensures game.Valid() && game.board.intersections == old(game.board.intersections)
    ensures Grows(old(game.history.nodes), game.history.nodes)
    ensures forall e | e in SetupsOf(game.history.nodes) :: e in old(SetupsOf(game.history.nodes)) || fresh(e)
    ensures moved ==> r == Failure("Moved twice in a node")
    ensures !moved && setup.Some? ==> r == Failure("Cannot mix move properties and setup properties")
    ensures r.Success? ==> NodeState(game, p0, atSetup0, finished0, prefix + [prop], true, setup)
  {
    if moved {
      return Failure("Moved twice in a node");
    }
    if setup.Some? {
      return Failure("Cannot mix move properties and setup properties");
    }
    if prop.values == [] {
      return Failure(MISSING_VALUE);
    }
    var p := game.history.pointer;
    assert game.history.nodes[p].setup.Some? ==> game.history.nodes[p].setup.value in SetupsOf(game.history.nodes);
    r := PlayMove(game, if prop.ident == "B" then BLACK else WHITE, prop.values[0]);
    MoveExtends(prefix, prop);
  }

  /** The setup an `AB`, `AW`, `AE` or `PL` property writes to: the one the node opened already, or the one `PrepareSetup` opens. */
  method OpenSetup(game: Game, prop: Sgf.Property, setup: Option<BoardDiff>,
                   ghost p0: int, ghost atSetup0: bool, ghost finished0: bool, ghost prefix: seq<Sgf.Property>)
    returns (d: BoardDiff)
    requires IsSetupId(prop.ident) && NodeState(game, p0, atSetup0, finished0, prefix, false, setup)
    modifies game.history
    ensures Grows(old(game.history.nodes), game.history.nodes)
    ensures forall e | e in SetupsOf(game.history.nodes) :: e in old(SetupsOf(game.history.nodes)) || fresh(e)
    ensures setup.Some? ==> d == setup.value
    ensures d in SetupsOf(game.history.nodes)
    ensures NodeState(game, p0, atSetup0, finished0, prefix + [prop], false, Some(d))
  {
    if setup.None? {
      d := PrepareSetup(game);
    } else {
      d := setup.value;
      assert d in SetupsOf(game.history.nodes) by {
        assert game.history.nodes[game.history.pointer].setup == setup;
      }
    }
    SetupExtends(prefix, prop);
  }

  /** An `AB`, `AW`, `AE` or `PL` property within a node. */
  method SetupProperty(game: Game, prop: Sgf.Property, moved: bool, setup: Option<BoardDiff>,
                       ghost p0: int, ghost atSetup0: bool, ghost finished0: bool, ghost prefix: seq<Sgf.Property>)
    returns (r: Result<()>, setup': Option<BoardDiff>)
    requires IsSetupId(prop.ident) && NodeState(game, p0, atSetup0, finished0, prefix, moved, setup)
    modifies game.board, game.board.intersections, game.history, SetupsOf(game.history.nodes)
    ensures game.Valid() && game.board.intersections == old(game.board.intersections)
    ensures Grows(old(game.history.nodes), game.history.nodes)
    ensures forall e | e in SetupsOf(game.history.nodes) :: e in old(SetupsOf(game.history.nodes)) || fresh(e)
    ensures moved ==> r == Failure("Cannot mix setup properties and move properties")
    ensures r.Success? ==> NodeState(game, p0, atSetup0, finished0, prefix + [prop], false, setup')
  {
    if moved {
      return Failure("Cannot mix setup properties and move properties"), setup;
    }
    var d := OpenSetup(game, prop, setup, p0, atSetup0, finished0, prefix);
    setup' := Some(d);
    r := FillSetup(game, prop, d, p0, atSetup0, finished0, prefix + [prop]);
  }

  /** The values of a setup property, applied to the board and recorded in the node's setup `d`. */
  method FillSetup(game: Game, prop: Sgf.Property, d: BoardDiff,
                   ghost p0: int, ghost atSetup0: bool, ghost finished0: bool, ghost prefix: seq<Sgf.Property>)
    returns (r: Result<()>)
    requires IsSetupId(prop.ident) && NodeState(game, p0, atSetup0, finished0, prefix, false, Some(d))
    modifies game.board, game.board.intersections, d
    ensures game.board.intersections == old(game.board.intersections)
    ensures NodeState(game, p0, atSetup0, finished0, prefix, false, Some(d))
  {
    if prop.ident != "PL" {
      r := SetupPoints(game, d, prop.values, SetupState(prop.ident), game.board.cells);
    } else {
      r := SetupPlayer(game, d, if prop.values == [] then "" else prop.values[0]);
    }
  }


  /** A `C` property: the comment of the current node is set; nothing else in the tree changes. */
  method CommentProperty(game: Game, prop: Sgf.Property, moved: bool, setup: Option<BoardDiff>,
                         ghost p0: int, ghost atSetup0: bool, ghost finished0: bool, ghost prefix: seq<Sgf.Property>)
    returns (r: Result<()>)
    requires prop.ident == "C" && NodeState(game, p0, atSetup0, finished0, prefix, moved, setup)
    modifies game.history
    ensures game.Valid() && game.history.pointer == old(game.history.pointer)
    ensures Grows(old(game.history.nodes), game.history.nodes) && SetupsOf(game.history.nodes) == old(SetupsOf(game.history.nodes))
    ensures r.Failure? <==> prop.values == []
    ensures r.Success? ==>
      game.history.nodes == old(game.history.nodes)[game.history.pointer := old(game.history.nodes[game.history.pointer]).(comment := Some(SgfText.ParseSGFTextFixed(prop.values[0])))]
    ensures r.Success? ==> NodeState(game, p0, atSetup0, finished0, prefix + [prop], moved, setup)
  {
    if prop.values == [] {
      return Failure(MISSING_VALUE);
    }
    ghost var before := game.history.nodes;
    game.SetCommentToCurrentNode(SgfText.ParseSGFTextFixed(prop.values[0]));
    SameSetupsOf(before, game.history.nodes);
    OtherExtends(prefix, prop);
    r := Success(());
  }

  /** A game-information property: its value, read as text or simple text, is added to the root node's properties. */
  method InfoProperty(game: Game, prop: Sgf.Property, moved: bool, setup: Option<BoardDiff>,
                      ghost p0: int, ghost atSetup0: bool, ghost finished0: bool, ghost prefix: seq<Sgf.Property>)
    returns (r: Result<()>)
    requires IsGameInfoId(prop.ident) && !IsMoveId(prop.ident) && !IsSetupId(prop.ident)
    requires NodeState(game, p0, atSetup0, finished0, prefix, moved, setup)
    modifies game.history
    ensures game.Valid() && game.history.pointer == old(game.history.pointer)
    ensures Grows(old(game.history.nodes), game.history.nodes) && SetupsOf(game.history.nodes) == old(SetupsOf(game.history.nodes))
    ensures r.Failure? <==> prop.values == []
    ensures r.Success? ==>
      && game.history.nodes[0].props.Some? && prop.ident in game.history.nodes[0].props.value
      && game.history.nodes[0].props.value[prop.ident] == Property(InfoText(prop.ident, prop.values[0]), false)
    ensures r.Success? ==> NodeState(game, p0, atSetup0, finished0, prefix + [prop], moved, setup)
  {
    if prop.values == [] {
      return Failure(MISSING_VALUE);
    }
    ghost var before := game.history.nodes;
    game.history.AddPropertyToRootNode(prop.ident, InfoText(prop.ident, prop.values[0]), false);
    OtherExtends(prefix, prop);
    r := Success(());
  }

  /** Markup, `VW` and `LB` values are checked and then dropped: points (at least one value) for markup and `VW`, a point and a text for each label. */
  method CheckMarkup(prop: Sgf.Property, w: int, h: int) returns (r: Result<()>)
    requires IsMarkId(prop.ident) || prop.ident == "VW" || prop.ident == "LB"
    ensures prop.ident != "LB" && prop.values == [] ==> r == Failure(MISSING_VALUE)
    ensures r.Success? <==>
      if prop.ident == "LB" then forall k | 0 <= k < |prop.values| :: LabelValue(prop.values[k], w, h)
      else prop.values != [] && forall k | 0 <= k < |prop.values| :: prop.values[k] != "" ==> ComposedPoints(prop.values[k], w, h).Some?
  {
    if prop.ident == "LB" {
      r := CheckLabels(prop.values, w, h);
    } else if prop.values == [] {
      r := Failure(MISSING_VALUE);
    } else {
      r := CheckPoints(prop.values, w, h);
    }
  }

  /** The other properties within a node: a comment, markup and labels (checked only), game information, and the rest ignored. */
  method OtherProperty(game: Game, prop: Sgf.Property, moved: bool, setup: Option<BoardDiff>,
                       ghost p0: int, ghost atSetup0: bool, ghost finished0: bool, ghost prefix: seq<Sgf.Property>)
    returns (r: Result<()>)
    requires !IsMoveId(prop.ident) && !IsSetupId(prop.ident) && NodeState(game, p0, atSetup0, finished0, prefix, moved, setup)
    modifies game.history
    ensures game.Valid() && game.history.pointer == old(game.history.pointer)
    ensures Grows(old(game.history.nodes), game.history.nodes) && SetupsOf(game.history.nodes) == old(SetupsOf(game.history.nodes))
    ensures prop.ident == "C" && prop.values != [] ==>
      game.history.nodes == old(game.history.nodes)[game.history.pointer := old(game.history.nodes[game.history.pointer]).(comment := Some(SgfText.ParseSGFTextFixed(prop.values[0])))]
    ensures IsGameInfoId(prop.ident) && prop.values != [] ==>
      && game.history.nodes[0].props.Some? && prop.ident in game.history.nodes[0].props.value
      && game.history.nodes[0].props.value[prop.ident] == Property(InfoText(prop.ident, prop.values[0]), false)
    ensures r.Success? ==> NodeState(game, p0, atSetup0, finished0, prefix + [prop], moved, setup)
  {
    if prop.ident == "C" || IsMarkId(prop.ident) || prop.ident == "VW" || prop.ident == "LB" {
      NotGameInfo(prop.ident);
    }
    if prop.ident == "C" {
      r := CommentProperty(game, prop, moved, setup, p0, atSetup0, finished0, prefix);
    } else if IsGameInfoId(prop.ident) {
      r := InfoProperty(game, prop, moved, setup, p0, atSetup0, finished0, prefix);
    } else {
      r := IgnoredProperty(game, prop, moved, setup, p0, atSetup0, finished0, prefix);
    }
  }

  /** Markup, `VW` and `LB` values are checked and dropped; any other property is ignored.  The game is left alone. */
  method IgnoredProperty(game: Game, prop: Sgf.Property, moved: bool, setup: Option<BoardDiff>,
                         ghost p0: int, ghost atSetup0: bool, ghost finished0: bool, ghost prefix: seq<Sgf.Property>)
    returns (r: Result<()>)
    requires !IsMoveId(prop.ident) && !IsSetupId(prop.ident) && NodeState(game, p0, atSetup0, finished0, prefix, moved, setup)
    ensures !(IsMarkId(prop.ident) || prop.ident == "VW" || prop.ident == "LB") ==> r == Success(())
    ensures NodeState(game, p0, atSetup0, finished0, prefix + [prop], moved, setup)
  {
    if IsMarkId(prop.ident) || prop.ident == "VW" || prop.ident == "LB" {
      r := CheckMarkup(prop, game.board.w, game.board.h);
    } else {
      r := Success(());
    }
    OtherKeeps(game, p0, atSetup0, finished0, prefix, moved, setup, prop);
  }

  /** One property of a node, dispatched on its identifier. */
  method ProcessProperty(game: Game, prop: Sgf.Property, moved: bool, setup: Option<BoardDiff>,
                         ghost p0: int, ghost atSetup0: bool, ghost finished0: bool, ghost prefix: seq<Sgf.Property>)
    returns (r: Result<()>, moved': bool, setup': Option<BoardDiff>)
    requires NodeState(game, p0, atSetup0, finished0, prefix, moved, setup)
    modifies game, game.board, game.board.intersections, game.history, SetupsOf(game.history.nodes)
    ensures game.Valid() && game.board.intersections == old(game.board.intersections)
    ensures Grows(old(game.history.nodes), game.history.nodes)
    ensures forall e | e in SetupsOf(game.history.nodes) :: e in old(SetupsOf(game.history.nodes)) || fresh(e)
    ensures r.Success? ==> NodeState(game, p0, atSetup0, finished0, prefix + [prop], moved', setup')
  {
    moved', setup' := moved, setup;
    if IsMoveId(prop.ident) {
      r := MoveProperty(game, prop, moved, setup, p0, atSetup0, finished0, prefix);
      moved' := true;
    } else if IsSetupId(prop.ident) {
      r, setup' := SetupProperty(game, prop, moved, setup, p0, atSetup0, finished0, prefix);
    } else {
      r := OtherProperty(game, prop, moved, setup, p0, atSetup0, finished0, prefix);
    }
  }

  /** A node with neither a move nor a setup property: it leaves the current node where it is. */
  predicate Idle(props: seq<Sgf.Property>) {
    FirstMove(props).None? && !HasSetup(props)
  }

  /**
   * One node: its properties are applied in order.  On success the node
   * neither moves twice nor mixes a move with setup, and the current node
   * moved down to a child exactly when `NodePushes` says so.
   */
  method ProcessNode(game: Game, props: seq<Sgf.Property>) returns (r: Result<()>)
    requires game.Valid()
    modifies game, game.board, game.board.intersections, game.history, SetupsOf(game.history.nodes)
    ensures game.Valid() && game.board.intersections == old(game.board.intersections)
    ensures Grows(old(game.history.nodes), game.history.nodes)
    ensures forall e | e in SetupsOf(game.history.nodes) :: e in old(SetupsOf(game.history.nodes)) || fresh(e)
    ensures r.Success? ==> game.history.pointer == old(game.history.pointer) || game.history.nodes[game.history.pointer].prev == old(game.history.pointer)
    ensures r.Success? ==> !MovesTwice(props) && !MixesMoveAndSetup(props)
    ensures r.Success? ==>
      (game.history.pointer != old(game.history.pointer) <==>
       NodePushes(props, old(game.history.nodes[game.history.pointer].IsSetup()), old(game.finished), game.board.w, game.board.h))
    ensures r.Success? && game.history.pointer != old(game.history.pointer) ==>
      if FirstMove(props).Some? then MovedTo(FirstMove(props).value, game.history.nodes[game.history.pointer].pos, game.board.w, game.board.h)
      else game.history.nodes[game.history.pointer].IsSetup()
  {
    ghost var p0, atSetup0, finished0 := game.history.pointer, game.history.nodes[game.history.pointer].IsSetup(), game.finished;
    var moved := false;
    var setup: Option<BoardDiff> := None;
    var i := 0;
    while i < |props|
      invariant 0 <= i <= |props|
      invariant NodeState(game, p0, atSetup0, finished0, props[..i], moved, setup)
      invariant game.board.intersections == old(game.board.intersections)
      invariant Grows(old(game.history.nodes), game.history.nodes)
      invariant forall e | e in SetupsOf(game.history.nodes) :: e in old(SetupsOf(game.history.nodes)) || fresh(e)
    {
      assert props[..i + 1] == props[..i] + [props[i]];
      r, moved, setup := ProcessProperty(game, props[i], moved, setup, p0, atSetup0, finished0, props[..i]);
      if r.Failure? {
        return r;
      }
      i := i + 1;
    }
    assert props[..|props|] == props;
    return Success(());
  }

  /** An idle node does not move the current node. */
  lemma IdleStays(props: seq<Sgf.Property>, atSetup: bool, finished: bool, w: int, h: int)
    requires Idle(props)
    ensures !NodePushes(props, atSetup, finished, w, h)
  {
  }

  /** One node of a sequence, extending the line of current nodes when it moved the current node down. */
  method NodeStep(game: Game, props: seq<Sgf.Property>, ghost line: seq<int>) returns (r: Result<()>, down: bool, ghost line': seq<int>)
    requires game.Valid() && Line(game.history.nodes, line) && game.history.pointer == line[|line| - 1]
    modifies game, game.board, game.board.intersections, game.history, SetupsOf(game.history.nodes)
    ensures game.Valid() && game.board.intersections == old(game.board.intersections)
    ensures Grows(old(game.history.nodes), game.history.nodes)
    ensures forall e | e in SetupsOf(game.history.nodes) :: e in old(SetupsOf(game.history.nodes)) || fresh(e)
    ensures Line(game.history.nodes, line') && line'[0] == line[0] && |line'| == |line| + (if down then 1 else 0)
    ensures r.Success? ==> game.history.pointer == line'[|line'| - 1] && !MovesTwice(props) && !MixesMoveAndSetup(props)
    ensures (r.Failure? || Idle(props)) ==> !down
  {
    ghost var nodes1 := game.history.nodes;
    var p1 := game.history.pointer;
    ghost var atSetup1, finished1 := nodes1[p1].IsSetup(), game.finished;
    r := ProcessNode(game, props);
    LineGrows(nodes1, game.history.nodes, line);
    line' := line;
    down := false;
    if r.Failure? {
      return;
    }
    if Idle(props) {
      IdleStays(props, atSetup1, finished1, game.board.w, game.board.h);
    }
    if game.history.pointer != p1 {
      line' := line + [game.history.pointer];
      down := true;
    }
  }

  /**
   * The nodes of a sequence, in order.  The current nodes visited form a
   * line from the starting node, one link per node that pushed, so fewer
   * links than nodes when one of them is idle.
   */
  method ProcessSequence(game: Game, nodes: seq<seq<Sgf.Property>>) returns (r: Result<()>, pushed: nat, ghost line: seq<int>)
    requires game.Valid()
    modifies game, game.board, game.board.intersections, game.history, SetupsOf(game.history.nodes)
    ensures game.Valid() && game.board.intersections == old(game.board.intersections)
    ensures Grows(old(game.history.nodes), game.history.nodes)
    ensures forall e | e in SetupsOf(game.history.nodes) :: e in old(SetupsOf(game.history.nodes)) || fresh(e)
    ensures Line(game.history.nodes, line) && line[0] == old(game.history.pointer) && |line| == pushed + 1 <= |nodes| + 1
    ensures r.Success? ==> game.history.pointer == line[|line| - 1]
    ensures r.Success? ==> forall k | 0 <= k < |nodes| :: !MovesTwice(nodes[k]) && !MixesMoveAndSetup(nodes[k])
    ensures r.Success? && (exists k | 0 <= k < |nodes| :: Idle(nodes[k])) ==> |line| <= |nodes|
  {
    line := [game.history.pointer];
    pushed := 0;
    var i := 0;
    while i < |nodes|
      invariant 0 <= i <= |nodes|
      invariant game.Valid() && game.board.intersections == old(game.board.intersections)
      invariant Grows(old(game.history.nodes), game.history.nodes)
      invariant forall e | e in SetupsOf(game.history.nodes) :: e in old(SetupsOf(game.history.nodes)) || fresh(e)
      invariant Line(game.history.nodes, line) && line[0] == old(game.history.pointer) && |line| == pushed + 1 <= i + 1
      invariant game.history.pointer == line[|line| - 1]
      invariant forall k | 0 <= k < i :: !MovesTwice(nodes[k]) && !MixesMoveAndSetup(nodes[k])
      invariant (exists k | 0 <= k < i :: Idle(nodes[k])) ==> |line| <= i
    {
      var down;
      r, down, line := NodeStep(game, nodes[i], line);
      if r.Failure? {
        return;
      }
      if down {
        pushed := pushed + 1;
      }
      i := i + 1;
    }
    r := Success(());
  }

  /** Undoing `n` more than a line has links, from its last node, leads where `n` undos lead from its first. */
  lemma {:induction false} LineUndoneMore(nodes: seq<Node>, line: seq<int>, n: nat)
    requires Ordered(nodes) && Line(nodes, line)
    ensures UndoneTo(nodes, line[|line| - 1], |line| - 1 + n) == UndoneTo(nodes, line[0], n)
    decreases |line|
  {
    if |line| > 1 {
      var init := line[..|line| - 1];
      assert Line(nodes, init);
      LineUndoneMore(nodes, init, n);
      assert nodes[line[|line| - 1]].prev == init[|init| - 1] >= 0;
    }
  }

  /** At least one undo from a node other than the root leads to a node above it. */
  lemma {:induction false} UndoneAbove(nodes: seq<Node>, p: int, n: nat)
    requires Ordered(nodes) && 0 <= p < |nodes| && n >= 1 && nodes[p].prev >= 0
    ensures UndoneTo(nodes, p, n) < p
    decreases n
  {
    var q := nodes[p].prev;
    if n > 1 && nodes[q].prev >= 0 {
      UndoneAbove(nodes, q, n - 1);
    }
  }

  /** Undoing `n` times from the end of a line of at most `n` links: the first `|line| - 1` undos walk back along the line. */
  lemma LineUndoneFromEnd(nodes: seq<Node>, line: seq<int>, n: nat)
    requires Ordered(nodes) && Line(nodes, line) && |line| - 1 <= n
    ensures UndoneTo(nodes, line[|line| - 1], n) == UndoneTo(nodes, line[0], n - (|line| - 1))
    ensures n >= |line| && nodes[line[0]].prev >= 0 ==> UndoneTo(nodes, line[|line| - 1], n) < line[0]
  {
    LineUndoneMore(nodes, line, n - (|line| - 1));
    if n >= |line| && nodes[line[0]].prev >= 0 {
      UndoneAbove(nodes, line[0], n - (|line| - 1));
    }
  }

  /**
   * A game tree, as `processTree` reads it: its sequence, then each of
   * its branches, then one undo per node of the sequence.  For a tree
   * without branches that is `pushed` undos too many when only `pushed`
   * of its nodes moved the current node down, so that with an idle node
   * the current node ends above the one the tree started at.
   */
  method ProcessTreeAsWritten(game: Game, tree: Sgf.GameTree) returns (r: Result<()>, ghost pushed: nat)
    requires game.Valid()
    modifies game, game.board, game.board.intersections, game.history, SetupsOf(game.history.nodes)
    ensures game.Valid() && game.board.intersections == old(game.board.intersections)
    ensures Grows(old(game.history.nodes), game.history.nodes)
    ensures forall e | e in SetupsOf(game.history.nodes) :: e in old(SetupsOf(game.history.nodes)) || fresh(e)
    ensures r.Success? && tree.subtrees == [] ==>
      && pushed <= |tree.nodes|
      && game.history.pointer == UndoneTo(game.history.nodes, old(game.history.pointer), |tree.nodes| - pushed)
    ensures r.Success? && tree.subtrees == [] && (exists k | 0 <= k < |tree.nodes| :: Idle(tree.nodes[k])) &&
            old(game.history.nodes[game.history.pointer].prev) >= 0 ==>
      game.history.pointer < old(game.history.pointer)
    decreases tree
  {
    ghost var line;
    r, pushed, line := ProcessSequence(game, tree.nodes);
    if r.Failure? {
      return;
    }
    var bi := 0;
    while bi < |tree.subtrees|
      invariant 0 <= bi <= |tree.subtrees|
      invariant game.Valid() && game.board.intersections == old(game.board.intersections)
      invariant Grows(old(game.history.nodes), game.history.nodes)
      invariant forall e | e in SetupsOf(game.history.nodes) :: e in old(SetupsOf(game.history.nodes)) || fresh(e)
      invariant tree.subtrees == [] ==> Line(game.history.nodes, line) && game.history.pointer == line[|line| - 1]
    {
      ghost var branchPushed;
      r, branchPushed := ProcessTreeAsWritten(game, tree.subtrees[bi]);
      if r.Failure? {
        return;
      }
      bi := bi + 1;
    }
    if tree.subtrees == [] {
      LineUndoneFromEnd(game.history.nodes, line, |tree.nodes|);
    }
    UndoTimes(game, |tree.nodes|);
  }

  /** The trees' nodes, branches included, neither move twice nor mix a move with setup. */
  predicate TreeNodesFit(tree: Sgf.GameTree)
    decreases tree
  {
    && (forall k | 0 <= k < |tree.nodes| :: !MovesTwice(tree.nodes[k]) && !MixesMoveAndSetup(tree.nodes[k]))
    && forall k | 0 <= k < |tree.subtrees| :: TreeNodesFit(tree.subtrees[k])
  }

  /**
   * A game tree, undoing once per node that moved the current node down:
   * the sequence, then each branch from the end of the sequence, then back
   * to the node the tree started at.
   */
  method ProcessTree(game: Game, tree: Sgf.GameTree) returns (r: Result<()>)
    requires game.Valid()
    modifies game, game.board, game.board.intersections, game.history, SetupsOf(game.history.nodes)
    ensures game.Valid() && game.board.intersections == old(game.board.intersections)
    ensures Grows(old(game.history.nodes), game.history.nodes)
    ensures forall e | e in SetupsOf(game.history.nodes) :: e in old(SetupsOf(game.history.nodes)) || fresh(e)
    ensures r.Success? ==> game.history.pointer == old(game.history.pointer)
    ensures r.Success? ==> TreeNodesFit(tree)
    decreases tree
  {
    var pushed;
    ghost var line;
    r, pushed, line := ProcessSequence(game, tree.nodes);
    if r.Failure? {
      return;
    }
    var bi := 0;
    while bi < |tree.subtrees|
      invariant 0 <= bi <= |tree.subtrees|
      invariant game.Valid() && game.board.intersections == old(game.board.intersections)
      invariant Grows(old(game.history.nodes), game.history.nodes)
      invariant forall e | e in SetupsOf(game.history.nodes) :: e in old(SetupsOf(game.history.nodes)) || fresh(e)
      invariant Line(game.history.nodes, line) && game.history.pointer == line[|line| - 1]
      invariant forall k | 0 <= k < bi :: TreeNodesFit(tree.subtrees[k])
    {
      ghost var nodes1 := game.history.nodes;
      r := ProcessTree(game, tree.subtrees[bi]);
      LineGrows(nodes1, game.history.nodes, line);
      if r.Failure? {
        return;
      }
      bi := bi + 1;
    }
    ghost var nodes2 := game.history.nodes;
    UndoTimes(game, pushed);
    LineUndone(nodes2, line);
  }

  // ----- the record -----

  /** The program refuses a first game tree without nodes: it reads the root node's properties. */
  const NO_ROOT_NODE := "Missing root node"

  /**
   * A game read from an SGF record: the first game tree of the collection
   * is replayed into a new game sized by its root node, and the current
   * node is back at the root.  A text that is no collection, a root that
   * is not Go or names a bad size, and a node that moves twice or mixes a
   * move with setup are refused.
   */
  method FromSGF(str: string) returns (r: Result<Game>)
    ensures Sgf.CollectionOf(str).Failure? ==> r.Failure?
    ensures r.Success? ==>
      && Sgf.CollectionOf(str).Success?
      && var tree := Sgf.CollectionOf(str).value[0];
      && tree.nodes != []
      && SgfRoot.BoardSizeOf(tree.nodes[0]).Success?
      && TreeNodesFit(tree)
    ensures r.Success? ==>
      && fresh(r.value) && r.value.Valid() && r.value.history.pointer == 0
      && (r.value.board.w, r.value.board.h) == SgfRoot.BoardSizeOf(Sgf.CollectionOf(str).value[0].nodes[0]).value
  {
    var collection := Sgf.ParseSGF(str);
    if collection.Failure? {
      return Failure(collection.error);
    }
    var rootTree := collection.value[0];
    if rootTree.nodes == [] {
      return Failure(NO_ROOT_NODE);
    }
    var size := SgfRoot.ReadBoardSize(rootTree.nodes[0]);
    if size.Failure? {
      return Failure(size.error);
    }
    var (w, h) := size.value;
    var game := new Game(w, h);
    var processed := ProcessTree(game, rootTree);
    if processed.Failure? {
      return Failure(processed.error);
    }
    return Success(game);
  }
}
