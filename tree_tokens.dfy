/**
 * The token alphabet shared by the compact record formats of a game tree.
 * A tree is written as a flat stream of tokens: a move is its position, a
 * pass, the start and the end of a branch are command tokens, and a
 * resignation or a setup node is the "special" command followed by a
 * sub-command.  In the binary format every position or command token
 * takes the same number of bits, the least number that can hold every
 * position of the board and the four command values after them.
 */
module TreeTokens {
  import opened Stones
  import Seqs
  import opened BitIo
  import opened Wrappers
  import opened Diffs
  import opened Compression
  import opened Geometry

  const CMD_PASS := 0
  const CMD_BEGIN_BRANCH := 1
  const CMD_END_BRANCH := 2
  const CMD_SPECIAL := 3
  const CMD_UPPER := 4
  const SUBCMD_RESIGN := 1
  const SUBCMD_SETUP := 2
  const BITWIDTH_SUBCMD := 6

  /** The least `r` with `n <= 2^r`: the program's `Math.ceil(Math.log2(n))` for `n >= 1`. */
  function CeilLog2(n: nat): (r: nat)
    ensures n <= Pow2(r) && (r == 0 || Pow2(r - 1) < n)
  {
    if n <= 1 then 0 else 1 + CeilLog2((n + 1) / 2)
  }

  /** The width of a position or command token on a board of `size` points. */
  function BitWidth(size: nat): nat {
    CeilLog2(size + CMD_UPPER)
  }

  /** Every position and every command value fits the token width, and no smaller width would do. */
  lemma BitWidthFits(size: nat)
    requires size >= 1
    ensures size + CMD_SPECIAL < Pow2(BitWidth(size)) && 3 <= BitWidth(size)
    ensures Pow2(BitWidth(size) - 1) < size + CMD_UPPER
  {
    var r := BitWidth(size);
    assert Pow2(2) == 4;
    if r < 3 {
      Pow2Monotone(r, 2);
    }
  }

  /** The intersections of one state in a setup token: single points, then two-corner rectangles. */
  datatype Group = Group(points: seq<nat>, rects: seq<(nat, nat)>)

  datatype Token =
    | Place(pos: nat)
    | Pass
    | BeginBranch
    | EndBranch
    | Resign
      /** Three groups (EMPTY, BLACK, WHITE) when the node changes intersections; the new turn when it changes the turn. */
    | Setup(intersections: Option<seq<Group>>, turn: Option<int>)

  predicate OnBoardPos(p: int, size: int) {
    0 <= p < size
  }

  predicate ValidGroup(g: Group, size: int) {
    && (forall i | 0 <= i < |g.points| :: OnBoardPos(g.points[i], size))
    && (forall i | 0 <= i < |g.rects| :: OnBoardPos(g.rects[i].0, size) && OnBoardPos(g.rects[i].1, size))
  }

  /** A token the formats can carry on a board of `size` points. */
  predicate ValidToken(t: Token, size: int) {
    match t
    case Place(pos) => OnBoardPos(pos, size)
    case Setup(gs, turn) =>
      && (gs.Some? ==> |gs.value| == 3 && forall si | 0 <= si < 3 :: ValidGroup(gs.value[si], size))
      && (turn.Some? ==> IsValidColor(turn.value))
    case _ => true
  }

  // ----- the setup token of a setup difference -----

  predicate IsPoint(r: Rect) {
    r.left == r.right && r.top == r.bottom
  }

  /** A rectangle whose corners have no negative coordinate. */
  predicate Placed(r: Rect) {
    0 <= r.left && 0 <= r.top && 0 <= r.right && 0 <= r.bottom
  }

  predicate AllPlaced(rs: seq<Rect>) {
    forall i | 0 <= i < |rs| :: Placed(rs[i]) && IsState(rs[i].state)
  }

  /** The rectangles of state `s`, in order, sorted into points and rectangles by corner positions. */
  function GroupFor(rs: seq<Rect>, s: int, w: nat): Group
    requires AllPlaced(rs)
  {
    if rs == [] then Group([], [])
    else
      var g := GroupFor(rs[..|rs| - 1], s, w);
      var r := rs[|rs| - 1];
      if r.state != s then g
      else if IsPoint(r) then g.(points := g.points + [ToPosition(r.left, r.top, w)])
      else g.(rects := g.rects + [(ToPosition(r.left, r.top, w), ToPosition(r.right, r.bottom, w))])
  }

  /** The three groups of a setup token, indexed by state. */
  function Classified(rs: seq<Rect>, w: nat): seq<Group>
    requires AllPlaced(rs)
  {
    [GroupFor(rs, EMPTY, w), GroupFor(rs, BLACK, w), GroupFor(rs, WHITE, w)]
  }

  function GroupSize(g: Group): nat {
    |g.points| + |g.rects|
  }

  /** The number of rectangles of state `s`. */
  function CountState(rs: seq<Rect>, s: int): nat {
    if rs == [] then 0 else CountState(rs[..|rs| - 1], s) + (if rs[|rs| - 1].state == s then 1 else 0)
  }

  lemma {:induction false} GroupForCounts(rs: seq<Rect>, s: int, w: nat)
    requires AllPlaced(rs)
    ensures GroupSize(GroupFor(rs, s, w)) == CountState(rs, s)
  {
    if rs != [] {
      GroupForCounts(rs[..|rs| - 1], s, w);
    }
  }

  lemma {:induction false} StateCounts(rs: seq<Rect>)
    requires AllPlaced(rs)
    ensures CountState(rs, EMPTY) + CountState(rs, BLACK) + CountState(rs, WHITE) == |rs|
  {
    if rs != [] {
      StateCounts(rs[..|rs| - 1]);
    }
  }

  /** No rectangle of a board state is lost or counted twice by the classification. */
  lemma ClassifiedKeepsAll(rs: seq<Rect>, w: nat)
    requires AllPlaced(rs)
    ensures GroupSize(Classified(rs, w)[0]) + GroupSize(Classified(rs, w)[1]) + GroupSize(Classified(rs, w)[2]) == |rs|
  {
    GroupForCounts(rs, EMPTY, w);
    GroupForCounts(rs, BLACK, w);
    GroupForCounts(rs, WHITE, w);
    StateCounts(rs);
  }

  /** Rectangles inside a `w`-wide board give groups of on-board positions. */
  lemma {:induction false} GroupForValid(rs: seq<Rect>, s: int, w: nat, h: nat)
    requires w >= 1 && h >= 1 && AllPlaced(rs)
    requires forall i | 0 <= i < |rs| :: 0 <= rs[i].left <= rs[i].right < w && 0 <= rs[i].top <= rs[i].bottom < h
    ensures ValidGroup(GroupFor(rs, s, w), w * h)
  {
    if rs != [] {
      GroupForValid(rs[..|rs| - 1], s, w, h);
      var r := rs[|rs| - 1];
      CornerOnBoard(r.left, r.top, w, h);
      CornerOnBoard(r.right, r.bottom, w, h);
    }
  }

  /** A group whose points and corners all have SGF letters on a board `w` wide. */
  predicate GroupLettered(g: Group, w: int)
    requires w >= 1
  {
    && (forall i | 0 <= i < |g.points| :: Lettered(w, g.points[i]))
    && (forall i | 0 <= i < |g.rects| :: Lettered(w, g.rects[i].0) && Lettered(w, g.rects[i].1))
  }

  /** A token whose points all have SGF letters on a board `w` wide. */
  predicate TokenLettered(t: Token, w: int)
    requires w >= 1
  {
    match t
    case Place(pos) => Lettered(w, pos)
    case Setup(gs, _) => gs.Some? ==> forall si | 0 <= si < |gs.value| :: GroupLettered(gs.value[si], w)
    case _ => true
  }

  /** Rectangles with lettered far corners give a group whose points and corners have letters. */
  lemma {:induction false} GroupForLettered(rs: seq<Rect>, s: int, w: nat)
    requires w >= 1 && AllPlaced(rs) && RectsLettered(rs)
    requires forall i | 0 <= i < |rs| :: rs[i].left <= rs[i].right < w && rs[i].top <= rs[i].bottom
    ensures GroupLettered(GroupFor(rs, s, w), w)
  {
    if rs != [] {
      GroupForLettered(rs[..|rs| - 1], s, w);
      var r := rs[|rs| - 1];
      DivModUnique(w, ToPosition(r.left, r.top, w), r.top, r.left);
      DivModUnique(w, ToPosition(r.right, r.bottom, w), r.bottom, r.right);
    }
  }

  lemma CornerOnBoard(x: int, y: int, w: int, h: int)
    requires 0 <= x < w && 0 <= y < h
    ensures 0 <= ToPosition(x, y, w) < w * h
  {
    assert y * w <= (h - 1) * w by {
      MulLe(y, h - 1, w);
    }
  }

  lemma MulLe(a: int, b: int, w: int)
    requires 0 <= a <= b && w >= 0
    ensures a * w <= b * w
  {
  }

  /** The program's classification loop, proved against `Classified`. */
  method Classify(rs: seq<Rect>, w: nat) returns (groups: seq<Group>)
    requires AllPlaced(rs)
    ensures groups == Classified(rs, w)
  {
    groups := [Group([], []), Group([], []), Group([], [])];
    var k := 0;
    while k < |rs|
      invariant 0 <= k <= |rs| && groups == Classified(rs[..k], w)
    {
      var change := rs[k];
      var stateIndex := change.state;
      assert rs[..k + 1][..k] == rs[..k];
      if IsPoint(change) {
        groups := groups[stateIndex := groups[stateIndex].(points := groups[stateIndex].points + [ToPosition(change.left, change.top, w)])];
      } else {
        groups := groups[stateIndex := groups[stateIndex].(rects := groups[stateIndex].rects + [(ToPosition(change.left, change.top, w), ToPosition(change.right, change.bottom, w))])];
      }
      k := k + 1;
    }
    Seqs.TakeAll(rs);
  }

  /** The new turn a setup token carries: the setup's, when it differs from the turn of the walk. */
  function TurnOf(setupTurn: Option<TurnChange>, turn: int): (r: Option<int>)
    ensures r.Some? <==> setupTurn.Some? && setupTurn.value.newTurn != turn
    ensures r.Some? ==> r.value == setupTurn.value.newTurn
  {
    if setupTurn.Some? && setupTurn.value.newTurn != turn then Some(setupTurn.value.newTurn) else None
  }
}
