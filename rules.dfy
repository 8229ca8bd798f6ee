/**
 * The rules of play on a plain board view: which strings a stone captures,
 * when a move is suicide, when it is legal, where the new ko point is, and
 * the whole-board effect of placing a stone or passing.  The Board class
 * is proved against these definitions.
 */
module Rules {
  import opened Stones
  import opened Geometry
  import opened Strings

  /** A board as a value: the cells, the prisoner table, the ko point and the side to move. */
  datatype BoardState = BoardState(w: int, h: int, cells: seq<int>, prisoners: seq<int>, koPos: int, turn: int)

  predicate WellFormed(s: BoardState) {
    && Grid(s.w, s.h, s.cells)
    && |s.prisoners| == 2
    && (forall p :: 0 <= p < |s.cells| ==> IsState(s.cells[p]))
  }

  /** Writing a real state into a well-formed board keeps it well formed. */
  lemma WellFormedAfterSet(s: BoardState, p: int, state: int)
    requires WellFormed(s) && 0 <= p < |s.cells| && IsState(state)
    ensures WellFormed(s.(cells := s.cells[p := state]))
  {
  }

  /** The string of `pos` has a liberty (an EMPTY point counts as its own liberty). */
  ghost predicate HasLiberty(w: int, h: int, c: seq<int>, pos: int)
    requires Grid(w, h, c)
  {
    0 <= pos < |c| && ReachesEmpty(w, h, c, c[pos], pos)
  }

  /** `d` holds a stone of the other side than `color` whose string has no liberty. */
  ghost predicate Capturable(w: int, h: int, c: seq<int>, color: int, d: int)
    requires Grid(w, h, c)
  {
    0 <= d < |c| && c[d] != EMPTY && c[d] != color && !ReachesEmpty(w, h, c, c[d], d)
  }

  ghost function CaptureOf(w: int, h: int, c: seq<int>, color: int, d: int): set<int>
    requires Grid(w, h, c)
  {
    if Capturable(w, h, c, color, d) then StringOf(w, h, c, d) else {}
  }

  /** Everything a `color` stone standing at `pos` on `c` takes. */
  ghost function CapturedSet(w: int, h: int, c: seq<int>, color: int, pos: int): set<int>
    requires Grid(w, h, c) && OnBoard(w, h, pos)
  {
    var ns := Neighbours(w, h, pos);
    CaptureOf(w, h, c, color, ns[0]) + CaptureOf(w, h, c, color, ns[1])
      + CaptureOf(w, h, c, color, ns[2]) + CaptureOf(w, h, c, color, ns[3])
  }

  /** What the first `k` of the four neighbour captures take together, in the order left, above, right, below. */
  ghost function CapturedPrefix(w: int, h: int, c: seq<int>, color: int, pos: int, k: nat): set<int>
    requires Grid(w, h, c) && OnBoard(w, h, pos) && k <= 4
  {
    if k == 0 then {} else CapturedPrefix(w, h, c, color, pos, k - 1) + CaptureOf(w, h, c, color, Neighbours(w, h, pos)[k - 1])
  }

  /** The four captures taken one after another are the captured set. */
  lemma CapturedPrefixIsCapturedSet(w: int, h: int, c: seq<int>, color: int, pos: int)
    requires Grid(w, h, c) && OnBoard(w, h, pos)
    ensures CapturedPrefix(w, h, c, color, pos, 4) == CapturedSet(w, h, c, color, pos)
  {
    var ns := Neighbours(w, h, pos);
    var x0, x1 := CaptureOf(w, h, c, color, ns[0]), CaptureOf(w, h, c, color, ns[1]);
    var x2, x3 := CaptureOf(w, h, c, color, ns[2]), CaptureOf(w, h, c, color, ns[3]);
    assert CapturedPrefix(w, h, c, color, pos, 1) == x0;
    assert CapturedPrefix(w, h, c, color, pos, 2) == x0 + x1;
    assert CapturedPrefix(w, h, c, color, pos, 3) == x0 + x1 + x2;
    assert CapturedPrefix(w, h, c, color, pos, 4) == x0 + x1 + x2 + x3;
  }

  ghost predicate CapturesAny(w: int, h: int, c: seq<int>, color: int, pos: int)
    requires Grid(w, h, c) && OnBoard(w, h, pos)
  {
    exists i :: 0 <= i < 4 && Capturable(w, h, c, color, Neighbours(w, h, pos)[i])
  }

  /** `CapturesAny` spelt out direction by direction: left, above, right, below. */
  lemma CapturesAnyCases(w: int, h: int, c: seq<int>, color: int, pos: int)
    requires Grid(w, h, c) && OnBoard(w, h, pos)
    ensures CapturesAny(w, h, c, color, pos) <==>
      Capturable(w, h, c, color, LeftOf(w, h, pos)) || Capturable(w, h, c, color, Above(w, h, pos)) ||
      Capturable(w, h, c, color, RightOf(w, h, pos)) || Capturable(w, h, c, color, Below(w, h, pos))
  {
    var ns := Neighbours(w, h, pos);
    if Capturable(w, h, c, color, ns[0]) {
      assert 0 <= 0 < 4 && Capturable(w, h, c, color, ns[0]);
    } else if Capturable(w, h, c, color, ns[1]) {
      assert 0 <= 1 < 4 && Capturable(w, h, c, color, ns[1]);
    } else if Capturable(w, h, c, color, ns[2]) {
      assert 0 <= 2 < 4 && Capturable(w, h, c, color, ns[2]);
    } else if Capturable(w, h, c, color, ns[3]) {
      assert 0 <= 3 < 4 && Capturable(w, h, c, color, ns[3]);
    }
  }

  /**
   * A `color` stone at the empty point `pos` would stand in a string with
   * no liberty and would capture nothing.
   */
  ghost predicate IsSuicide(w: int, h: int, c: seq<int>, pos: int, color: int)
    requires Grid(w, h, c) && OnBoard(w, h, pos)
  {
    var c1 := c[pos := color];
    !ReachesEmpty(w, h, c1, color, pos) && !CapturesAny(w, h, c1, color, pos)
  }

  /** A move is legal: a real colour, on the board, on turn, on an empty point, not suicide, not the ko point. */
  ghost predicate IsMoveLegal(s: BoardState, pos: int, color: int)
    requires WellFormed(s)
  {
    && IsValidColor(color)
    && OnBoard(s.w, s.h, pos)
    && s.turn == color
    && s.cells[pos] == EMPTY
    && !IsSuicide(s.w, s.h, s.cells, pos, color)
    && pos != s.koPos
  }

  /** A neighbour that is EMPTY or holds `color`: the points the ko rule counts. */
  predicate EmptyOrOwn(c: seq<int>, color: int, n: int) {
    0 <= n < |c| && (c[n] == EMPTY || c[n] == color)
  }

  /**
   * The new ko point after a `color` stone at `pos` took `removed` stones:
   * when exactly one stone was taken and exactly one neighbour of `pos` is
   * EMPTY or of its own colour, that neighbour; NPOS otherwise.
   */
  function NewKoPosition(w: int, h: int, c: seq<int>, pos: int, color: int, removed: int): int
    requires Grid(w, h, c) && PosOrNone(w, h, pos)
  {
    if pos == NPOS || color == EMPTY then NPOS
    else if removed != 1 then NPOS
    else if c[pos] != color then NPOS
    else
      var ns := KoOrder(w, h, pos);
      if KoCount(c, color, ns, 4) == 1 then KoLast(c, color, ns, 4) else NPOS
  }

  /**
   * What the new ko point means: it is set only after a single capture by
   * the stone of `color` at `pos`, and then it is the one neighbour of
   * `pos` that is EMPTY or of `color`; with two or more such neighbours
   * there is no ko point.
   */
  lemma KoPositionMeaning(w: int, h: int, c: seq<int>, pos: int, color: int, removed: int)
    requires Grid(w, h, c) && PosOrNone(w, h, pos)
    ensures var r := NewKoPosition(w, h, c, pos, color, removed);
      r != NPOS ==> pos != NPOS && removed == 1 && c[pos] == color && color != EMPTY
    ensures var r := NewKoPosition(w, h, c, pos, color, removed);
      r != NPOS ==> r in Neighbours(w, h, pos) && EmptyOrOwn(c, color, r)
    ensures var r := NewKoPosition(w, h, c, pos, color, removed);
      r != NPOS ==> forall n :: n in Neighbours(w, h, pos) && EmptyOrOwn(c, color, n) ==> n == r
    ensures var r := NewKoPosition(w, h, c, pos, color, removed);
      r == NPOS && pos != NPOS && removed == 1 && color != EMPTY && c[pos] == color ==>
        forall n :: n in Neighbours(w, h, pos) && EmptyOrOwn(c, color, n) ==>
          exists m :: m in Neighbours(w, h, pos) && EmptyOrOwn(c, color, m) && m != n
  {
    if pos != NPOS {
      KoCountOfFour(c, color, KoOrder(w, h, pos));
    }
  }

  /** The neighbours in the order the ko rule visits them: left, right, above, below. */
  function KoOrder(w: int, h: int, pos: int): seq<int>
    requires Dims(w, h) && PosOrNone(w, h, pos)
  {
    [LeftOf(w, h, pos), RightOf(w, h, pos), Above(w, h, pos), Below(w, h, pos)]
  }

  /** How many of the first `k` of `ns` are on the board and EMPTY or of `color`. */
  function KoCount(c: seq<int>, color: int, ns: seq<int>, k: nat): int
    requires k <= |ns|
  {
    if k == 0 then 0
    else KoCount(c, color, ns, k - 1) + (if KoHit(c, color, ns[k - 1]) then 1 else 0)
  }

  /** The last of the first `k` of `ns` that is on the board and EMPTY or of `color`; NPOS when none is. */
  function KoLast(c: seq<int>, color: int, ns: seq<int>, k: nat): int
    requires k <= |ns|
  {
    if k == 0 then NPOS
    else if KoHit(c, color, ns[k - 1]) then ns[k - 1]
    else KoLast(c, color, ns, k - 1)
  }

  /** Whether `n` is a point the ko rule counts. */
  predicate KoHit(c: seq<int>, color: int, n: int) {
    n != NPOS && EmptyOrOwn(c, color, n)
  }

  /** The count and the last hit over four neighbours, written out. */
  lemma KoCountOfFour(c: seq<int>, color: int, ns: seq<int>)
    requires |ns| == 4
    ensures KoCount(c, color, ns, 4) ==
      (if KoHit(c, color, ns[0]) then 1 else 0) + (if KoHit(c, color, ns[1]) then 1 else 0) +
      (if KoHit(c, color, ns[2]) then 1 else 0) + (if KoHit(c, color, ns[3]) then 1 else 0)
    ensures KoLast(c, color, ns, 4) ==
      if KoHit(c, color, ns[3]) then ns[3] else if KoHit(c, color, ns[2]) then ns[2]
      else if KoHit(c, color, ns[1]) then ns[1] else if KoHit(c, color, ns[0]) then ns[0] else NPOS
  {
    assert KoCount(c, color, ns, 1) == if KoHit(c, color, ns[0]) then 1 else 0;
    assert KoCount(c, color, ns, 2) == KoCount(c, color, ns, 1) + if KoHit(c, color, ns[1]) then 1 else 0;
    assert KoCount(c, color, ns, 3) == KoCount(c, color, ns, 2) + if KoHit(c, color, ns[2]) then 1 else 0;
    assert KoLast(c, color, ns, 1) == if KoHit(c, color, ns[0]) then ns[0] else NPOS;
    assert KoLast(c, color, ns, 2) == if KoHit(c, color, ns[1]) then ns[1] else KoLast(c, color, ns, 1);
    assert KoLast(c, color, ns, 3) == if KoHit(c, color, ns[2]) then ns[2] else KoLast(c, color, ns, 2);
  }

  /** The prisoner table after adding `n` to the entry of `color`; other colours leave it alone. */
  function PrisonersAdded(prisoners: seq<int>, color: int, n: int): (r: seq<int>)
    requires |prisoners| == 2
    ensures |r| == 2
    ensures IsValidColor(color) ==> r[GetColorIndex(color)] == prisoners[GetColorIndex(color)] + n
    ensures forall i :: 0 <= i < 2 && i != GetColorIndex(color) ==> r[i] == prisoners[i]
  {
    if IsValidColor(color) then prisoners[GetColorIndex(color) := prisoners[GetColorIndex(color)] + n] else prisoners
  }

  /** Placing a stone: the whole-board effect of a successful putStone, or no change. */
  ghost function PutStone(s: BoardState, pos: int, color: int): BoardState
    requires WellFormed(s)
  {
    if !IsMoveLegal(s, pos, color) then s else Place(s, pos, color)
  }

  /**
   * The effect of a legal move: the stone goes down, the strings it
   * captures come off and are credited to the other side's prisoners, the
   * ko point is recomputed and the move passes to the other side.
   */
  ghost function Place(s: BoardState, pos: int, color: int): BoardState
    requires WellFormed(s) && OnBoard(s.w, s.h, pos) && IsValidColor(color)
  {
    var c1 := s.cells[pos := color];
    var taken := CapturedSet(s.w, s.h, c1, color, pos);
    var c2 := Clear(c1, taken);
    s.(cells := c2,
       prisoners := PrisonersAdded(s.prisoners, GetOppositeColor(color), |taken|),
       koPos := NewKoPosition(s.w, s.h, c2, pos, color, |taken|),
       turn := GetOppositeColor(s.turn))
  }

  /** A board assembled from the parts of a legal move's effect is that effect, and it is well formed. */
  lemma PlaceFromParts(s: BoardState, pos: int, color: int, taken: set<int>, t: BoardState)
    requires WellFormed(s) && OnBoard(s.w, s.h, pos) && IsValidColor(color)
    requires taken == CapturedSet(s.w, s.h, s.cells[pos := color], color, pos)
    requires t.w == s.w && t.h == s.h && t.cells == Clear(s.cells[pos := color], taken)
    requires t.prisoners == PrisonersAdded(s.prisoners, GetOppositeColor(color), |taken|)
    requires t.koPos == NewKoPosition(s.w, s.h, t.cells, pos, color, |taken|)
    requires t.turn == GetOppositeColor(s.turn)
    ensures t == Place(s, pos, color) && WellFormed(t)
  {
  }

  /** Passing clears the ko point and hands the move over. */
  function Pass(s: BoardState): (t: BoardState)
    ensures t.cells == s.cells && t.prisoners == s.prisoners && t.koPos == NPOS
    ensures IsValidColor(s.turn) ==> IsValidColor(t.turn) && t.turn != s.turn
  {
    s.(koPos := NPOS, turn := GetOppositeColor(s.turn))
  }

  // ----- strings are closed, and removing closed sets leaves other strings alone -----

  /** The string of `d` holds `c[d]` stones only and contains each of their `c[d]` neighbours. */
  lemma {:induction false} StringIsClosed(w: int, h: int, c: seq<int>, d: int)
    requires Grid(w, h, c) && OnBoard(w, h, d)
    ensures d in StringOf(w, h, c, d)
    ensures forall p :: p in StringOf(w, h, c, d) ==> 0 <= p < |c| && c[p] == c[d]
    ensures ColorClosed(w, h, c, c[d], StringOf(w, h, c, d))
  {
    var k := c[d];
    var x := StringOf(w, h, c, d);
    ConnectedHere(w, h, c, d);
    forall p, n | p in x && n in Neighbours(w, h, p) && 0 <= n < |c| && c[n] == k
      ensures n in x
    {
      var path :| ChainPath(w, h, c, k, path) && path[0] == d && Last(path) == p && c[p] == k;
      assert ChainPath(w, h, c, k, [p, n]);
      JoinPaths(w, h, c, k, path, [p, n]);
      assert Last([p, n]) == n;
    }
  }

  /**
   * A chain path that starts outside a set closed under `k` neighbours, all
   * of whose points hold `k`, never enters it.
   */
  lemma {:induction false} PathAvoidsClosedSet(w: int, h: int, c: seq<int>, k: int, x: set<int>, path: seq<int>)
    requires Grid(w, h, c) && ChainPath(w, h, c, k, path) && path[0] !in x
    requires forall p :: p in x ==> 0 <= p < |c| && c[p] == k
    requires ColorClosed(w, h, c, k, x)
    ensures forall i :: 0 <= i < |path| ==> path[i] !in x
  {
    var j := 1;
    while j < |path|
      invariant 1 <= j <= |path|
      invariant forall i :: 0 <= i < j ==> path[i] !in x
    {
      var p, n := path[j - 1], path[j];
      assert c[p] == k && Adjacent(w, h, p, n);
      if n in x {
        AdjacentSymmetric(w, h, p, n);
      }
      j := j + 1;
    }
  }

  /** Emptying a closed set of `k` stones keeps every path from outside it as it was. */
  lemma {:induction false} ClearKeepsPath(w: int, h: int, c: seq<int>, k: int, x: set<int>, path: seq<int>)
    requires Grid(w, h, c) && k != EMPTY && |path| > 0 && path[0] !in x
    requires forall p :: p in x ==> 0 <= p < |c| && c[p] == k
    requires ColorClosed(w, h, c, k, x)
    requires ChainPath(w, h, c, k, path) || ChainPath(w, h, Clear(c, x), k, path)
    ensures ChainPath(w, h, c, k, path) && ChainPath(w, h, Clear(c, x), k, path)
    ensures forall i :: 0 <= i < |path| ==> path[i] !in x && Clear(c, x)[path[i]] == c[path[i]]
  {
    var c2 := Clear(c, x);
    if !ChainPath(w, h, c, k, path) {
      TransferPath(w, h, c2, c, k, path);
    }
    PathAvoidsClosedSet(w, h, c, k, x, path);
    TransferPath(w, h, c, c2, k, path);
  }

  lemma {:induction false} ClearKeepsLiberty(w: int, h: int, c: seq<int>, k: int, x: set<int>, a: int)
    requires Grid(w, h, c) && k != EMPTY && OnBoard(w, h, a) && a !in x
    requires forall p :: p in x ==> 0 <= p < |c| && c[p] == k
    requires ColorClosed(w, h, c, k, x)
    ensures ReachesEmpty(w, h, Clear(c, x), k, a) <==> ReachesEmpty(w, h, c, k, a)
  {
    var c2 := Clear(c, x);
    if ReachesEmpty(w, h, c2, k, a) {
      var path :| ChainPath(w, h, c2, k, path) && path[0] == a && c2[Last(path)] == EMPTY;
      ClearKeepsPath(w, h, c, k, x, path);
    }
    if ReachesEmpty(w, h, c, k, a) {
      var path :| ChainPath(w, h, c, k, path) && path[0] == a && c[Last(path)] == EMPTY;
      ClearKeepsPath(w, h, c, k, x, path);
    }
  }

  lemma {:induction false} ClearKeepsConnected(w: int, h: int, c: seq<int>, k: int, x: set<int>, a: int, q: int)
    requires Grid(w, h, c) && k != EMPTY && OnBoard(w, h, a) && a !in x
    requires forall p :: p in x ==> 0 <= p < |c| && c[p] == k
    requires ColorClosed(w, h, c, k, x)
    ensures Connected(w, h, Clear(c, x), k, a, q) <==> Connected(w, h, c, k, a, q)
  {
    var c2 := Clear(c, x);
    if Connected(w, h, c2, k, a, q) {
      var path :| ChainPath(w, h, c2, k, path) && path[0] == a && Last(path) == q && c2[q] == k;
      ClearKeepsPath(w, h, c, k, x, path);
    }
    if Connected(w, h, c, k, a, q) {
      var path :| ChainPath(w, h, c, k, path) && path[0] == a && Last(path) == q && c[q] == k;
      ClearKeepsPath(w, h, c, k, x, path);
    }
  }

  /** Emptying a closed set of `k` stones leaves the string through an outside `k` stone unchanged. */
  lemma {:induction false} ClearKeepsString(w: int, h: int, c: seq<int>, x: set<int>, a: int)
    requires Grid(w, h, c) && OnBoard(w, h, a) && a !in x && c[a] != EMPTY
    requires forall p :: p in x ==> 0 <= p < |c| && c[p] == c[a]
    requires ColorClosed(w, h, c, c[a], x)
    ensures Clear(c, x)[a] == c[a]
    ensures StringOf(w, h, Clear(c, x), a) == StringOf(w, h, c, a)
    ensures ReachesEmpty(w, h, Clear(c, x), c[a], a) <==> ReachesEmpty(w, h, c, c[a], a)
  {
    forall q | 0 <= q < |c|
      ensures q in StringOf(w, h, Clear(c, x), a) <==> q in StringOf(w, h, c, a)
    {
      ClearKeepsConnected(w, h, c, c[a], x, a, q);
    }
    ClearKeepsLiberty(w, h, c, c[a], x, a);
  }

  /**
   * One step of the capture scan.  On a board where a closed set `u` of
   * opponent stones has already been emptied, the surrounded-string test at
   * a neighbour `d` and the string it removes are those of the board before
   * any removal, so the scan's running union grows by `CaptureOf(c1, d)`.
   */
  lemma {:induction false} CaptureStep(w: int, h: int, c1: seq<int>, color: int, u: set<int>, d: int)
    requires Grid(w, h, c1) && IsValidColor(color) && PosOrNone(w, h, d)
    requires forall p :: 0 <= p < |c1| ==> IsState(c1[p])
    requires forall p :: p in u ==> 0 <= p < |c1| && c1[p] == GetOppositeColor(color)
    requires ColorClosed(w, h, c1, GetOppositeColor(color), u)
    ensures Capturable(w, h, Clear(c1, u), color, d) ==> StringOf(w, h, Clear(c1, u), d) == StringOf(w, h, c1, d)
    ensures u + CaptureOf(w, h, c1, color, d) ==
      if Capturable(w, h, Clear(c1, u), color, d) then u + StringOf(w, h, Clear(c1, u), d) else u
    ensures forall p :: p in u + CaptureOf(w, h, c1, color, d) ==> 0 <= p < |c1| && c1[p] == GetOppositeColor(color)
    ensures ColorClosed(w, h, c1, GetOppositeColor(color), u + CaptureOf(w, h, c1, color, d))
  {
    var k := GetOppositeColor(color);
    var b := Clear(c1, u);
    if d == NPOS {
    } else if d in u {
      assert !Capturable(w, h, b, color, d);
      if Capturable(w, h, c1, color, d) {
        forall q | q in StringOf(w, h, c1, d)
          ensures q in u
        {
          ClosedSetContainsString(w, h, c1, k, d, u, q);
        }
      }
    } else if c1[d] == EMPTY || c1[d] == color {
      assert !Capturable(w, h, b, color, d) && !Capturable(w, h, c1, color, d);
    } else {
      assert c1[d] == k;
      ClearKeepsString(w, h, c1, u, d);
      StringIsClosed(w, h, c1, d);
    }
  }

  // ----- the suicide test -----

  /** A point with an EMPTY neighbour is never suicide: the new stone keeps that liberty. */
  lemma EmptyNeighbourNotSuicide(w: int, h: int, c: seq<int>, pos: int, color: int, n: int)
    requires Grid(w, h, c) && OnBoard(w, h, pos)
    requires n in Neighbours(w, h, pos) && n != NPOS && 0 <= n < |c| && c[n] == EMPTY
    ensures !IsSuicide(w, h, c, pos, color)
  {
    NeighboursOnBoard(w, h, pos);
    var c1 := c[pos := color];
    assert n != pos;
    ReachesEmptyHere(w, h, c1, color, n);
    ReachesEmptyStep(w, h, c1, color, pos, n);
  }

  /** Every stone a move captures belongs to the other side. */
  lemma CapturedStonesAreOpponents(w: int, h: int, c: seq<int>, color: int, pos: int)
    requires Grid(w, h, c) && OnBoard(w, h, pos) && IsValidColor(color)
    requires forall p :: 0 <= p < |c| ==> IsState(c[p])
    ensures forall p :: p in CapturedSet(w, h, c, color, pos) ==> 0 <= p < |c| && c[p] == GetOppositeColor(color)
  {
    var ns := Neighbours(w, h, pos);
    forall i | 0 <= i < 4 && Capturable(w, h, c, color, ns[i])
      ensures forall p :: p in StringOf(w, h, c, ns[i]) ==> 0 <= p < |c| && c[p] == GetOppositeColor(color)
    {
      StringIsClosed(w, h, c, ns[i]);
    }
  }
}
