/**
 * The board's standing invariant: every stone stands in a string that has
 * a liberty.  The empty board has it, a legal move keeps it (the strings
 * the move leaves without a liberty are exactly the ones it captures, and
 * a move that is not suicide leaves its own string a liberty), and a pass
 * does not touch the stones.
 */
module Liberties {
  import opened Stones
  import opened Geometry
  import opened Strings
  import opened Rules

  /** Every stone on `c` can reach an EMPTY point through its own string. */
  ghost predicate AllStringsLive(w: int, h: int, c: seq<int>)
    requires Grid(w, h, c)
  {
    forall q | 0 <= q < |c| && c[q] != EMPTY :: ReachesEmpty(w, h, c, c[q], q)
  }

  /** A board without stones has nothing to capture. */
  lemma EmptyBoardLive(w: int, h: int, c: seq<int>)
    requires Grid(w, h, c) && forall q | 0 <= q < |c| :: c[q] == EMPTY
    ensures AllStringsLive(w, h, c)
  {
  }

  /** What a move captures is a set of opponent stones closed under opponent neighbours. */
  lemma CapturedSetClosed(w: int, h: int, c1: seq<int>, color: int, pos: int)
    requires Grid(w, h, c1) && OnBoard(w, h, pos) && IsValidColor(color)
    requires forall p :: 0 <= p < |c1| ==> IsState(c1[p])
    ensures var x := CapturedSet(w, h, c1, color, pos);
      && (forall p :: p in x ==> 0 <= p < |c1| && c1[p] == GetOppositeColor(color))
      && ColorClosed(w, h, c1, GetOppositeColor(color), x)
  {
    CapturedPrefixClosed(w, h, c1, color, pos, 4);
    CapturedPrefixIsCapturedSet(w, h, c1, color, pos);
  }

  lemma {:induction false} CapturedPrefixClosed(w: int, h: int, c1: seq<int>, color: int, pos: int, k: nat)
    requires Grid(w, h, c1) && OnBoard(w, h, pos) && IsValidColor(color) && k <= 4
    requires forall p :: 0 <= p < |c1| ==> IsState(c1[p])
    ensures var x := CapturedPrefix(w, h, c1, color, pos, k);
      && (forall p :: p in x ==> 0 <= p < |c1| && c1[p] == GetOppositeColor(color))
      && ColorClosed(w, h, c1, GetOppositeColor(color), x)
  {
    if k > 0 {
      CapturedPrefixClosed(w, h, c1, color, pos, k - 1);
      NeighbourPositions(w, h, pos);
      CaptureStep(w, h, c1, color, CapturedPrefix(w, h, c1, color, pos, k - 1), Neighbours(w, h, pos)[k - 1]);
    }
  }

  /** A path of `color` keeps its shape, and its EMPTY end, when stones of other colours are taken off. */
  lemma OwnPathSurvives(w: int, h: int, c1: seq<int>, color: int, x: set<int>, path: seq<int>)
    requires Grid(w, h, c1) && ChainPath(w, h, c1, color, path) && color != EMPTY
    requires forall p :: p in x ==> 0 <= p < |c1| && c1[p] != color && c1[p] != EMPTY
    ensures ChainPath(w, h, Clear(c1, x), color, path)
    ensures c1[Last(path)] == color ==> Clear(c1, x)[Last(path)] == color
    ensures c1[Last(path)] == EMPTY ==> Clear(c1, x)[Last(path)] == EMPTY
  {
    TransferPath(w, h, c1, Clear(c1, x), color, path);
  }

  /** A path of stones over an EMPTY point `pos` is still a path once a stone stands at `pos`. */
  lemma PathBeforePlaced(w: int, h: int, c: seq<int>, pos: int, color: int, j: int, path: seq<int>)
    requires Grid(w, h, c) && 0 <= pos < |c| && c[pos] == EMPTY && j != EMPTY
    requires ChainPath(w, h, c, j, path)
    ensures ChainPath(w, h, c[pos := color], j, path)
  {
    TransferPath(w, h, c, c[pos := color], j, path);
  }

  /** A chain path without its last point, when it has two or more. */
  lemma PathFront(w: int, h: int, c: seq<int>, j: int, path: seq<int>)
    requires Grid(w, h, c) && ChainPath(w, h, c, j, path) && |path| >= 2
    ensures ChainPath(w, h, c, j, path[..|path| - 1])
    ensures Last(path[..|path| - 1]) == path[|path| - 2] && path[..|path| - 1][0] == path[0]
    ensures c[path[|path| - 2]] == j && Adjacent(w, h, path[|path| - 2], Last(path))
  {
  }

  /** The stone a legal move puts down has a liberty once the captures are taken off. */
  lemma PlacedStoneLive(s: BoardState, pos: int, color: int)
    requires WellFormed(s) && IsMoveLegal(s, pos, color)
    ensures var c1 := s.cells[pos := color];
      ReachesEmpty(s.w, s.h, Clear(c1, CapturedSet(s.w, s.h, c1, color, pos)), color, pos)
  {
    var w, h := s.w, s.h;
    var c1 := s.cells[pos := color];
    var x := CapturedSet(w, h, c1, color, pos);
    var c2 := Clear(c1, x);
    CapturedSetClosed(w, h, c1, color, pos);
    assert c2[pos] == color;
    if ReachesEmpty(w, h, c1, color, pos) {
      var path :| ChainPath(w, h, c1, color, path) && path[0] == pos && c1[Last(path)] == EMPTY;
      OwnPathSurvives(w, h, c1, color, x, path);
    } else {
      CaptureFreesNeighbour(w, h, c1, color, pos);
    }
  }

  /** A stone that captures something has the emptied neighbour as a liberty. */
  lemma CaptureFreesNeighbour(w: int, h: int, c1: seq<int>, color: int, pos: int)
    requires Grid(w, h, c1) && OnBoard(w, h, pos) && IsValidColor(color) && c1[pos] == color
    requires forall p :: 0 <= p < |c1| ==> IsState(c1[p])
    requires CapturesAny(w, h, c1, color, pos)
    ensures ReachesEmpty(w, h, Clear(c1, CapturedSet(w, h, c1, color, pos)), color, pos)
  {
    var c2 := Clear(c1, CapturedSet(w, h, c1, color, pos));
    var ns := Neighbours(w, h, pos);
    var i :| 0 <= i < 4 && Capturable(w, h, c1, color, ns[i]);
    var d := ns[i];
    NeighbourPositions(w, h, pos);
    StringIsClosed(w, h, c1, d);
    assert d in CaptureOf(w, h, c1, color, d);
    assert d in CapturedSet(w, h, c1, color, pos);
    CapturedSetClosed(w, h, c1, color, pos);
    ReachesEmptyHere(w, h, c2, color, d);
    ReachesEmptyStep(w, h, c2, color, pos, d);
  }

  /** An opponent stone the move does not take still has a liberty. */
  lemma OpponentStoneLive(s: BoardState, pos: int, color: int, q: int, path: seq<int>)
    requires WellFormed(s) && AllStringsLive(s.w, s.h, s.cells) && IsMoveLegal(s, pos, color)
    requires 0 <= q < |s.cells| && q != pos && s.cells[q] == GetOppositeColor(color)
    requires q !in CapturedSet(s.w, s.h, s.cells[pos := color], color, pos)
    requires ChainPath(s.w, s.h, s.cells, s.cells[q], path) && path[0] == q && s.cells[Last(path)] == EMPTY
    ensures var c1 := s.cells[pos := color];
      ReachesEmpty(s.w, s.h, Clear(c1, CapturedSet(s.w, s.h, c1, color, pos)), GetOppositeColor(color), q)
  {
    var w, h, k := s.w, s.h, GetOppositeColor(color);
    var c1 := s.cells[pos := color];
    var x := CapturedSet(w, h, c1, color, pos);
    CapturedSetClosed(w, h, c1, color, pos);
    PathBeforePlaced(w, h, s.cells, pos, color, k, path);
    if !ReachesEmpty(w, h, c1, k, q) {
      assert Last(path) == pos;
      PathFront(w, h, c1, k, path);
      var front := path[..|path| - 1];
      var r := Last(front);
      assert c1[r] == k;
      if ReachesEmpty(w, h, c1, k, r) {
        var tail :| ChainPath(w, h, c1, k, tail) && tail[0] == r && c1[Last(tail)] == EMPTY;
        JoinPaths(w, h, c1, k, front, tail);
        assert false;
      }
      assert Capturable(w, h, c1, color, r);
      AdjacentSymmetric(w, h, r, pos);
      StringIsClosed(w, h, c1, r);
      assert r in CaptureOf(w, h, c1, color, r);
      NeighbourPositions(w, h, pos);
      assert r in x;
      PathAvoidsClosedSet(w, h, c1, k, x, front);
      assert false;
    }
    ClearKeepsLiberty(w, h, c1, k, x, q);
  }

  /** A stone of the mover's own colour, other than the new one, still has a liberty. */
  lemma OwnStoneLive(s: BoardState, pos: int, color: int, q: int, path: seq<int>)
    requires WellFormed(s) && IsMoveLegal(s, pos, color)
    requires 0 <= q < |s.cells| && q != pos && s.cells[q] == color
    requires ChainPath(s.w, s.h, s.cells, color, path) && path[0] == q && s.cells[Last(path)] == EMPTY
    ensures var c1 := s.cells[pos := color];
      ReachesEmpty(s.w, s.h, Clear(c1, CapturedSet(s.w, s.h, c1, color, pos)), color, q)
  {
    var w, h := s.w, s.h;
    var c1 := s.cells[pos := color];
    var x := CapturedSet(w, h, c1, color, pos);
    var c2 := Clear(c1, x);
    CapturedSetClosed(w, h, c1, color, pos);
    PathBeforePlaced(w, h, s.cells, pos, color, color, path);
    OwnPathSurvives(w, h, c1, color, x, path);
    if Last(path) == pos {
      PlacedStoneLive(s, pos, color);
      var tail :| ChainPath(w, h, c2, color, tail) && tail[0] == pos && c2[Last(tail)] == EMPTY;
      JoinPaths(w, h, c2, color, path, tail);
    }
  }

  /** One stone of the board after a legal move has a liberty. */
  lemma StoneLiveAfterMove(s: BoardState, pos: int, color: int, q: int)
    requires WellFormed(s) && AllStringsLive(s.w, s.h, s.cells) && IsMoveLegal(s, pos, color)
    requires 0 <= q < |s.cells| && Place(s, pos, color).cells[q] != EMPTY
    ensures ReachesEmpty(s.w, s.h, Place(s, pos, color).cells, Place(s, pos, color).cells[q], q)
  {
    var w, h := s.w, s.h;
    var c1 := s.cells[pos := color];
    var x := CapturedSet(w, h, c1, color, pos);
    var c2 := Clear(c1, x);
    assert Place(s, pos, color).cells == c2;
    if q == pos {
      PlacedStoneLive(s, pos, color);
    } else {
      var j := s.cells[q];
      assert c2[q] == j && q !in x;
      var path :| ChainPath(w, h, s.cells, j, path) && path[0] == q && s.cells[Last(path)] == EMPTY;
      if j == color {
        OwnStoneLive(s, pos, color, q, path);
      } else {
        OpponentStoneLive(s, pos, color, q, path);
      }
    }
  }

  /** After a legal move every stone still stands in a string with a liberty. */
  lemma LegalMoveKeepsLiberties(s: BoardState, pos: int, color: int)
    requires WellFormed(s) && AllStringsLive(s.w, s.h, s.cells) && IsMoveLegal(s, pos, color)
    ensures Grid(s.w, s.h, Place(s, pos, color).cells)
    ensures AllStringsLive(s.w, s.h, Place(s, pos, color).cells)
  {
    var t := Place(s, pos, color);
    forall q | 0 <= q < |t.cells| && t.cells[q] != EMPTY
      ensures ReachesEmpty(s.w, s.h, t.cells, t.cells[q], q)
    {
      StoneLiveAfterMove(s, pos, color, q);
    }
  }

  /** `putStone` and `pass` keep the invariant: an illegal move changes nothing and a pass moves no stone. */
  lemma PlayKeepsLiberties(s: BoardState, pos: int, color: int)
    requires WellFormed(s) && AllStringsLive(s.w, s.h, s.cells)
    ensures Grid(s.w, s.h, PutStone(s, pos, color).cells) && AllStringsLive(s.w, s.h, PutStone(s, pos, color).cells)
    ensures Pass(s).cells == s.cells
  {
    if IsMoveLegal(s, pos, color) {
      LegalMoveKeepsLiberties(s, pos, color);
    }
  }
}
