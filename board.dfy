/**
 * The board object: a packed two-bit store of intersections, the prisoner
 * table, the ko point and the side to move, updated in place by its
 * methods.  Every method is proved against the value-level rules of the
 * Rules module through the view `State()`.
 */
module Boards {
  import opened Stones
  import opened Geometry
  import opened Strings
  import opened Rules
  import Array2Bits

  /** Which positions a flood fill has marked. */
  ghost function Unvisited(v: seq<bool>): set<int> {
    set q | 0 <= q < |v| && !v[q]
  }

  ghost predicate Grows(before: seq<bool>, after: seq<bool>) {
    |before| == |after| && forall q :: 0 <= q < |before| && before[q] ==> after[q]
  }

  /**
   * What a liberty search that found nothing leaves behind: the marks only
   * grew, every position it newly marked holds a stone, and every newly
   * marked stone of `color` has all its on-board neighbours marked.
   */
  ghost predicate Searched(w: int, h: int, c: seq<int>, color: int, before: seq<bool>, after: seq<bool>)
    requires Grid(w, h, c)
  {
    && |before| == |c| && |after| == |c| && Grows(before, after)
    && forall q :: 0 <= q < |c| && after[q] && !before[q] ==>
      c[q] != EMPTY && (c[q] == color ==> forall n :: n in Neighbours(w, h, q) && 0 <= n < |c| ==> after[n])
  }

  lemma SearchedTrans(w: int, h: int, c: seq<int>, color: int, v0: seq<bool>, v1: seq<bool>, v2: seq<bool>)
    requires Grid(w, h, c) && Searched(w, h, c, color, v0, v1) && Searched(w, h, c, color, v1, v2)
    ensures Searched(w, h, c, color, v0, v2)
  {
  }

  /** Marking a point that holds a stone of another colour is a search without success. */
  lemma SearchedOther(w: int, h: int, c: seq<int>, color: int, pos: int, v0: seq<bool>)
    requires Grid(w, h, c) && |v0| == |c| && OnBoard(w, h, pos) && c[pos] != EMPTY && c[pos] != color
    ensures Searched(w, h, c, color, v0, v0[pos := true])
  {
  }

  /** Marking the start point, then searching all its neighbours without success, is a search without success. */
  lemma SearchedFromStart(w: int, h: int, c: seq<int>, color: int, pos: int, v0: seq<bool>, v4: seq<bool>)
    requires Grid(w, h, c) && |v0| == |c| && OnBoard(w, h, pos) && !v0[pos] && c[pos] == color && color != EMPTY
    requires Searched(w, h, c, color, v0[pos := true], v4)
    requires forall n :: n in Neighbours(w, h, pos) && 0 <= n < |c| ==> v4[n]
    ensures Searched(w, h, c, color, v0, v4)
  {
  }

  /**
   * What removing the string of `color` at `pos` from `c0` leaves: `c` is
   * `c0` with exactly the listed points emptied, each listed point held
   * `color` and is connected to `pos`, no point is listed twice, and no
   * listed point (nor `pos`) is left next to a `color` stone.
   */
  ghost predicate RemovedString(w: int, h: int, c0: seq<int>, c: seq<int>, color: int, pos: int, removed: seq<int>) {
    && Grid(w, h, c0) && Grid(w, h, c)
    && Distinct(removed)
    && (removed != [] ==> 0 <= pos < |c0|)
    && (forall q :: q in removed ==> 0 <= q < |c0| && c0[q] == color && Connected(w, h, c0, color, pos, q))
    && c == Clear(c0, Elems(removed))
    && (forall q, n :: q in removed && 0 <= q < |c| && n in Neighbours(w, h, q) && 0 <= n < |c| ==> c[n] != color)
    && (0 <= pos < |c0| && c0[pos] == color ==> pos in removed)
    && (0 <= pos < |c| ==> c[pos] != color)
  }

  /**
   * The state of a removal after the stone at `pos` and the strings met in
   * the directions `done` have been taken off: `b` is `c0` without the
   * points of `p`, and every point of `p` other than `pos` is already clear
   * of `color` neighbours.
   */
  ghost predicate RemovalSoFar(w: int, h: int, c0: seq<int>, color: int, pos: int, p: seq<int>, b: seq<int>, done: nat) {
    && Grid(w, h, c0) && Grid(w, h, b)
    && OnBoard(w, h, pos) && c0[pos] == color && color != EMPTY
    && Distinct(p) && pos in p
    && (forall q :: q in p ==> 0 <= q < |c0| && c0[q] == color && Connected(w, h, c0, color, pos, q))
    && b == Clear(c0, Elems(p))
    && (forall q, n :: q in p && q != pos && 0 <= q < |b| && n in Neighbours(w, h, q) && 0 <= n < |b| ==> b[n] != color)
    && done <= 4
    && (forall i :: 0 <= i < done && 0 <= Neighbours(w, h, pos)[i] < |b| ==> b[Neighbours(w, h, pos)[i]] != color)
  }

  lemma RemovalStart(w: int, h: int, c0: seq<int>, color: int, pos: int)
    requires Grid(w, h, c0) && OnBoard(w, h, pos) && c0[pos] == color && color != EMPTY
    ensures RemovalSoFar(w, h, c0, color, pos, [pos], c0[pos := EMPTY], 0)
  {
    ConnectedHere(w, h, c0, pos);
    assert Elems([pos]) == {pos};
  }

  /** Removing more only shrinks the set of `color` points, and strictly once `pos` is gone. */
  lemma RemovalShrinks(w: int, h: int, c0: seq<int>, color: int, pos: int, p: seq<int>, b: seq<int>, done: nat)
    requires RemovalSoFar(w, h, c0, color, pos, p, b, done)
    ensures ColorSet(b, color) < ColorSet(c0, color)
  {
    assert pos in ColorSet(c0, color) && pos !in ColorSet(b, color);
  }

  lemma {:induction false} RemovalStep(w: int, h: int, c0: seq<int>, color: int, pos: int, p: seq<int>, b: seq<int>, done: nat,
                                       r: seq<int>, b2: seq<int>)
    requires RemovalSoFar(w, h, c0, color, pos, p, b, done)
    requires done < 4 && RemovedString(w, h, b, b2, color, Neighbours(w, h, pos)[done], r)
    ensures RemovalSoFar(w, h, c0, color, pos, p + r, b2, done + 1)
  {
    var d := Neighbours(w, h, pos)[done];
    forall q | q in r
      ensures q !in Elems(p) && c0[q] == color && Connected(w, h, c0, color, pos, q)
    {
      assert b[q] == color;
      assert ColorShrinks(c0, b, color);
      ConnectedOnLarger(w, h, c0, b, color, d, q);
      ConnectedStep(w, h, c0, color, pos, d, q);
    }
    DistinctConcat(p, r);
    ClearTwice(c0, Elems(p), Elems(r));
    assert ColorShrinks(b, b2, color);
  }

  lemma {:induction false} RemovalEnd(w: int, h: int, c0: seq<int>, color: int, pos: int, p: seq<int>, b: seq<int>)
    requires Dims(w, h) && OnBoard(w, h, pos)
    requires RemovalSoFar(w, h, c0, color, pos, p, b, 4)
    ensures RemovedString(w, h, c0, b, color, pos, p)
  {
  }

  /** What a removal took off is exactly the string it started from. */
  lemma {:induction false} RemovedIsString(w: int, h: int, c0: seq<int>, c: seq<int>, color: int, pos: int, removed: seq<int>)
    requires RemovedString(w, h, c0, c, color, pos, removed) && OnBoard(w, h, pos) && c0[pos] == color
    ensures Elems(removed) == StringOf(w, h, c0, pos)
  {
    var v := Elems(removed);
    forall p, n | p in v && n in Neighbours(w, h, p) && 0 <= n < |c0| && c0[n] == color
      ensures n in v
    {
      assert c[n] != color;
    }
    forall q | q in StringOf(w, h, c0, pos)
      ensures q in v
    {
      ClosedSetContainsString(w, h, c0, color, pos, v, q);
    }
  }

  /**
   * Where the four captures of a move stand after the first `k`: the list
   * taken so far is duplicate free, is the union of the first `k` neighbour
   * captures on the board `c1` with the new stone, consists of closed
   * strings of the other colour, and is what `b` has cleared.
   */
  ghost predicate CapturesSoFar(w: int, h: int, c1: seq<int>, color: int, pos: int, removed: seq<int>, b: seq<int>, k: nat) {
    && Grid(w, h, c1) && OnBoard(w, h, pos) && IsValidColor(color) && k <= 4
    && (forall p :: 0 <= p < |c1| ==> IsState(c1[p]))
    && Distinct(removed)
    && Elems(removed) == CapturedPrefix(w, h, c1, color, pos, k)
    && (forall p :: p in Elems(removed) ==> 0 <= p < |c1| && c1[p] == GetOppositeColor(color))
    && ColorClosed(w, h, c1, GetOppositeColor(color), Elems(removed))
    && b == Clear(c1, Elems(removed))
  }

  lemma CaptureStart(w: int, h: int, c1: seq<int>, color: int, pos: int)
    requires Grid(w, h, c1) && OnBoard(w, h, pos) && IsValidColor(color)
    requires forall p :: 0 <= p < |c1| ==> IsState(c1[p])
    ensures CapturesSoFar(w, h, c1, color, pos, [], c1, 0)
  {
    assert Elems([]) == {};
    ClearNothing(c1);
  }

  /**
   * One `removeStringIfSurrounded` on neighbour `k` moves the account on:
   * what it takes from the partly cleared board is exactly that
   * neighbour's capture on `c1`, and it is disjoint from what went before.
   */
  lemma {:induction false} CaptureAccount(w: int, h: int, c1: seq<int>, color: int, pos: int, removed: seq<int>, b: seq<int>, k: nat,
                                          d: int, r: seq<int>, b2: seq<int>)
    requires CapturesSoFar(w, h, c1, color, pos, removed, b, k) && k < 4 && Distinct(r)
    requires d == Neighbours(w, h, pos)[k] && PosOrNone(w, h, d)
    requires Capturable(w, h, b, color, d) ==> Elems(r) == StringOf(w, h, b, d) && b2 == Clear(b, Elems(r))
    requires !Capturable(w, h, b, color, d) ==> r == [] && b2 == b
    ensures CapturesSoFar(w, h, c1, color, pos, removed + r, b2, k + 1)
  {
    var u := Elems(removed);
    CaptureStep(w, h, c1, color, u, d);
    if Capturable(w, h, b, color, d) {
      StringIsClosed(w, h, b, d);
      assert Elems(removed) !! Elems(r);
      DistinctConcat(removed, r);
      ClearTwice(c1, u, Elems(r));
    } else {
      assert removed + r == removed;
    }
  }

  class Board {
    const w: int
    const h: int
    var intersections: array<bv32>
    var prisoners: seq<int>
    var koPos: int
    var turn: int
    /** The intersections as a list of states, in position order: what the packed store holds. */
    ghost var cells: seq<int>

    ghost predicate Shaped()
      reads this, intersections
    {
      && Dims(w, h) && intersections.Length == Array2Bits.WordCount(w * h) && |cells| == w * h
      && Array2Bits.Holds(intersections[..], cells)
    }

    ghost function State(): BoardState
      reads this
    {
      BoardState(w, h, cells, prisoners, koPos, turn)
    }

    ghost predicate Valid()
      reads this, intersections
    {
      Shaped() && WellFormed(State())
    }

    /** Only the stones changed: the store object, the prisoners, the ko point and the turn are as they were. */
    twostate predicate OnlyStones()
      reads this
    {
      intersections == old(intersections) && prisoners == old(prisoners) && koPos == old(koPos) && turn == old(turn)
    }

    /** An empty board, BLACK to move. */
    constructor(w: int, h: int)
      requires Dims(w, h)
      ensures Valid() && fresh(intersections)
      ensures State() == BoardState(w, h, seq(w * h, _ => EMPTY), [0, 0], NPOS, BLACK)
    {
      this.w := w;
      this.h := h;
      var bits := Array2Bits.Create(w * h);
      intersections := bits;
      cells := seq(w * h, _ => EMPTY);
      prisoners := [0, 0];
      koPos := NPOS;
      turn := BLACK;
    }

    /** A board over a given store (the copy `Clone` makes). */
    constructor FromParts(w: int, h: int, intersections: array<bv32>, ghost cells: seq<int>, prisoners: seq<int>, koPos: int, turn: int)
      requires Dims(w, h) && intersections.Length == Array2Bits.WordCount(w * h) && |cells| == w * h
      requires Array2Bits.Holds(intersections[..], cells)
      ensures this.w == w && this.h == h && this.intersections == intersections && this.cells == cells
      ensures this.prisoners == prisoners && this.koPos == koPos && this.turn == turn
      ensures Shaped()
    {
      this.w := w;
      this.h := h;
      this.intersections := intersections;
      this.cells := cells;
      this.prisoners := prisoners;
      this.koPos := koPos;
      this.turn := turn;
    }

    /** An independent copy: equal state, fresh store. */
    method Clone() returns (b: Board)
      requires Valid()
      ensures fresh(b) && fresh(b.intersections)
      ensures b.Valid() && b.State() == State()
    {
      var bits := Array2Bits.Clone(intersections);
      b := new Board.FromParts(w, h, bits, cells, prisoners, koPos, turn);
    }

    // ----- intersections -----

    function GetIntersectionCount(): (n: int)
      reads this
      requires Dims(w, h)
      ensures n == w * h && n >= 1
    {
      w * h
    }

    function GetAt(pos: int): (s: int)
      reads this, intersections
      requires Shaped() && OnBoard(w, h, pos)
      ensures s == cells[pos]
    {
      Array2Bits.WordCountFits(w * h, pos);
      Array2Bits.WordCountCovers(w * h);
      Array2Bits.Get(intersections[..], pos)
    }

    method SetAt(pos: int, state: int)
      requires Shaped() && OnBoard(w, h, pos) && IsState(state)
      modifies this, intersections
      ensures Shaped() && OnlyStones()
      ensures intersections[..] == Array2Bits.Put(old(intersections[..]), pos, state)
      ensures cells == old(cells)[pos := state]
    {
      Array2Bits.WordCountFits(w * h, pos);
      Array2Bits.Set(intersections, pos, state);
      Array2Bits.HoldsPut(old(intersections[..]), cells, pos, state);
      assert state % 4 == state;
      cells := cells[pos := state];
    }

    predicate IsEmpty(pos: int)
      reads this, intersections
      requires Shaped() && PosOrNone(w, h, pos)
    {
      pos != NPOS && GetAt(pos) == EMPTY
    }

    method RemoveStone(pos: int)
      requires Shaped() && OnBoard(w, h, pos)
      modifies this, intersections
      ensures Shaped() && OnlyStones() && cells == old(cells)[pos := EMPTY]
    {
      SetAt(pos, EMPTY);
    }

    // ----- turn and prisoners -----

    method SetTurn(color: int)
      modifies this
      ensures turn == color
      ensures intersections == old(intersections) && cells == old(cells) && prisoners == old(prisoners) && koPos == old(koPos)
    {
      turn := color;
    }

    method RotateTurn()
      modifies this
      ensures turn == GetOppositeColor(old(turn))
      ensures intersections == old(intersections) && cells == old(cells) && prisoners == old(prisoners) && koPos == old(koPos)
    {
      turn := GetOppositeColor(turn);
    }

    /** Adds to the count of captured `prisonerColor` stones; other colours are ignored. */
    method AddPrisoners(prisonerColor: int, numPrisoners: int)
      requires |prisoners| == 2
      modifies this
      ensures prisoners == PrisonersAdded(old(prisoners), prisonerColor, numPrisoners)
      ensures intersections == old(intersections) && cells == old(cells) && koPos == old(koPos) && turn == old(turn)
    {
      var colorIndex := GetColorIndex(prisonerColor);
      if colorIndex >= 0 {
        prisoners := prisoners[colorIndex := prisoners[colorIndex] + numPrisoners];
      }
    }

    method RemovePrisoners(prisonerColor: int, numPrisoners: int)
      requires |prisoners| == 2
      modifies this
      ensures prisoners == PrisonersAdded(old(prisoners), prisonerColor, -numPrisoners)
      ensures intersections == old(intersections) && cells == old(cells) && koPos == old(koPos) && turn == old(turn)
    {
      var colorIndex := GetColorIndex(prisonerColor);
      if colorIndex >= 0 {
        prisoners := prisoners[colorIndex := prisoners[colorIndex] - numPrisoners];
      }
    }

    function GetPrisoners(prisonerColor: int): (n: int)
      reads this
      requires |prisoners| == 2
      ensures n == if IsValidColor(prisonerColor) then prisoners[GetColorIndex(prisonerColor)] else 0
    {
      var colorIndex := GetColorIndex(prisonerColor);
      if colorIndex >= 0 then prisoners[colorIndex] else 0
    }

    method SetKoPos(pos: int)
      modifies this
      ensures koPos == pos
      ensures intersections == old(intersections) && cells == old(cells) && prisoners == old(prisoners) && turn == old(turn)
    {
      koPos := pos;
    }

    /**
     * Takes the string of `color` through `pos` off the board, depth first
     * in the order left, above, right, below, and lists the points taken in
     * that order.
     */
    method RemoveString(pos: int, color: int) returns (count: int, removed: seq<int>)
      requires Shaped() && PosOrNone(w, h, pos) && color != EMPTY
      modifies this, intersections
      decreases ColorSet(cells, color), 1, 0
      ensures Shaped() && OnlyStones() && count == |removed|
      ensures RemovedString(w, h, old(cells), cells, color, pos, removed)
    {
      ghost var c0 := cells;
      if pos == NPOS || GetAt(pos) != color {
        ClearNothing(c0);
        count, removed := 0, [];
      } else {
        RemoveStone(pos);
        RemovalStart(w, h, c0, color, pos);
        var n, r := RemoveNeighbourStrings(pos, color, c0, [pos], 0);
        removed := [pos] + r;
        RemovalEnd(w, h, c0, color, pos, removed, cells);
        count := 1 + n;
      }
    }

    /**
     * The recursive calls of `RemoveString` from direction `k` on (left,
     * above, right, below), after the stones in `p` are gone; the counts
     * add up as `removeString` adds them.
     */
    method RemoveNeighbourStrings(pos: int, color: int, ghost c0: seq<int>, ghost p: seq<int>, k: nat)
      returns (n: int, r: seq<int>)
      requires Shaped() && k <= 4 && RemovalSoFar(w, h, c0, color, pos, p, cells, k)
      modifies this, intersections
      decreases ColorSet(c0, color), 0, 4 - k
      ensures Shaped() && OnlyStones() && n == |r|
      ensures RemovalSoFar(w, h, c0, color, pos, p + r, cells, 4)
    {
      if k == 4 {
        n, r := 0, [];
        assert p + r == p;
      } else {
        ghost var b := cells;
        RemovalShrinks(w, h, c0, color, pos, p, b, k);
        NeighbourPositions(w, h, pos);
        var n1, r1 := RemoveString(Neighbours(w, h, pos)[k], color);
        RemovalStep(w, h, c0, color, pos, p, b, k, r1, cells);
        var n2, r2 := RemoveNeighbourStrings(pos, color, c0, p + r1, k + 1);
        n, r := n1 + n2, r1 + r2;
        assert p + r1 + r2 == p + r;
      }
    }

    /** Takes off the string at `pos` when it holds the other colour than `turn` and has no liberty. */
    method RemoveStringIfSurrounded(pos: int, turn: int) returns (count: int, removed: seq<int>)
      requires Valid() && PosOrNone(w, h, pos)
      modifies this, intersections
      ensures Valid() && OnlyStones() && count == |removed| && Distinct(removed)
      ensures Capturable(w, h, old(cells), turn, pos) ==>
        Elems(removed) == StringOf(w, h, old(cells), pos) && cells == Clear(old(cells), Elems(removed))
      ensures !Capturable(w, h, old(cells), turn, pos) ==> removed == [] && cells == old(cells)
    {
      if pos == NPOS {
        return 0, [];
      }
      var color := GetAt(pos);
      if color == EMPTY {
        return 0, [];
      }
      if color == turn {
        return 0, [];
      }
      var surrounded := IsStringSurrounded(pos);
      if !surrounded {
        return 0, [];
      }
      ghost var c0 := cells;
      count, removed := RemoveString(pos, color);
      RemovedIsString(w, h, c0, cells, color, pos, removed);
    }

    // ----- liberties -----

    /** The frame of a liberty search: `visited` covers the board and `c` is the board's view. */
    ghost predicate SearchFrame(visited: array<bool>, c: seq<int>)
      reads this, intersections
    {
      Shaped() && c == cells && visited.Length == w * h && visited as object != intersections as object
    }

    /**
     * Flood fill from `pos` over `color` stones, marking each position it
     * enters; true when it reaches an EMPTY point.
     */
    method FindLibertyRecursive(pos: int, color: int, visited: array<bool>, ghost c: seq<int>) returns (found: bool)
      requires SearchFrame(visited, c) && PosOrNone(w, h, pos)
      modifies visited
      decreases Unvisited(visited[..])
      ensures found ==> pos != NPOS && ReachesEmpty(w, h, c, color, pos)
      ensures !found ==> (pos != NPOS ==> visited[pos]) && Searched(w, h, c, color, old(visited[..]), visited[..])
    {
      ghost var v0 := visited[..];
      if pos == NPOS {
        found := false;
      } else if visited[pos] {
        found := false;
      } else {
        visited[pos] := true;
        assert Unvisited(visited[..]) < Unvisited(v0) by {
          assert pos in Unvisited(v0) && pos !in Unvisited(visited[..]);
        }
        var intersection := GetAt(pos);
        if intersection == EMPTY {
          ReachesEmptyHere(w, h, c, color, pos);
          found := true;
        } else if intersection != color {
          SearchedOther(w, h, c, color, pos, v0);
          found := false;
        } else {
          NeighboursOnBoard(w, h, pos);
          ghost var ns := Neighbours(w, h, pos);
          ghost var va := visited[..];
          found := FindLibertyRecursive(LeftOf(w, h, pos), color, visited, c);
          if found {
            ReachesEmptyStep(w, h, c, color, pos, ns[0]);
          } else {
            ghost var v1 := visited[..];
            found := FindLibertyRecursive(Above(w, h, pos), color, visited, c);
            if found {
              ReachesEmptyStep(w, h, c, color, pos, ns[1]);
            } else {
              SearchedTrans(w, h, c, color, va, v1, visited[..]);
              ghost var v2 := visited[..];
              found := FindLibertyRecursive(RightOf(w, h, pos), color, visited, c);
              if found {
                ReachesEmptyStep(w, h, c, color, pos, ns[2]);
              } else {
                SearchedTrans(w, h, c, color, va, v2, visited[..]);
                ghost var v3 := visited[..];
                found := FindLibertyRecursive(Below(w, h, pos), color, visited, c);
                if found {
                  ReachesEmptyStep(w, h, c, color, pos, ns[3]);
                } else {
                  SearchedTrans(w, h, c, color, va, v3, visited[..]);
                  SearchedFromStart(w, h, c, color, pos, v0, visited[..]);
                }
              }
            }
          }
        }
      }
    }

    /** Whether the string through `pos` has a liberty; false for NPOS, true for an EMPTY point. */
    method FindLiberty(pos: int) returns (r: bool)
      requires Valid() && PosOrNone(w, h, pos)
      ensures r == HasLiberty(w, h, cells, pos)
    {
      if pos == NPOS {
        return false;
      }
      var posColor := GetAt(pos);
      if posColor == EMPTY {
        ReachesEmptyHere(w, h, cells, posColor, pos);
        return true;
      }
      var visited := new bool[w * h](_ => false);
      r := FindLibertyRecursive(pos, posColor, visited, cells);
      if !r {
        ghost var v := set q | 0 <= q < w * h && visited[q];
        ClosedSetHasNoLiberty(w, h, cells, posColor, pos, v);
      }
    }

    method IsStringSurrounded(pos: int) returns (r: bool)
      requires Valid() && PosOrNone(w, h, pos)
      ensures r == !HasLiberty(w, h, cells, pos)
    {
      var found := FindLiberty(pos);
      r := !found;
    }

    /** A stone of the other colour than `color` at `pos` whose string has no liberty. */
    method IsStringSurroundedAndDiffColor(pos: int, color: int) returns (r: bool)
      requires Valid() && PosOrNone(w, h, pos)
      ensures r == Capturable(w, h, cells, color, pos)
    {
      if pos == NPOS {
        return false;
      }
      var posColor := GetAt(pos);
      if posColor == EMPTY {
        return false;
      }
      if posColor == color {
        return false;
      }
      r := IsStringSurrounded(pos);
    }

    // ----- moves -----

    /**
     * Whether a `color` stone at the empty point `pos` would be suicide.
     * With an EMPTY neighbour it answers at once; otherwise it places the
     * stone, asks about liberties and captures, and takes the stone back.
     */
    method IsMoveSuicide(pos: int, color: int) returns (suicide: bool)
      requires Valid() && OnBoard(w, h, pos) && cells[pos] == EMPTY && IsValidColor(color)
      modifies this, intersections
      ensures Valid() && OnlyStones() && cells == old(cells) && intersections[..] == old(intersections[..])
      ensures suicide == IsSuicide(w, h, old(cells), pos, color)
    {
      NeighbourPositions(w, h, pos);
      if IsEmpty(LeftOf(w, h, pos)) {
        EmptyNeighbourNotSuicide(w, h, cells, pos, color, LeftOf(w, h, pos));
        return false;
      }
      if IsEmpty(RightOf(w, h, pos)) {
        EmptyNeighbourNotSuicide(w, h, cells, pos, color, RightOf(w, h, pos));
        return false;
      }
      if IsEmpty(Above(w, h, pos)) {
        EmptyNeighbourNotSuicide(w, h, cells, pos, color, Above(w, h, pos));
        return false;
      }
      if IsEmpty(Below(w, h, pos)) {
        EmptyNeighbourNotSuicide(w, h, cells, pos, color, Below(w, h, pos));
        return false;
      }
      ghost var words0 := intersections[..];
      var prevColor := GetAt(pos);
      SetAt(pos, color);
      suicide := IsPlacedStoneSuicide(pos, color);
      SetAt(pos, prevColor);
      Array2Bits.PutGetIsIdentity(words0, pos, color);
    }

    /** The test `isMoveSuicide` makes while the stone stands at `pos`: no liberty, and no capture either. */
    method IsPlacedStoneSuicide(pos: int, color: int) returns (suicide: bool)
      requires Valid() && OnBoard(w, h, pos) && cells[pos] == color && IsValidColor(color)
      ensures suicide == (!ReachesEmpty(w, h, cells, color, pos) && !CapturesAny(w, h, cells, color, pos))
    {
      var surrounded := IsStringSurrounded(pos);
      if !surrounded {
        return false;
      }
      NeighbourPositions(w, h, pos);
      CapturesAnyCases(w, h, cells, color, pos);
      var takes := IsStringSurroundedAndDiffColor(LeftOf(w, h, pos), color);
      if !takes {
        takes := IsStringSurroundedAndDiffColor(Above(w, h, pos), color);
      }
      if !takes {
        takes := IsStringSurroundedAndDiffColor(RightOf(w, h, pos), color);
      }
      if !takes {
        takes := IsStringSurroundedAndDiffColor(Below(w, h, pos), color);
      }
      suicide := !takes;
    }

    predicate IsMoveKo(pos: int)
      reads this
    {
      pos == koPos
    }

    /** Whether `color` may play at `pos` now; the board is left as it was. */
    method IsMoveLegal(pos: int, color: int) returns (r: bool)
      requires Valid()
      modifies this, intersections
      ensures Valid() && OnlyStones() && cells == old(cells) && intersections[..] == old(intersections[..])
      ensures r == Rules.IsMoveLegal(old(State()), pos, color)
    {
      if !IsValidColor(color) {
        return false;
      }
      if !(pos != NPOS && IsValidPosition(pos, w, h)) {
        return false;
      }
      if turn != color {
        return false;
      }
      if !IsEmpty(pos) {
        return false;
      }
      var suicide := IsMoveSuicide(pos, color);
      if suicide {
        return false;
      }
      if IsMoveKo(pos) {
        return false;
      }
      return true;
    }

    /**
     * The new ko point once a `color` stone stands at `pos` and took
     * `removedStonesCount` stones, counting the neighbours left, right,
     * above, below that are EMPTY or of `color`.
     */
    method GetNewKoPosition(pos: int, color: int, removedStonesCount: int) returns (r: int)
      requires Shaped() && PosOrNone(w, h, pos)
      ensures r == NewKoPosition(w, h, cells, pos, color, removedStonesCount)
    {
      if pos == NPOS || color == EMPTY {
        return NPOS;
      }
      if removedStonesCount != 1 {
        return NPOS;
      }
      if GetAt(pos) != color {
        return NPOS;
      }
      NeighbourPositions(w, h, pos);
      var numEmptyOrSameColor := 0;
      var posEmptyOrSameColor := NPOS;
      var ns := KoOrder(w, h, pos);
      for i := 0 to 4
        invariant numEmptyOrSameColor == KoCount(cells, color, ns, i)
        invariant posEmptyOrSameColor == KoLast(cells, color, ns, i)
      {
        var neighborPos := ns[i];
        if neighborPos != NPOS {
          var neighborColor := GetAt(neighborPos);
          if neighborColor == EMPTY || neighborColor == color {
            numEmptyOrSameColor := numEmptyOrSameColor + 1;
            posEmptyOrSameColor := neighborPos;
          }
        }
      }
      if numEmptyOrSameColor == 1 {
        r := posEmptyOrSameColor;
      } else {
        r := NPOS;
      }
    }

    /**
     * Plays `color` at `pos` when the move is legal: places the stone,
     * takes the captured strings of the four neighbours in the order left,
     * above, right, below, credits the prisoners, sets the new ko point and
     * hands the move over.  Returns what the history records of the move.
     */
    method PutStone(pos: int, color: int) returns (ok: bool, removed: seq<int>, koPosOld: int, turnOld: int)
      requires Valid()
      modifies this, intersections
      ensures Valid() && intersections == old(intersections)
      ensures ok == Rules.IsMoveLegal(old(State()), pos, color)
      ensures State() == Rules.PutStone(old(State()), pos, color)
      ensures ok ==> Distinct(removed) && Elems(removed) == CapturedSet(w, h, old(cells)[pos := color], color, pos)
      ensures ok ==> koPosOld == old(koPos) && turnOld == old(turn)
    {
      ghost var s0 := State();
      ok := IsMoveLegal(pos, color);
      if !ok {
        return false, [], koPos, turn;
      }
      var removedStonesCount;
      removedStonesCount, removed := PlaceAndCapture(pos, color);
      AddPrisoners(GetOppositeColor(color), removedStonesCount);
      koPosOld := koPos;
      koPos := GetNewKoPosition(pos, color, removedStonesCount);
      turnOld := turn;
      RotateTurn();
      PlaceFromParts(s0, pos, color, Elems(removed), State());
    }

    /** The first half of a legal `putStone`: the stone goes down and its four captures come off. */
    method PlaceAndCapture(pos: int, color: int) returns (count: int, removed: seq<int>)
      requires Valid() && OnBoard(w, h, pos) && IsValidColor(color)
      modifies this, intersections
      ensures Valid() && OnlyStones() && Distinct(removed) && count == |Elems(removed)|
      ensures Elems(removed) == CapturedSet(w, h, old(cells)[pos := color], color, pos)
      ensures cells == Clear(old(cells)[pos := color], Elems(removed))
    {
      SetAt(pos, color);
      ghost var c1 := cells;
      CaptureStart(w, h, c1, color, pos);
      count, removed := RemoveCapturedStrings(pos, color, c1, [], 0);
      assert [] + removed == removed;
      CapturedPrefixIsCapturedSet(w, h, c1, color, pos);
      DistinctCard(removed);
    }

    /**
     * The four `removeStringIfSurrounded` calls of `putStone` from
     * neighbour `k` on (left, above, right, below), after the captures in
     * `p` are taken; the counts add up as `putStone` adds them.
     */
    method RemoveCapturedStrings(pos: int, color: int, ghost c1: seq<int>, ghost p: seq<int>, k: nat)
      returns (n: int, r: seq<int>)
      requires Valid() && CapturesSoFar(w, h, c1, color, pos, p, cells, k)
      modifies this, intersections
      decreases 4 - k
      ensures Valid() && OnlyStones() && n == |r|
      ensures CapturesSoFar(w, h, c1, color, pos, p + r, cells, 4)
    {
      if k == 4 {
        n, r := 0, [];
        assert p + r == p;
      } else {
        ghost var b := cells;
        NeighbourPositions(w, h, pos);
        var d := Neighbours(w, h, pos)[k];
        var n1, r1 := RemoveStringIfSurrounded(d, color);
        CaptureAccount(w, h, c1, color, pos, p, b, k, d, r1, cells);
        var n2, r2 := RemoveCapturedStrings(pos, color, c1, p + r1, k + 1);
        n, r := n1 + n2, r1 + r2;
        assert p + r1 + r2 == p + r;
      }
    }

    /** Passing: clears the ko point and hands the move over; returns what the history records. */
    method Pass() returns (koPosOld: int, turnOld: int)
      requires Valid()
      modifies this
      ensures Valid() && intersections == old(intersections)
      ensures State() == Rules.Pass(old(State()))
      ensures koPosOld == old(koPos) && turnOld == old(turn)
    {
      koPosOld := koPos;
      koPos := NPOS;
      turnOld := turn;
      RotateTurn();
    }
  }

}
