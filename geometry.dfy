/**
 * Neighbour arithmetic on `pos = x + y * w`.  Each step returns NPOS when it
 * would leave the board, and NPOS maps to NPOS.  Callers only ever pass an
 * on-board position or NPOS; requires clauses say so.
 */
module Geometry {
  import opened Stones

  predicate Dims(w: int, h: int) {
    w >= 1 && h >= 1
  }

  predicate OnBoard(w: int, h: int, pos: int) {
    0 <= pos < w * h
  }

  /** A position as the board methods receive it: on the board, or NPOS. */
  predicate PosOrNone(w: int, h: int, pos: int) {
    pos == NPOS || OnBoard(w, h, pos)
  }

  function ToX(w: int, pos: int): int
    requires w >= 1
  {
    pos % w
  }

  function ToY(w: int, pos: int): int
    requires w >= 1
  {
    pos / w
  }

  function LeftOf(w: int, h: int, pos: int): int
    requires Dims(w, h) && PosOrNone(w, h, pos)
  {
    if pos == NPOS || pos % w == 0 then NPOS else pos - 1
  }

  function RightOf(w: int, h: int, pos: int): int
    requires Dims(w, h) && PosOrNone(w, h, pos)
  {
    if pos == NPOS || pos % w == w - 1 then NPOS else pos + 1
  }

  function Above(w: int, h: int, pos: int): int
    requires Dims(w, h) && PosOrNone(w, h, pos)
  {
    if pos == NPOS || pos < w then NPOS else pos - w
  }

  function Below(w: int, h: int, pos: int): int
    requires Dims(w, h) && PosOrNone(w, h, pos)
  {
    if pos == NPOS || pos >= w * (h - 1) then NPOS else pos + w
  }

  /** The four directions in the order the capture and liberty searches visit them. */
  function Neighbours(w: int, h: int, pos: int): seq<int>
    requires Dims(w, h) && PosOrNone(w, h, pos)
  {
    [LeftOf(w, h, pos), Above(w, h, pos), RightOf(w, h, pos), Below(w, h, pos)]
  }

  predicate Adjacent(w: int, h: int, p: int, q: int)
    requires Dims(w, h) && PosOrNone(w, h, p)
  {
    q != NPOS && q in Neighbours(w, h, p)
  }

  lemma DivModFacts(w: int, pos: int)
    requires w >= 1 && pos >= 0
    ensures pos == ToY(w, pos) * w + ToX(w, pos)
    ensures 0 <= ToX(w, pos) < w && ToY(w, pos) >= 0
  {
  }

  /** The row of an on-board position is on the board. */
  lemma RowOnBoard(w: int, h: int, pos: int)
    requires Dims(w, h) && OnBoard(w, h, pos)
    ensures 0 <= ToX(w, pos) < w && 0 <= ToY(w, pos) < h
  {
    DivModFacts(w, pos);
    if ToY(w, pos) >= h {
      MulMono(h, ToY(w, pos), w);
    }
  }

  lemma {:induction false} LeftStep(w: int, h: int, pos: int)
    requires Dims(w, h) && OnBoard(w, h, pos) && LeftOf(w, h, pos) != NPOS
    ensures OnBoard(w, h, LeftOf(w, h, pos))
    ensures ToX(w, LeftOf(w, h, pos)) == ToX(w, pos) - 1 && ToY(w, LeftOf(w, h, pos)) == ToY(w, pos)
  {
    var x, y := ToX(w, pos), ToY(w, pos);
    DivModFacts(w, pos);
    var q := pos - 1;
    assert q == y * w + (x - 1) && 0 <= x - 1 < w;
    DivModUnique(w, q, y, x - 1);
  }

  lemma {:induction false} RightStep(w: int, h: int, pos: int)
    requires Dims(w, h) && OnBoard(w, h, pos) && RightOf(w, h, pos) != NPOS
    ensures OnBoard(w, h, RightOf(w, h, pos))
    ensures ToX(w, RightOf(w, h, pos)) == ToX(w, pos) + 1 && ToY(w, RightOf(w, h, pos)) == ToY(w, pos)
  {
    var x, y := ToX(w, pos), ToY(w, pos);
    DivModFacts(w, pos);
    var q := pos + 1;
    assert q == y * w + (x + 1) && 0 <= x + 1 < w;
    DivModUnique(w, q, y, x + 1);
    assert y < h by {
      if y >= h {
        assert y * w >= h * w by { MulMono(h, y, w); }
      }
    }
    assert q < w * h by {
      assert q <= y * w + w - 1;
      assert (y + 1) * w <= h * w by { MulMono(y + 1, h, w); }
    }
  }

  lemma {:induction false} AboveStep(w: int, h: int, pos: int)
    requires Dims(w, h) && OnBoard(w, h, pos) && Above(w, h, pos) != NPOS
    ensures OnBoard(w, h, Above(w, h, pos))
    ensures ToX(w, Above(w, h, pos)) == ToX(w, pos) && ToY(w, Above(w, h, pos)) == ToY(w, pos) - 1
  {
    var x, y := ToX(w, pos), ToY(w, pos);
    DivModFacts(w, pos);
    var q := pos - w;
    assert q == (y - 1) * w + x;
    DivModUnique(w, q, y - 1, x);
  }

  lemma {:induction false} BelowStep(w: int, h: int, pos: int)
    requires Dims(w, h) && OnBoard(w, h, pos) && Below(w, h, pos) != NPOS
    ensures OnBoard(w, h, Below(w, h, pos))
    ensures ToX(w, Below(w, h, pos)) == ToX(w, pos) && ToY(w, Below(w, h, pos)) == ToY(w, pos) + 1
  {
    var x, y := ToX(w, pos), ToY(w, pos);
    DivModFacts(w, pos);
    var q := pos + w;
    assert q == (y + 1) * w + x;
    DivModUnique(w, q, y + 1, x);
    assert w * (h - 1) == w * h - w;
  }

  lemma DivModUnique(w: int, q: int, y: int, x: int)
    requires w >= 1 && 0 <= x < w && y >= 0 && q == y * w + x
    ensures ToX(w, q) == x && ToY(w, q) == y
  {
    var d, m := q / w, q % w;
    assert q == d * w + m && 0 <= m < w;
    assert (d - y) * w == x - m;
    if d > y {
      MulMono(1, d - y, w);
    } else if d < y {
      MulMono(1, y - d, w);
    }
  }

  lemma MulMono(a: int, b: int, w: int)
    requires w >= 1 && a <= b
    ensures a * w <= b * w
  {
  }

  /**
   * Every neighbour of an on-board point is NPOS or an on-board point one
   * step away along one axis.
   */
  lemma {:induction false} NeighboursOnBoard(w: int, h: int, pos: int)
    requires Dims(w, h) && OnBoard(w, h, pos)
    ensures forall n :: n in Neighbours(w, h, pos) ==> PosOrNone(w, h, n)
    ensures forall n :: n in Neighbours(w, h, pos) && n != NPOS ==>
      (ToY(w, n) == ToY(w, pos) && (ToX(w, n) == ToX(w, pos) - 1 || ToX(w, n) == ToX(w, pos) + 1)) ||
      (ToX(w, n) == ToX(w, pos) && (ToY(w, n) == ToY(w, pos) - 1 || ToY(w, n) == ToY(w, pos) + 1))
  {
    if LeftOf(w, h, pos) != NPOS { LeftStep(w, h, pos); }
    if RightOf(w, h, pos) != NPOS { RightStep(w, h, pos); }
    if Above(w, h, pos) != NPOS { AboveStep(w, h, pos); }
    if Below(w, h, pos) != NPOS { BelowStep(w, h, pos); }
  }

  /** Each of the four steps from an on-board point is on the board or NPOS. */
  lemma {:induction false} NeighbourPositions(w: int, h: int, pos: int)
    requires Dims(w, h) && OnBoard(w, h, pos)
    ensures PosOrNone(w, h, LeftOf(w, h, pos)) && PosOrNone(w, h, Above(w, h, pos))
    ensures PosOrNone(w, h, RightOf(w, h, pos)) && PosOrNone(w, h, Below(w, h, pos))
  {
    NeighboursOnBoard(w, h, pos);
    assert LeftOf(w, h, pos) in Neighbours(w, h, pos) && Above(w, h, pos) in Neighbours(w, h, pos);
    assert RightOf(w, h, pos) in Neighbours(w, h, pos) && Below(w, h, pos) in Neighbours(w, h, pos);
  }

  /** Adjacency is symmetric: each step has the opposite step as its inverse. */
  lemma {:induction false} AdjacentSymmetric(w: int, h: int, p: int, q: int)
    requires Dims(w, h) && OnBoard(w, h, p) && OnBoard(w, h, q)
    requires Adjacent(w, h, p, q)
    ensures Adjacent(w, h, q, p)
  {
    DivModFacts(w, p);
    DivModFacts(w, q);
    if q == LeftOf(w, h, p) {
      LeftStep(w, h, p);
      assert RightOf(w, h, q) == p;
    } else if q == RightOf(w, h, p) {
      RightStep(w, h, p);
      assert LeftOf(w, h, q) == p;
    } else if q == Above(w, h, p) {
      AboveStep(w, h, p);
      assert q < w * (h - 1) by {
        assert ToY(w, q) + 1 == ToY(w, p);
        assert ToY(w, p) < h by {
          if ToY(w, p) >= h { MulMono(h, ToY(w, p), w); }
        }
        assert q + w <= (ToY(w, q) + 1) * w + w - 1;
        MulMono(ToY(w, q) + 1, h - 1, w);
      }
      assert Below(w, h, q) == p;
    } else {
      BelowStep(w, h, p);
      assert Above(w, h, q) == p;
    }
  }
}
