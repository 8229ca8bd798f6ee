/**
 * Strings (4-connected groups of one colour) and liberties, defined on a
 * plain view of the board: `c[pos]` is the state of intersection `pos`.
 *
 * A chain path of colour `color` is a walk along adjacent on-board points
 * whose every point except possibly the last holds `color`.  A string is
 * what chain paths connect; a string has a liberty when a chain path from
 * it ends on an EMPTY point.
 */
module Strings {
  import opened Stones
  import opened Geometry

  predicate Grid(w: int, h: int, c: seq<int>) {
    Dims(w, h) && |c| == w * h
  }

  function Last(s: seq<int>): int
    requires |s| > 0
  {
    s[|s| - 1]
  }

  ghost predicate ChainPath(w: int, h: int, c: seq<int>, color: int, path: seq<int>)
    requires Grid(w, h, c)
  {
    && |path| > 0
    && (forall i :: 0 <= i < |path| ==> OnBoard(w, h, path[i]))
    && (forall i :: 0 <= i < |path| - 1 ==> c[path[i]] == color && Adjacent(w, h, path[i], path[i + 1]))
  }

  /** `b` belongs to the `color` string of `a`. */
  ghost predicate Connected(w: int, h: int, c: seq<int>, color: int, a: int, b: int)
    requires Grid(w, h, c)
  {
    exists path :: ChainPath(w, h, c, color, path) && path[0] == a && Last(path) == b && c[b] == color
  }

  /** Some chain path of `color` from `a` ends on an EMPTY point. */
  ghost predicate ReachesEmpty(w: int, h: int, c: seq<int>, color: int, a: int)
    requires Grid(w, h, c)
  {
    exists path :: ChainPath(w, h, c, color, path) && path[0] == a && c[Last(path)] == EMPTY
  }

  /** The string through the point `a`: every point connected to it in its own colour. */
  ghost function StringOf(w: int, h: int, c: seq<int>, a: int): set<int>
    requires Grid(w, h, c) && OnBoard(w, h, a)
  {
    set q | 0 <= q < |c| && Connected(w, h, c, c[a], a, q)
  }

  /** The points holding `color`. */
  function ColorSet(c: seq<int>, color: int): set<int> {
    set q | 0 <= q < |c| && c[q] == color
  }

  /** `c` with every point of `x` emptied. */
  function Clear(c: seq<int>, x: set<int>): (r: seq<int>)
    ensures |r| == |c|
    ensures forall q :: 0 <= q < |c| ==> r[q] == if q in x then EMPTY else c[q]
  {
    seq(|c|, q requires 0 <= q < |c| => if q in x then EMPTY else c[q])
  }

  /** Every point that holds `color` in `c2` held it in `c1`. */
  predicate ColorShrinks(c1: seq<int>, c2: seq<int>, color: int)
    requires |c1| == |c2|
  {
    forall q :: 0 <= q < |c2| && c2[q] == color ==> c1[q] == color
  }

  /** The elements of a list. */
  function Elems(s: seq<int>): set<int> {
    set x | x in s
  }

  predicate Distinct(s: seq<int>) {
    forall i, j :: 0 <= i < j < |s| ==> s[i] != s[j]
  }

  /** A list without repetitions has as many elements as its set. */
  lemma {:induction false} DistinctCard(s: seq<int>)
    requires Distinct(s)
    ensures |Elems(s)| == |s|
  {
    if |s| > 0 {
      var t := s[1..];
      assert Distinct(t);
      DistinctCard(t);
      assert Elems(s) == {s[0]} + Elems(t);
      assert s[0] !in Elems(t);
    }
  }

  lemma DistinctConcat(a: seq<int>, b: seq<int>)
    requires Distinct(a) && Distinct(b) && Elems(a) !! Elems(b)
    ensures Distinct(a + b) && Elems(a + b) == Elems(a) + Elems(b)
  {
    forall i, j | 0 <= i < j < |a + b|
      ensures (a + b)[i] != (a + b)[j]
    {
      if i < |a| && j >= |a| {
        assert (a + b)[i] in Elems(a) && (a + b)[j] in Elems(b);
      }
    }
  }

  lemma ClearTwice(c: seq<int>, x: set<int>, y: set<int>)
    ensures Clear(Clear(c, x), y) == Clear(c, x + y)
  {
  }

  lemma ClearNothing(c: seq<int>)
    ensures Clear(c, {}) == c
  {
  }

  // ----- elementary path facts -----

  lemma SingletonPath(w: int, h: int, c: seq<int>, color: int, a: int)
    requires Grid(w, h, c) && OnBoard(w, h, a)
    ensures ChainPath(w, h, c, color, [a])
  {
  }

  lemma {:induction false} PrependPath(w: int, h: int, c: seq<int>, color: int, a: int, path: seq<int>)
    requires Grid(w, h, c) && OnBoard(w, h, a) && c[a] == color
    requires ChainPath(w, h, c, color, path) && Adjacent(w, h, a, path[0])
    ensures ChainPath(w, h, c, color, [a] + path)
  {
    var p := [a] + path;
    forall i | 0 <= i < |p| - 1
      ensures c[p[i]] == color && Adjacent(w, h, p[i], p[i + 1])
    {
      if i > 0 {
        assert p[i] == path[i - 1] && p[i + 1] == path[i];
      }
    }
  }

  /** A path whose inner points keep their colour on another board is a path there too. */
  lemma {:induction false} TransferPath(w: int, h: int, c1: seq<int>, c2: seq<int>, color: int, path: seq<int>)
    requires Grid(w, h, c1) && Grid(w, h, c2) && ChainPath(w, h, c1, color, path)
    requires forall i :: 0 <= i < |path| - 1 ==> c2[path[i]] == color
    ensures ChainPath(w, h, c2, color, path)
  {
  }

  /** Joining two chain paths at a shared point of `color`. */
  lemma {:induction false} JoinPaths(w: int, h: int, c: seq<int>, color: int, p1: seq<int>, p2: seq<int>)
    requires Grid(w, h, c) && ChainPath(w, h, c, color, p1) && ChainPath(w, h, c, color, p2)
    requires Last(p1) == p2[0] && c[Last(p1)] == color
    ensures ChainPath(w, h, c, color, p1[..|p1| - 1] + p2)
    ensures (p1[..|p1| - 1] + p2)[0] == p1[0]
    ensures Last(p1[..|p1| - 1] + p2) == Last(p2)
  {
    var k := |p1| - 1;
    var p := p1[..k] + p2;
    forall i | 0 <= i < |p| - 1
      ensures c[p[i]] == color && Adjacent(w, h, p[i], p[i + 1])
    {
      if i < k - 1 {
        assert p[i] == p1[i] && p[i + 1] == p1[i + 1];
      } else if i == k - 1 {
        assert p[i] == p1[k - 1] && p[i + 1] == p2[0] == p1[k];
      } else {
        assert p[i] == p2[i - k] && p[i + 1] == p2[i - k + 1];
      }
    }
  }

  // ----- small consequences used by the searches -----

  lemma {:induction false} ReachesEmptyStep(w: int, h: int, c: seq<int>, color: int, a: int, n: int)
    requires Grid(w, h, c) && OnBoard(w, h, a) && c[a] == color
    requires Adjacent(w, h, a, n) && OnBoard(w, h, n) && ReachesEmpty(w, h, c, color, n)
    ensures ReachesEmpty(w, h, c, color, a)
  {
    var path :| ChainPath(w, h, c, color, path) && path[0] == n && c[Last(path)] == EMPTY;
    PrependPath(w, h, c, color, a, path);
    assert Last([a] + path) == Last(path);
  }

  lemma ReachesEmptyHere(w: int, h: int, c: seq<int>, color: int, a: int)
    requires Grid(w, h, c) && OnBoard(w, h, a) && c[a] == EMPTY
    ensures ReachesEmpty(w, h, c, color, a)
  {
    SingletonPath(w, h, c, color, a);
    assert Last([a]) == a;
  }

  lemma ConnectedHere(w: int, h: int, c: seq<int>, a: int)
    requires Grid(w, h, c) && OnBoard(w, h, a)
    ensures Connected(w, h, c, c[a], a, a)
  {
    SingletonPath(w, h, c, c[a], a);
    assert Last([a]) == a;
  }

  lemma {:induction false} ConnectedStep(w: int, h: int, c: seq<int>, color: int, a: int, n: int, q: int)
    requires Grid(w, h, c) && OnBoard(w, h, a) && c[a] == color
    requires Adjacent(w, h, a, n) && Connected(w, h, c, color, n, q)
    ensures Connected(w, h, c, color, a, q)
  {
    var path :| ChainPath(w, h, c, color, path) && path[0] == n && Last(path) == q && c[q] == color;
    PrependPath(w, h, c, color, a, path);
    assert Last([a] + path) == q;
  }

  /** Connections survive on a board where `color` only lost points, and so carry back to the old board. */
  lemma {:induction false} ConnectedOnLarger(w: int, h: int, c1: seq<int>, c2: seq<int>, color: int, a: int, q: int)
    requires Grid(w, h, c1) && Grid(w, h, c2) && ColorShrinks(c1, c2, color)
    requires Connected(w, h, c2, color, a, q)
    ensures Connected(w, h, c1, color, a, q)
  {
    var path :| ChainPath(w, h, c2, color, path) && path[0] == a && Last(path) == q && c2[q] == color;
    TransferPath(w, h, c2, c1, color, path);
  }

  /**
   * A set `v` that contains the start of a chain path and all on-board
   * neighbours of its `color` points contains the whole path.
   */
  lemma {:induction false} PathInsideClosedSet(w: int, h: int, c: seq<int>, color: int, path: seq<int>, v: set<int>)
    requires Grid(w, h, c) && ChainPath(w, h, c, color, path) && path[0] in v
    requires forall q :: q in v && 0 <= q < |c| && c[q] == color ==>
      forall n :: n in Neighbours(w, h, q) && 0 <= n < |c| ==> n in v
    ensures forall i :: 0 <= i < |path| ==> path[i] in v
  {
    var k := 1;
    while k < |path|
      invariant 1 <= k <= |path|
      invariant forall i :: 0 <= i < k ==> path[i] in v
    {
      assert path[k - 1] in v && c[path[k - 1]] == color && Adjacent(w, h, path[k - 1], path[k]);
      k := k + 1;
    }
  }

  /**
   * A set `v` that contains `a`, holds no EMPTY point and contains every
   * neighbour of its `color` points leaves no liberty to reach from `a`.
   */
  lemma {:induction false} ClosedSetHasNoLiberty(w: int, h: int, c: seq<int>, color: int, a: int, v: set<int>)
    requires Grid(w, h, c) && a in v
    requires forall q :: q in v && 0 <= q < |c| ==> c[q] != EMPTY
    requires forall q :: q in v && 0 <= q < |c| && c[q] == color ==>
      forall n :: n in Neighbours(w, h, q) && 0 <= n < |c| ==> n in v
    ensures !ReachesEmpty(w, h, c, color, a)
  {
    forall path | ChainPath(w, h, c, color, path) && path[0] == a
      ensures c[Last(path)] != EMPTY
    {
      PathInsideClosedSet(w, h, c, color, path, v);
    }
  }

  /** The on-board `color` neighbours of every point of `v` are in `v`. */
  ghost predicate ColorClosed(w: int, h: int, c: seq<int>, color: int, v: set<int>)
    requires Grid(w, h, c)
  {
    && (forall p :: p in v ==> 0 <= p < |c|)
    && (forall p, n :: p in v && n in Neighbours(w, h, p) && 0 <= n < |c| && c[n] == color ==> n in v)
  }

  /**
   * A set that contains `a` and is closed under `color` neighbours contains
   * the whole `color` string of `a`.
   */
  lemma {:induction false} ClosedSetContainsString(w: int, h: int, c: seq<int>, color: int, a: int, v: set<int>, q: int)
    requires Grid(w, h, c) && a in v && ColorClosed(w, h, c, color, v)
    requires Connected(w, h, c, color, a, q)
    ensures q in v
  {
    var path :| ChainPath(w, h, c, color, path) && path[0] == a && Last(path) == q && c[q] == color;
    var k := 1;
    while k < |path|
      invariant 1 <= k <= |path|
      invariant path[k - 1] in v
    {
      var p, n := path[k - 1], path[k];
      assert n in Neighbours(w, h, p) && n != NPOS;
      assert c[n] == color by {
        if k < |path| - 1 { assert c[path[k]] == color; } else { assert n == q; }
      }
      k := k + 1;
    }
  }
}
