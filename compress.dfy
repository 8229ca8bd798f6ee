/**
 * Compression of a difference's intersection changes into rectangles, as
 * SGF point lists (`AB[aa:cc]`) and the binary setup records use them.
 * Runs of horizontally adjacent changes to the same state become one
 * rectangle; then a run that sits right below a rectangle of the same state
 * and the same columns extends that rectangle downwards.  A scratch array
 * maps every changed point to the rectangle holding it; rectangles are kept
 * in an arena and the scratch array holds arena indices (-1 for none), so a
 * rectangle shared by several points is one arena entry.
 */
module Compression {
  import opened Stones
  import Seqs
  import opened Geometry
  import opened Diffs

  datatype Rect = Rect(state: int, left: int, top: int, right: int, bottom: int)

  const NO_CHANGE := -1

  predicate Contains(r: Rect, x: int, y: int) {
    r.left <= x <= r.right && r.top <= y <= r.bottom
  }

  /** What the compression accepts: a difference's sorted change list on a `w` by `h` board. */
  predicate Fits(cs: seq<Change>, w: int, h: int) {
    && StrictlySorted(cs)
    && forall k :: 0 <= k < |cs| ==> 0 <= cs[k].pos < w * h && IsState(cs[k].newState)
  }

  /** The state the change list sets at `p`, or NO_CHANGE. */
  ghost function TargetAt(cs: seq<Change>, p: int): int {
    if p in ToMap(cs) then ToMap(cs)[p].newState else NO_CHANGE
  }

  /** A rectangle with at least one point and a board state. */
  predicate Proper(r: Rect) {
    r.left <= r.right && r.top <= r.bottom && IsState(r.state)
  }

  /** Every point of every rectangle lies on the board and is changed to the rectangle's state. */
  ghost predicate Sound(arena: seq<Rect>, cs: seq<Change>, w: int, h: int) {
    && (forall j | 0 <= j < |arena| :: Proper(arena[j]))
    && forall j, x, y {:trigger Contains(arena[j], x, y)} | 0 <= j < |arena| && Contains(arena[j], x, y) ::
      0 <= x < w && 0 <= y < h && TargetAt(cs, ToPosition(x, y, w)) == arena[j].state
  }

  /** The scratch array points every changed point, and only those, at a rectangle holding it. */
  ghost predicate Assigned(a: seq<int>, arena: seq<Rect>, cs: seq<Change>, w: int)
    requires w >= 1
  {
    forall p | 0 <= p < |a| ::
      && -1 <= a[p] < |arena|
      && (a[p] != -1 <==> p in ToMap(cs))
      && (a[p] != -1 ==> Contains(arena[a[p]], ToX(w, p), ToY(w, p)))
  }

  /** Rectangles reach down at most to row `y`, unless they are a single row. */
  ghost predicate ReachAtMost(arena: seq<Rect>, y: int) {
    forall j | 0 <= j < |arena| :: arena[j].top == arena[j].bottom || arena[j].bottom <= y
  }

  lemma TargetStep(cs: seq<Change>, k: int, p: int)
    requires StrictlySorted(cs) && 0 <= k < |cs|
    ensures TargetAt(cs[..k + 1], p) == if p == cs[k].pos then cs[k].newState else TargetAt(cs[..k], p)
    ensures TargetAt(cs[..k], cs[k].pos) == NO_CHANGE
  {
    PrefixFacts(cs, k);
  }

  /** `big` holds every point `small` holds. */
  predicate Includes(big: Rect, small: Rect) {
    big.left <= small.left && small.right <= big.right && big.top <= small.top && small.bottom <= big.bottom
  }

  /** The arena only gained rectangles or widened them. */
  predicate Grows(a0: seq<Rect>, a: seq<Rect>) {
    |a0| <= |a| && forall j | 0 <= j < |a0| :: Includes(a[j], a0[j])
  }

  lemma SoundWiden(arena: seq<Rect>, cs: seq<Change>, k: int, w: int, h: int, j: int)
    requires Dims(w, h) && Fits(cs, w, h) && 0 <= k < |cs|
    requires Sound(arena, cs[..k], w, h) && 0 <= j < |arena|
    requires arena[j].state == cs[k].newState && arena[j].top == arena[j].bottom
    requires cs[k].pos == ToPosition(arena[j].right + 1, arena[j].top, w) && arena[j].right + 1 < w
    ensures Sound(arena[j := arena[j].(right := arena[j].right + 1)], cs[..k + 1], w, h)
  {
    var a := arena[j := arena[j].(right := arena[j].right + 1)];
    forall i | 0 <= i < |a| ensures Proper(a[i]) {
      assert Proper(arena[i]);
    }
    forall i, x, y {:trigger Contains(a[i], x, y)} | 0 <= i < |a| && Contains(a[i], x, y)
      ensures 0 <= x < w && 0 <= y < h && TargetAt(cs[..k + 1], ToPosition(x, y, w)) == a[i].state
    {
      TargetStep(cs, k, ToPosition(x, y, w));
      if i == j && x == arena[j].right + 1 {
        assert y == arena[j].top;
        assert Contains(arena[j], arena[j].right, y);
      } else {
        assert Contains(arena[i], x, y);
      }
    }
  }

  lemma SoundAdd(arena: seq<Rect>, cs: seq<Change>, k: int, w: int, h: int, x: int, y: int)
    requires Dims(w, h) && Fits(cs, w, h) && 0 <= k < |cs|
    requires Sound(arena, cs[..k], w, h)
    requires 0 <= x < w && 0 <= y < h && cs[k].pos == ToPosition(x, y, w)
    ensures Sound(arena + [Rect(cs[k].newState, x, y, x, y)], cs[..k + 1], w, h)
  {
    var a := arena + [Rect(cs[k].newState, x, y, x, y)];
    forall i | 0 <= i < |a| ensures Proper(a[i]) {
      if i < |arena| {
        assert Proper(arena[i]);
      }
    }
    forall i, x', y' {:trigger Contains(a[i], x', y')} | 0 <= i < |a| && Contains(a[i], x', y')
      ensures 0 <= x' < w && 0 <= y' < h && TargetAt(cs[..k + 1], ToPosition(x', y', w)) == a[i].state
    {
      TargetStep(cs, k, ToPosition(x', y', w));
      if i < |arena| {
        assert Contains(arena[i], x', y');
      }
    }
  }

  /** Pointing one further changed point at a rectangle holding it keeps the scratch array assigned. */
  lemma AssignOne(a: seq<int>, arena0: seq<Rect>, arena: seq<Rect>, cs: seq<Change>, k: int, w: int, idx: int)
    requires w >= 1 && StrictlySorted(cs) && 0 <= k < |cs| && 0 <= cs[k].pos < |a|
    requires Assigned(a, arena0, cs[..k], w) && Grows(arena0, arena)
    requires 0 <= idx < |arena| && Contains(arena[idx], ToX(w, cs[k].pos), ToY(w, cs[k].pos))
    ensures Assigned(a[cs[k].pos := idx], arena, cs[..k + 1], w)
  {
    PrefixFacts(cs, k);
    var b := a[cs[k].pos := idx];
    forall p | 0 <= p < |b|
      ensures -1 <= b[p] < |arena|
      ensures b[p] != -1 <==> p in ToMap(cs[..k + 1])
      ensures b[p] != -1 ==> Contains(arena[b[p]], ToX(w, p), ToY(w, p))
    {
      if p != cs[k].pos && b[p] != -1 {
        assert Includes(arena[b[p]], arena0[b[p]]);
      }
    }
  }

  /** The step right from `(x, y)`, or NPOS past the last column. */
  lemma RightStepTo(w: int, h: int, x: int, y: int)
    requires Dims(w, h) && 0 <= x < w && 0 <= y < h
    ensures OnBoard(w, h, ToPosition(x, y, w))
    ensures RightOf(w, h, ToPosition(x, y, w)) == if x + 1 < w then ToPosition(x + 1, y, w) else NPOS
  {
    DivModUnique(w, ToPosition(x, y, w), y, x);
    MulMono(y + 1, h, w);
  }

  /** Every rectangle of the arena is a single row. */
  ghost predicate SingleRows(arena: seq<Rect>) {
    forall j | 0 <= j < |arena| :: arena[j].top == arena[j].bottom
  }

  /** What phase one keeps once the first `k` changes are placed. */
  ghost predicate RowsSoFar(arena: seq<Rect>, a: seq<int>, cs: seq<Change>, k: int, w: int, h: int)
    requires Dims(w, h) && 0 <= k <= |cs|
  {
    |a| == w * h && Sound(arena, cs[..k], w, h) && Assigned(a, arena, cs[..k], w) && SingleRows(arena)
  }

  /** A change right of a run of its own state widens that run. */
  lemma WidenStep(arena: seq<Rect>, a: seq<int>, cs: seq<Change>, k: int, w: int, h: int, j: int)
    requires Dims(w, h) && Fits(cs, w, h) && 0 <= k < |cs| && RowsSoFar(arena, a, cs, k, w, h)
    requires cs[k].pos % w != 0 && a[cs[k].pos - 1] == j && j != -1 && arena[j].state == cs[k].newState
    ensures 0 <= j < |arena|
    ensures RowsSoFar(arena[j := arena[j].(right := ToX(w, cs[k].pos))], a[cs[k].pos := j], cs, k + 1, w, h)
  {
    var pos := cs[k].pos;
    DivModFacts(w, pos);
    var x, y := ToX(w, pos), ToY(w, pos);
    LeftStep(w, h, pos);
    var r := arena[j];
    assert Contains(r, x - 1, y);
    // the run holding the left neighbour ends there: `pos` is not changed yet
    assert r.right == x - 1 by {
      if r.right >= x {
        assert Contains(r, x, y);
        TargetStep(cs, k, pos);
      }
    }
    assert ToPosition(x, y, w) == pos;
    SoundWiden(arena, cs, k, w, h, j);
    var arena' := arena[j := r.(right := x)];
    assert Grows(arena, arena');
    AssignOne(a, arena, arena', cs, k, w, j);
  }

  /** Any other change starts a run of its own. */
  lemma NewRunStep(arena: seq<Rect>, a: seq<int>, cs: seq<Change>, k: int, w: int, h: int)
    requires Dims(w, h) && Fits(cs, w, h) && 0 <= k < |cs| && RowsSoFar(arena, a, cs, k, w, h)
    ensures RowsSoFar(arena + [Rect(cs[k].newState, ToX(w, cs[k].pos), ToY(w, cs[k].pos), ToX(w, cs[k].pos), ToY(w, cs[k].pos))],
                      a[cs[k].pos := |arena|], cs, k + 1, w, h)
  {
    var pos := cs[k].pos;
    DivModFacts(w, pos);
    var x, y := ToX(w, pos), ToY(w, pos);
    assert ToPosition(x, y, w) == pos;
    assert y < h by {
      if y >= h {
        MulMono(h, y, w);
      }
    }
    SoundAdd(arena, cs, k, w, h, x, y);
    var arena' := arena + [Rect(cs[k].newState, x, y, x, y)];
    assert Grows(arena, arena');
    AssignOne(a, arena, arena', cs, k, w, |arena|);
  }

  /** Phase one: runs of horizontally adjacent changes to the same state. */
  method JoinRows(changes: seq<Change>, w: int, h: int) returns (arena: seq<Rect>, isects: array<int>)
    requires Dims(w, h) && Fits(changes, w, h)
    ensures fresh(isects) && isects.Length == w * h
    ensures Sound(arena, changes, w, h) && Assigned(isects[..], arena, changes, w)
    ensures SingleRows(arena)
  {
    isects := new int[w * h](_ => -1);
    arena := [];
    var k := 0;
    assert changes[..0] == [];
    while k < |changes|
      invariant 0 <= k <= |changes| && RowsSoFar(arena, isects[..], changes, k, w, h)
    {
      var c := changes[k];
      var pos := c.pos;
      var x, y := ToX(w, pos), ToY(w, pos);
      var left := LeftOf(w, h, pos);
      var leftIsect := if left != NPOS then isects[left] else -1;
      if leftIsect != -1 && arena[leftIsect].state == c.newState {
        WidenStep(arena, isects[..], changes, k, w, h, leftIsect);
        arena := arena[leftIsect := arena[leftIsect].(right := x)];
        isects[pos] := leftIsect;
      } else {
        NewRunStep(arena, isects[..], changes, k, w, h);
        arena := arena + [Rect(c.newState, x, y, x, y)];
        isects[pos] := |arena| - 1;
      }
      k := k + 1;
    }
    Seqs.TakeAll(changes);
  }

  /** From position `from` on, every changed point still points at a single-row run. */
  ghost predicate Ahead(arena: seq<Rect>, a: seq<int>, from: int) {
    forall p | 0 <= p < |a| && from <= p && 0 <= a[p] < |arena| :: arena[a[p]].top == arena[a[p]].bottom
  }

  /** What phase two keeps while it works on row `y`, before position `from`. */
  ghost predicate ColumnsSoFar(arena: seq<Rect>, a: seq<int>, cs: seq<Change>, w: int, h: int, y: int, from: int)
    requires Dims(w, h)
  {
    |a| == w * h && Sound(arena, cs, w, h) && Assigned(a, arena, cs, w) && ReachAtMost(arena, y) && Ahead(arena, a, from)
  }

  /**
   * A run of row `y` under a rectangle of the same state and columns lets
   * that rectangle reach down to row `y`.
   */
  lemma MergeDown(arena: seq<Rect>, a: seq<int>, cs: seq<Change>, w: int, h: int, y: int, x: int, pos: int, ci: int, ai: int)
    requires Dims(w, h) && w <= pos < w * h && x == ToX(w, pos) && y == ToY(w, pos)
    requires ColumnsSoFar(arena, a, cs, w, h, y, pos)
    requires a[pos] == ci && ci != -1 && a[pos - w] == ai && ai != -1
    requires arena[ai].state == arena[ci].state && arena[ai].left == arena[ci].left && arena[ai].right == arena[ci].right
    ensures 0 <= ai < |arena| && 0 <= arena[ai].left <= x <= arena[ai].right < w && arena[ai].top < y
    ensures ColumnsSoFar(arena[ai := arena[ai].(bottom := y)], a, cs, w, h, y, pos)
  {
    AboveStep(w, h, pos);
    var c, r := arena[ci], arena[ai];
    assert Contains(c, x, y) && c.top == c.bottom == y;
    assert Contains(r, x, y - 1) && Contains(r, r.left, y - 1);
    assert Contains(c, c.right, y);
    DownSound(arena, cs, w, h, ai, ci, y);
    DownAssigned(arena, a, cs, w, ai, y);
    var arena' := arena[ai := r.(bottom := y)];
    forall p | 0 <= p < |a| && pos <= p && 0 <= a[p] < |arena'|
      ensures arena'[a[p]].top == arena'[a[p]].bottom
    {
      if a[p] == ai {
        assert Contains(r, ToX(w, p), ToY(w, p));
        RowOrder(w, p, pos);
        assert false;
      }
    }
  }

  /** Letting rectangle `ai` reach down over the single-row run `ci` just below it keeps the arena sound. */
  lemma DownSound(arena: seq<Rect>, cs: seq<Change>, w: int, h: int, ai: int, ci: int, y: int)
    requires Dims(w, h) && Sound(arena, cs, w, h) && 0 <= ai < |arena| && 0 <= ci < |arena|
    requires arena[ci].top == arena[ci].bottom == y && arena[ai].top < y && y - 1 <= arena[ai].bottom
    requires arena[ai].state == arena[ci].state && arena[ai].left == arena[ci].left && arena[ai].right == arena[ci].right
    ensures Sound(arena[ai := arena[ai].(bottom := y)], cs, w, h)
  {
    var c, r := arena[ci], arena[ai];
    var arena' := arena[ai := r.(bottom := y)];
    forall i | 0 <= i < |arena'| ensures Proper(arena'[i]) {
      assert Proper(arena[i]);
    }
    forall i, x', y' {:trigger Contains(arena'[i], x', y')} | 0 <= i < |arena'| && Contains(arena'[i], x', y')
      ensures 0 <= x' < w && 0 <= y' < h && TargetAt(cs, ToPosition(x', y', w)) == arena'[i].state
    {
      if i == ai && y' > r.bottom {
        assert Contains(c, x', y');
      } else {
        assert Contains(arena[i], x', y');
      }
    }
  }

  /** Growing one rectangle downwards keeps every pointed-at rectangle holding its point. */
  lemma DownAssigned(arena: seq<Rect>, a: seq<int>, cs: seq<Change>, w: int, ai: int, y: int)
    requires w >= 1 && Assigned(a, arena, cs, w) && 0 <= ai < |arena| && arena[ai].bottom <= y
    ensures Assigned(a, arena[ai := arena[ai].(bottom := y)], cs, w)
  {
    var arena' := arena[ai := arena[ai].(bottom := y)];
    forall p | 0 <= p < |a| && a[p] != -1
      ensures Contains(arena'[a[p]], ToX(w, p), ToY(w, p))
    {
      assert Contains(arena[a[p]], ToX(w, p), ToY(w, p));
    }
  }

  /** A point on an earlier row comes earlier. */
  lemma RowOrder(w: int, p: int, q: int)
    requires w >= 1 && 0 <= p && 0 <= q && ToY(w, p) < ToY(w, q)
    ensures p < q
  {
    DivModFacts(w, p);
    DivModFacts(w, q);
    MulMono(ToY(w, p) + 1, ToY(w, q), w);
  }

  /** Pointing a point of row `y` at the merged rectangle keeps phase two's facts. */
  lemma PointDown(arena: seq<Rect>, a: seq<int>, cs: seq<Change>, w: int, h: int, y: int, x: int, pos: int, ai: int)
    requires Dims(w, h) && 0 <= pos < w * h && x == ToX(w, pos) && y == ToY(w, pos)
    requires ColumnsSoFar(arena, a, cs, w, h, y, pos)
    requires 0 <= ai < |arena| && Contains(arena[ai], x, y)
    ensures ColumnsSoFar(arena, a[pos := ai], cs, w, h, y, pos + 1)
  {
    DivModFacts(w, pos);
    assert ToPosition(x, y, w) == pos;
    var b := a[pos := ai];
    assert TargetAt(cs, pos) == arena[ai].state;
    forall p | 0 <= p < |b|
      ensures -1 <= b[p] < |arena|
      ensures b[p] != -1 <==> p in ToMap(cs)
      ensures b[p] != -1 ==> Contains(arena[b[p]], ToX(w, p), ToY(w, p))
    {
    }
  }

  /** Phase two: rectangles reach down over runs of the same state and columns. */
  method JoinColumns(arena0: seq<Rect>, isects: array<int>, changes: seq<Change>, w: int, h: int) returns (arena: seq<Rect>)
    requires Dims(w, h) && Fits(changes, w, h) && isects.Length == w * h
    requires Sound(arena0, changes, w, h) && Assigned(isects[..], arena0, changes, w) && SingleRows(arena0)
    modifies isects
    ensures Sound(arena, changes, w, h) && Assigned(isects[..], arena, changes, w)
  {
    arena := arena0;
    var y := 1;
    var rowStart := w;
    while y < h
      invariant 1 <= y <= h && rowStart == y * w
      invariant ColumnsSoFar(arena, isects[..], changes, w, h, y - 1, rowStart)
    {
      assert rowStart + w <= w * h by {
        MulMono(y + 1, h, w);
      }
      arena := JoinRow(arena, isects, changes, w, h, y, rowStart);
      y, rowStart := y + 1, rowStart + w;
    }
  }

  /** Row `y` of phase two. */
  method JoinRow(arena0: seq<Rect>, isects: array<int>, changes: seq<Change>, w: int, h: int, y: int, rowStart: int)
    returns (arena: seq<Rect>)
    requires Dims(w, h) && 1 <= y < h && rowStart == y * w && rowStart + w <= w * h
    requires ColumnsSoFar(arena0, isects[..], changes, w, h, y - 1, rowStart)
    modifies isects
    ensures ColumnsSoFar(arena, isects[..], changes, w, h, y, rowStart + w)
  {
    arena := arena0;
    var x := 0;
    while x < w
      invariant 0 <= x <= w + 1
      invariant ColumnsSoFar(arena, isects[..], changes, w, h, y, rowStart + (if x < w then x else w))
    {
      arena, x := JoinAt(arena, isects, changes, w, h, y, rowStart, x);
    }
  }

  /** One turn of the column loop of row `y`, at column `x`, including its `++x`. */
  method JoinAt(arena0: seq<Rect>, isects: array<int>, changes: seq<Change>, w: int, h: int, y: int, rowStart: int, x0: int)
    returns (arena: seq<Rect>, x: int)
    requires Dims(w, h) && 1 <= y < h && rowStart == y * w && rowStart + w <= w * h && 0 <= x0 < w
    requires ColumnsSoFar(arena0, isects[..], changes, w, h, y, rowStart + x0)
    modifies isects
    ensures x0 < x <= w + 1
    ensures ColumnsSoFar(arena, isects[..], changes, w, h, y, rowStart + (if x < w then x else w))
  {
    arena, x := arena0, x0;
    var pos := ToPosition(x, y, w);
    DivModUnique(w, pos, y, x);
    var currIsect := isects[pos];
    if currIsect != -1 {
      var above := Above(w, h, pos);
      var aboveIsect := isects[above];
      if aboveIsect != -1 && arena[aboveIsect].state == arena[currIsect].state &&
         arena[aboveIsect].left == arena[currIsect].left && arena[aboveIsect].right == arena[currIsect].right
      {
        arena, x := MergeAt(arena, isects, changes, w, h, y, rowStart, x, pos, currIsect, aboveIsect);
      }
    }
    ColumnsLater(arena, isects[..], changes, w, h, y, rowStart + x, rowStart + (if x + 1 < w then x + 1 else w));
    x := x + 1;
  }

  /** The merge of one turn of the column loop: rectangle `ai` reaches down over run `ci`, whose points then point at it. */
  method MergeAt(arena0: seq<Rect>, isects: array<int>, changes: seq<Change>, w: int, h: int, y: int, rowStart: int,
                 x0: int, pos: int, ci: int, ai: int) returns (arena: seq<Rect>, x: int)
    requires Dims(w, h) && 1 <= y < h && rowStart == y * w && rowStart + w <= w * h && 0 <= x0 < w
    requires pos == ToPosition(x0, y, w) && w <= pos < w * h && x0 == ToX(w, pos) && y == ToY(w, pos)
    requires ColumnsSoFar(arena0, isects[..], changes, w, h, y, pos)
    requires isects[pos] == ci && ci != -1 && isects[pos - w] == ai && ai != -1
    requires arena0[ai].state == arena0[ci].state && arena0[ai].left == arena0[ci].left && arena0[ai].right == arena0[ci].right
    modifies isects
    ensures x0 < x <= w && ColumnsSoFar(arena, isects[..], changes, w, h, y, rowStart + x)
  {
    MergeDown(arena0, isects[..], changes, w, h, y, x0, pos, ci, ai);
    arena := arena0[ai := arena0[ai].(bottom := y)];
    x := PointRun(arena, isects, changes, w, h, y, rowStart, x0, pos, ai);
  }

  /** Phase two's facts up to a position hold up to any later one. */
  lemma ColumnsLater(arena: seq<Rect>, a: seq<int>, cs: seq<Change>, w: int, h: int, y: int, from: int, to: int)
    requires Dims(w, h) && ColumnsSoFar(arena, a, cs, w, h, y, from) && from <= to
    ensures ColumnsSoFar(arena, a, cs, w, h, y, to)
  {
  }

  /** The inner loop of a merge: the points of row `y` under the merged rectangle point at it. */
  method PointRun(arena: seq<Rect>, isects: array<int>, changes: seq<Change>, w: int, h: int, y: int, rowStart: int,
                  x0: int, pos0: int, ai: int) returns (x: int)
    requires Dims(w, h) && 1 <= y < h && rowStart == y * w && rowStart + w <= w * h
    requires 0 <= ai < |arena| && 0 <= arena[ai].left <= x0 <= arena[ai].right < w && arena[ai].top <= y <= arena[ai].bottom
    requires pos0 == ToPosition(x0, y, w) && ColumnsSoFar(arena, isects[..], changes, w, h, y, rowStart + x0)
    modifies isects
    ensures x == arena[ai].right + 1 && ColumnsSoFar(arena, isects[..], changes, w, h, y, rowStart + x)
  {
    x := x0;
    var pos := pos0;
    while x <= arena[ai].right
      invariant x0 <= x <= arena[ai].right + 1
      invariant pos == if x < w then ToPosition(x, y, w) else NPOS
      invariant ColumnsSoFar(arena, isects[..], changes, w, h, y, rowStart + x)
      decreases arena[ai].right - x
    {
      assert x < w && pos == rowStart + x;
      DivModUnique(w, pos, y, x);
      PointDown(arena, isects[..], changes, w, h, y, x, pos, ai);
      isects[pos] := ai;
      RightStepTo(w, h, x, y);
      x, pos := x + 1, RightOf(w, h, pos);
    }
  }

  /** Some cell of the scratch array points at rectangle `r` of the arena. */
  ghost predicate PointedAt(arena: seq<Rect>, isects: seq<int>, r: Rect)
    requires forall p | 0 <= p < |isects| :: -1 <= isects[p] < |arena|
  {
    exists p :: 0 <= p < |isects| && isects[p] != -1 && r == arena[isects[p]]
  }

  /** Last pass: each rectangle the scratch array points at, once, in position order. */
  method Unique(arena: seq<Rect>, isects: array<int>) returns (out: seq<Rect>)
    requires forall p | 0 <= p < isects.Length :: -1 <= isects[p] < |arena|
    ensures forall k | 0 <= k < |out| :: PointedAt(arena, isects[..], out[k])
    ensures forall p | 0 <= p < isects.Length :: isects[..][p] != -1 ==> arena[isects[..][p]] in out
  {
    var taken: seq<int> := [];
    ghost var where: seq<int> := [];
    out := [];
    var p := 0;
    while p < isects.Length
      invariant 0 <= p <= isects.Length && |taken| == |out| == |where|
      invariant forall k | 0 <= k < |out| :: 0 <= taken[k] < |arena| && out[k] == arena[taken[k]]
      invariant forall k | 0 <= k < |out| :: 0 <= where[k] < p && isects[where[k]] == taken[k]
      invariant forall q | 0 <= q < p && isects[q] != -1 :: isects[q] in taken
    {
      var isect := isects[p];
      if isect != -1 {
        if isect !in taken {
          taken, out, where := taken + [isect], out + [arena[isect]], where + [p];
        }
      }
      p := p + 1;
    }
    forall k | 0 <= k < |out|
      ensures PointedAt(arena, isects[..], out[k])
    {
      var q := where[k];
      assert isects[..][q] != -1 && out[k] == arena[isects[..][q]];
    }
    forall q | 0 <= q < isects.Length && isects[..][q] != -1
      ensures arena[isects[..][q]] in out
    {
      assert isects[q] in taken;
      var k :| 0 <= k < |taken| && taken[k] == isects[q];
      assert out[k] == arena[isects[q]];
    }
  }

  /** The rectangles cover exactly the changed points, each with the state it changes to. */
  ghost predicate Describes(out: seq<Rect>, cs: seq<Change>, w: int, h: int)
    requires Dims(w, h)
  {
    && Sound(out, cs, w, h)
    && forall p | p in ToMap(cs) :: exists k :: 0 <= k < |out| && Contains(out[k], ToX(w, p), ToY(w, p))
  }

  /**
   * The change list as rectangles: horizontal runs, then runs merged
   * downwards, then each rectangle once.
   */
  method CompressIntersections(changes: seq<Change>, w: int, h: int) returns (out: seq<Rect>)
    requires Dims(w, h) && Fits(changes, w, h)
    ensures Describes(out, changes, w, h)
  {
    var arena, isects := JoinRows(changes, w, h);
    arena := JoinColumns(arena, isects, changes, w, h);
    out := Unique(arena, isects);
    UniqueDescribes(arena, isects[..], out, changes, w, h);
  }

  /** Rectangles the scratch array points at, each kept at least once, describe the change list. */
  lemma UniqueDescribes(arena: seq<Rect>, cells: seq<int>, out: seq<Rect>, changes: seq<Change>, w: int, h: int)
    requires Dims(w, h) && Fits(changes, w, h) && |cells| == w * h
    requires Sound(arena, changes, w, h) && Assigned(cells, arena, changes, w)
    requires forall k | 0 <= k < |out| :: PointedAt(arena, cells, out[k])
    requires forall p | 0 <= p < |cells| :: cells[p] != -1 ==> arena[cells[p]] in out
    ensures Describes(out, changes, w, h)
  {
    forall k, x, y | 0 <= k < |out| && Contains(out[k], x, y)
      ensures 0 <= x < w && 0 <= y < h && TargetAt(changes, ToPosition(x, y, w)) == out[k].state
    {
      assert PointedAt(arena, cells, out[k]);
      var p :| 0 <= p < |cells| && cells[p] != -1 && out[k] == arena[cells[p]];
      assert Contains(arena[cells[p]], x, y);
    }
    forall k | 0 <= k < |out|
      ensures Proper(out[k])
    {
      assert PointedAt(arena, cells, out[k]);
      var p :| 0 <= p < |cells| && cells[p] != -1 && out[k] == arena[cells[p]];
    }
    forall p | p in ToMap(changes)
      ensures exists k :: 0 <= k < |out| && Contains(out[k], ToX(w, p), ToY(w, p))
    {
      ToMapKeys(changes);
      assert 0 <= p < |cells|;
      var k :| 0 <= k < |out| && out[k] == arena[cells[p]];
      assert Contains(out[k], ToX(w, p), ToY(w, p));
    }
  }

  // ----- coordinates an SGF letter stands for -----

  /** A position whose column and row are both at most 51, the largest coordinate an SGF letter stands for. */
  predicate Lettered(w: int, pos: int)
    requires w >= 1
  {
    ToX(w, pos) <= 51 && ToY(w, pos) <= 51
  }

  predicate ChangesLettered(cs: seq<Change>, w: int)
    requires w >= 1
  {
    forall k | 0 <= k < |cs| :: Lettered(w, cs[k].pos)
  }

  /** Rectangles whose far corners, and so all their points, have letters. */
  predicate RectsLettered(rs: seq<Rect>) {
    forall j | 0 <= j < |rs| :: rs[j].right <= 51 && rs[j].bottom <= 51
  }

  /**
   * The rectangles describing a change list have lettered corners exactly
   * when every changed point is lettered: each corner is a changed point,
   * and each changed point lies up and left of some rectangle's far corner.
   */
  lemma DescribesLettered(out: seq<Rect>, cs: seq<Change>, w: int, h: int)
    requires Dims(w, h) && Describes(out, cs, w, h)
    ensures RectsLettered(out) <==> ChangesLettered(cs, w)
  {
    ToMapKeys(cs);
    if ChangesLettered(cs, w) {
      forall j | 0 <= j < |out|
        ensures out[j].right <= 51 && out[j].bottom <= 51
      {
        var r := out[j];
        assert Proper(r);
        assert Contains(r, r.right, r.bottom);
        var p := ToPosition(r.right, r.bottom, w);
        assert p in ToMap(cs);
        var k :| 0 <= k < |cs| && cs[k].pos == p;
        DivModUnique(w, p, r.bottom, r.right);
        assert Lettered(w, cs[k].pos);
      }
    }
    if RectsLettered(out) {
      forall k | 0 <= k < |cs|
        ensures Lettered(w, cs[k].pos)
      {
        var p := cs[k].pos;
        assert p in PosSet(cs);
        var j :| 0 <= j < |out| && Contains(out[j], ToX(w, p), ToY(w, p));
      }
    }
  }

  /** The state the last rectangle covering `(x, y)` sets there, or NO_CHANGE when none covers it. */
  function Paint(rs: seq<Rect>, x: int, y: int): (r: int)
    ensures r == NO_CHANGE || exists k :: 0 <= k < |rs| && Contains(rs[k], x, y) && r == rs[k].state
  {
    if rs == [] then NO_CHANGE
    else if Contains(rs[|rs| - 1], x, y) then rs[|rs| - 1].state
    else Paint(rs[..|rs| - 1], x, y)
  }

  lemma {:induction false} PaintSound(rs: seq<Rect>, cs: seq<Change>, w: int, h: int, x: int, y: int)
    requires Dims(w, h) && Sound(rs, cs, w, h)
    ensures Paint(rs, x, y) == if exists k :: 0 <= k < |rs| && Contains(rs[k], x, y) then TargetAt(cs, ToPosition(x, y, w)) else NO_CHANGE
  {
    if rs != [] {
      var init := rs[..|rs| - 1];
      assert Sound(init, cs, w, h) by {
        forall j, x', y' | 0 <= j < |init| && Contains(init[j], x', y')
          ensures 0 <= x' < w && 0 <= y' < h && TargetAt(cs, ToPosition(x', y', w)) == init[j].state
        {
          assert Contains(rs[j], x', y');
        }
      }
      if !Contains(rs[|rs| - 1], x, y) {
        PaintSound(init, cs, w, h, x, y);
        if exists k :: 0 <= k < |rs| && Contains(rs[k], x, y) {
          var k :| 0 <= k < |rs| && Contains(rs[k], x, y);
          assert Contains(init[k], x, y);
        }
      }
    }
  }

  /**
   * Painting the rectangles in order onto the points gives every point the
   * state the change list gives it, and leaves the unchanged points alone.
   */
  lemma PaintMatchesChanges(out: seq<Rect>, cs: seq<Change>, w: int, h: int, p: int)
    requires Dims(w, h) && Describes(out, cs, w, h) && 0 <= p < w * h
    ensures Paint(out, ToX(w, p), ToY(w, p)) == TargetAt(cs, p)
  {
    DivModFacts(w, p);
    assert ToPosition(ToX(w, p), ToY(w, p), w) == p;
    PaintSound(out, cs, w, h, ToX(w, p), ToY(w, p));
    if p !in ToMap(cs) {
      if exists k :: 0 <= k < |out| && Contains(out[k], ToX(w, p), ToY(w, p)) {
        var k :| 0 <= k < |out| && Contains(out[k], ToX(w, p), ToY(w, p));
        assert IsState(out[k].state);
      }
    }
  }

  /** A difference's own intersection changes, compressed. */
  method CompressedIntersectionChanges(d: BoardDiff, w: int, h: int) returns (out: seq<Rect>)
    requires Dims(w, h) && Fits(d.intersections, w, h)
    ensures Describes(out, d.intersections, w, h)
  {
    out := CompressIntersections(d.intersections, w, h);
  }
}
