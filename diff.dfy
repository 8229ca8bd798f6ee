/**
 * Board differences: a list of intersection changes sorted by position,
 * each `{pos, oldState, newState}`, and an optional turn change.  A sorted
 * list stands for a map from position to change; the lemmas below say
 * what recording, merging and applying a difference do to that map and to
 * a board.
 */
module Diffs {
  import opened Stones
  import opened Geometry
  import opened Wrappers
  import Seqs
  import opened Boards
  import opened Rules

  datatype Change = Change(pos: int, oldState: int, newState: int)
  datatype TurnChange = TurnChange(oldTurn: int, newTurn: int)

  predicate StrictlySorted(s: seq<Change>) {
    forall i, j :: 0 <= i < j < |s| ==> s[i].pos < s[j].pos
  }

  /** The positions a change list mentions. */
  function PosSet(s: seq<Change>): set<int> {
    set i | 0 <= i < |s| :: s[i].pos
  }

  /** The change list read as a map from position to change (a later entry for a position wins). */
  function ToMap(s: seq<Change>): (m: map<int, Change>)
    decreases |s|
  {
    if s == [] then map[] else ToMap(s[..|s| - 1])[s[|s| - 1].pos := s[|s| - 1]]
  }

  // ----- the map a change list stands for -----

  lemma {:induction false} ToMapKeys(s: seq<Change>)
    ensures ToMap(s).Keys == PosSet(s)
    ensures forall p :: p in ToMap(s) ==> ToMap(s)[p].pos == p
    decreases |s|
  {
    if s != [] {
      var init := s[..|s| - 1];
      ToMapKeys(init);
      assert PosSet(s) == PosSet(init) + {s[|s| - 1].pos} by {
        forall p | p in PosSet(s) ensures p in PosSet(init) + {s[|s| - 1].pos} {
          var i :| 0 <= i < |s| && s[i].pos == p;
          if i < |s| - 1 { assert init[i].pos == p; }
        }
        forall p | p in PosSet(init) ensures p in PosSet(s) {
          var i :| 0 <= i < |init| && init[i].pos == p;
          assert s[i].pos == p;
        }
      }
    }
  }

  /** A list's map is the union of the maps of its two halves, the later half winning. */
  lemma {:induction false} ToMapConcat(a: seq<Change>, b: seq<Change>)
    ensures ToMap(a + b) == ToMap(a) + ToMap(b)
    decreases |b|
  {
    if b == [] {
      assert a + b == a;
    } else {
      var init := b[..|b| - 1];
      ToMapConcat(a, init);
      assert (a + b)[..|a + b| - 1] == a + init;
      assert (a + b)[|a + b| - 1] == b[|b| - 1];
    }
  }

  /** In a strictly sorted list every entry is the map's value at its position. */
  lemma {:induction false} ToMapSorted(s: seq<Change>, i: int)
    requires StrictlySorted(s) && 0 <= i < |s|
    ensures s[i].pos in ToMap(s) && ToMap(s)[s[i].pos] == s[i]
  {
    var a, b := s[..i + 1], s[i + 1..];
    Seqs.SplitAt(s, i + 1);
    ToMapConcat(a, b);
    ToMapKeys(b);
    forall k | 0 <= k < |b| ensures b[k].pos != s[i].pos {
      assert b[k] == s[i + 1 + k];
    }
    assert s[i].pos !in PosSet(b);
    assert a[|a| - 1] == s[i];
  }

  // ----- recording one change -----

  /**
   * The recorded difference after a further change at `pos` from
   * `oldState` to `newState`: a new entry when `pos` had none; otherwise
   * the entry keeps its first old state and takes the new state, and it
   * disappears when that brings the point back to its first old state.
   */
  function AddedChange(m: map<int, Change>, pos: int, oldState: int, newState: int): map<int, Change> {
    if pos !in m then m[pos := Change(pos, oldState, newState)]
    else if m[pos].oldState == newState then m - {pos}
    else m[pos := m[pos].(newState := newState)]
  }

  // ----- applying a difference to a plain list of cells -----

  /** Every change's old state is the state `c` holds at its position. */
  predicate ConsistentWith(m: map<int, Change>, c: seq<int>) {
    forall p :: p in m ==> 0 <= p < |c| && m[p].oldState == c[p]
  }

  /** No change leaves its point as it was. */
  predicate NoIdleChange(m: map<int, Change>) {
    forall p :: p in m ==> m[p].oldState != m[p].newState
  }

  function ApplyMap(c: seq<int>, m: map<int, Change>): (r: seq<int>)
    ensures |r| == |c|
  {
    seq(|c|, q requires 0 <= q < |c| => if q in m then m[q].newState else c[q])
  }

  function ApplyInverseMap(c: seq<int>, m: map<int, Change>): (r: seq<int>)
    ensures |r| == |c|
  {
    seq(|c|, q requires 0 <= q < |c| => if q in m then m[q].oldState else c[q])
  }

  /**
   * Recording keeps the difference exact: if `m` takes the original cells
   * `c0` to the current cells, then after the board changes `pos` from its
   * current state to `newState` the recorded difference takes `c0` to the
   * new board, still starts from `c0`, and holds no idle entry if it held
   * none and the change is a real one.
   */
  lemma AddedChangeTracksBoard(c0: seq<int>, m: map<int, Change>, pos: int, newState: int)
    requires ConsistentWith(m, c0) && 0 <= pos < |c0|
    requires forall p :: p in m ==> m[p].pos == p
    ensures var cur := ApplyMap(c0, m);
      var m2 := AddedChange(m, pos, cur[pos], newState);
      && ConsistentWith(m2, c0)
      && ApplyMap(c0, m2) == cur[pos := newState]
      && (NoIdleChange(m) && cur[pos] != newState ==> NoIdleChange(m2))
  {
    var cur := ApplyMap(c0, m);
    var m2 := AddedChange(m, pos, cur[pos], newState);
    assert ApplyMap(c0, m2) == cur[pos := newState] by {
      forall q | 0 <= q < |c0|
        ensures ApplyMap(c0, m2)[q] == cur[pos := newState][q]
      {
      }
    }
  }

  // ----- whole-board difference -----

  /** The state at `pos` of a `nw`-wide board read from a smaller or larger `ow` x `oh` board; EMPTY outside it. */
  function ResizedState(ow: int, oh: int, oc: seq<int>, nw: int, pos: int): int
    requires nw >= 1 && pos >= 0 && |oc| == ow * oh
  {
    var x, y := pos % nw, pos / nw;
    if x < ow && y < oh then
      PositionInRange(x, y, ow, oh);
      oc[ToPosition(x, y, ow)]
    else EMPTY
  }

  /** The old board laid out on the new board's grid. */
  function Resized(ow: int, oh: int, oc: seq<int>, nw: int, nh: int): (r: seq<int>)
    requires Dims(nw, nh) && |oc| == ow * oh
    ensures |r| == nw * nh
  {
    seq(nw * nh, p requires 0 <= p < nw * nh => ResizedState(ow, oh, oc, nw, p))
  }

  /** The changes of the points below `k` that differ between the resized old board and `nc`. */
  function DiffMapUpTo(oc: seq<int>, nc: seq<int>, k: int): map<int, Change>
    requires |oc| == |nc|
  {
    map p | 0 <= p < k && p < |nc| && oc[p] != nc[p] :: Change(p, oc[p], nc[p])
  }

  lemma PositionInRange(x: int, y: int, w: int, h: int)
    requires 0 <= x < w && 0 <= y < h
    ensures 0 <= ToPosition(x, y, w) < w * h
  {
    assert y * w <= (h - 1) * w by { MulMono(y, h - 1, w); }
  }

  /** The whole-board difference takes the old board to the new one and records its old states. */
  lemma DiffIsExact(oc: seq<int>, nc: seq<int>)
    requires |oc| == |nc|
    ensures var m := DiffMapUpTo(oc, nc, |nc|);
      ApplyMap(oc, m) == nc && ConsistentWith(m, oc) && NoIdleChange(m)
  {
  }

  // ----- merging two differences -----

  /**
   * The difference "first `ma`, then `mb`": a point changed by one of them
   * keeps that change; a point changed by both goes from the first old
   * state to the second new state, and is dropped when those are equal.
   */
  function MergeMaps(ma: map<int, Change>, mb: map<int, Change>): map<int, Change> {
    map p | p in ma.Keys + mb.Keys && !(p in ma && p in mb && ma[p].oldState == mb[p].newState) ::
      if p in ma && p in mb then Change(ma[p].pos, ma[p].oldState, mb[p].newState)
      else if p in ma then ma[p] else mb[p]
  }

  /** Merging composes: applying the merge is applying the first difference and then the second. */
  lemma MergeComposes(c: seq<int>, ma: map<int, Change>, mb: map<int, Change>)
    requires ConsistentWith(ma, c) && ConsistentWith(mb, ApplyMap(c, ma))
    ensures ConsistentWith(MergeMaps(ma, mb), c)
    ensures ApplyMap(c, MergeMaps(ma, mb)) == ApplyMap(ApplyMap(c, ma), mb)
  {
  }

  /** The turn change "first `a`, then `b`". */
  function MergeTurn(a: Option<TurnChange>, b: Option<TurnChange>): Option<TurnChange> {
    if a.None? then b
    else if b.None? then a
    else if a.value.oldTurn != b.value.newTurn then Some(TurnChange(a.value.oldTurn, b.value.newTurn))
    else None
  }

  function ApplyTurnValue(t: int, change: Option<TurnChange>): int {
    if change.Some? then change.value.newTurn else t
  }

  /** Merged turn changes compose when the first starts from the current turn. */
  lemma MergeTurnComposes(t: int, a: Option<TurnChange>, b: Option<TurnChange>)
    requires a.Some? ==> a.value.oldTurn == t
    ensures ApplyTurnValue(t, MergeTurn(a, b)) == ApplyTurnValue(ApplyTurnValue(t, a), b)
    ensures MergeTurn(a, b).Some? ==> MergeTurn(a, b).value.oldTurn == (if a.Some? then t else b.value.oldTurn)
  {
  }

  /** The two-pointer merge of two sorted change lists: sorted, and standing for the merged map. */
  method MergeIntersections(a: seq<Change>, b: seq<Change>) returns (r: seq<Change>)
    requires StrictlySorted(a) && StrictlySorted(b)
    ensures StrictlySorted(r)
    ensures ToMap(r) == MergeMaps(ToMap(a), ToMap(b))
  {
    r := [];
    var i, j := 0, 0;
    while i < |a| && j < |b|
      invariant 0 <= i <= |a| && 0 <= j <= |b|
      invariant MergeProgress(a, b, i, j, r)
      decreases |a| - i + |b| - j
    {
      if a[i].pos < b[j].pos {
        MergeTakeA(a, b, i, j, r);
        r := r + [a[i]];
        i := i + 1;
      } else if b[j].pos < a[i].pos {
        MergeTakeB(a, b, i, j, r);
        r := r + [b[j]];
        j := j + 1;
      } else {
        if a[i].oldState != b[j].newState {
          MergeTakeBoth(a, b, i, j, r);
          r := r + [Change(a[i].pos, a[i].oldState, b[j].newState)];
        } else {
          MergeDropBoth(a, b, i, j, r);
        }
        i := i + 1;
        j := j + 1;
      }
    }
    r := MergeTail(a, b, i, j, r);
    MergeDone(a, b, r);
  }

  /** The merge's last two loops: what is left of whichever list is not used up is appended. */
  method MergeTail(a: seq<Change>, b: seq<Change>, i0: int, j0: int, r0: seq<Change>) returns (r: seq<Change>)
    requires MergeProgress(a, b, i0, j0, r0) && (i0 == |a| || j0 == |b|)
    ensures MergeProgress(a, b, |a|, |b|, r)
  {
    r := r0;
    var i, j := i0, j0;
    while i < |a|
      invariant 0 <= i <= |a| && (i < |a| ==> j == |b|)
      invariant MergeProgress(a, b, i, j, r)
    {
      MergeTakeA(a, b, i, j, r);
      r := r + [a[i]];
      i := i + 1;
    }
    while j < |b|
      invariant 0 <= j <= |b| && (j < |b| ==> i == |a|)
      invariant MergeProgress(a, b, i, j, r)
    {
      MergeTakeB(a, b, i, j, r);
      r := r + [b[j]];
      j := j + 1;
    }
  }

  /** A merge that has consumed both lists is the whole answer. */
  lemma MergeDone(a: seq<Change>, b: seq<Change>, r: seq<Change>)
    requires MergeProgress(a, b, |a|, |b|, r)
    ensures StrictlySorted(r) && ToMap(r) == MergeMaps(ToMap(a), ToMap(b))
  {
    Seqs.TakeAll(a);
    Seqs.TakeAll(b);
  }

  /**
   * The loop state of the merge: `r` is sorted, stands for the merge of
   * the two consumed prefixes, and lies below every position still to come.
   */
  ghost predicate MergeProgress(a: seq<Change>, b: seq<Change>, i: int, j: int, r: seq<Change>) {
    && StrictlySorted(a) && StrictlySorted(b) && 0 <= i <= |a| && 0 <= j <= |b|
    && StrictlySorted(r)
    && ToMap(r) == MergeMaps(ToMap(a[..i]), ToMap(b[..j]))
    && (forall k :: 0 <= k < |r| && i < |a| ==> r[k].pos < a[i].pos)
    && (forall k :: 0 <= k < |r| && j < |b| ==> r[k].pos < b[j].pos)
    && (forall k :: 0 <= k < i && j < |b| ==> a[k].pos < b[j].pos)
    && (forall k :: 0 <= k < j && i < |a| ==> b[k].pos < a[i].pos)
  }

  /** Facts about the consumed prefixes every step uses: their maps and their positions below the next ones. */
  lemma PrefixFacts(s: seq<Change>, i: int)
    requires StrictlySorted(s) && 0 <= i < |s|
    ensures ToMap(s[..i + 1]) == ToMap(s[..i])[s[i].pos := s[i]]
    ensures s[i].pos !in ToMap(s[..i])
  {
    assert s[..i + 1][..i] == s[..i];
    ToMapKeys(s[..i]);
  }

  lemma AppendToMap(r: seq<Change>, x: Change)
    ensures ToMap(r + [x]) == ToMap(r)[x.pos := x]
  {
    assert (r + [x])[..|r|] == r;
  }

  /** The positions of one list lie below a bound, so the bound is not among its map's keys. */
  lemma BelowNotKey(s: seq<Change>, p: int)
    requires forall k :: 0 <= k < |s| ==> s[k].pos < p
    ensures p !in ToMap(s)
  {
    ToMapKeys(s);
  }

  lemma MergeAddLeft(ma: map<int, Change>, mb: map<int, Change>, x: Change)
    requires x.pos !in ma && x.pos !in mb
    ensures MergeMaps(ma[x.pos := x], mb) == MergeMaps(ma, mb)[x.pos := x]
  {
  }

  lemma MergeAddRight(ma: map<int, Change>, mb: map<int, Change>, x: Change)
    requires x.pos !in ma && x.pos !in mb
    ensures MergeMaps(ma, mb[x.pos := x]) == MergeMaps(ma, mb)[x.pos := x]
  {
  }

  lemma MergeAddBoth(ma: map<int, Change>, mb: map<int, Change>, x: Change, y: Change)
    requires x.pos == y.pos && x.pos !in ma && x.pos !in mb
    ensures MergeMaps(ma[x.pos := x], mb[y.pos := y]) ==
      if x.oldState == y.newState then MergeMaps(ma, mb)
      else MergeMaps(ma, mb)[x.pos := Change(x.pos, x.oldState, y.newState)]
  {
  }

  lemma MergeTakeA(a: seq<Change>, b: seq<Change>, i: int, j: int, r: seq<Change>)
    requires MergeProgress(a, b, i, j, r) && i < |a| && (j < |b| ==> a[i].pos < b[j].pos)
    ensures MergeProgress(a, b, i + 1, j, r + [a[i]])
  {
    PrefixFacts(a, i);
    BelowNotKey(b[..j], a[i].pos);
    AppendToMap(r, a[i]);
    MergeAddLeft(ToMap(a[..i]), ToMap(b[..j]), a[i]);
  }

  lemma MergeTakeB(a: seq<Change>, b: seq<Change>, i: int, j: int, r: seq<Change>)
    requires MergeProgress(a, b, i, j, r) && j < |b| && (i < |a| ==> b[j].pos < a[i].pos)
    ensures MergeProgress(a, b, i, j + 1, r + [b[j]])
  {
    PrefixFacts(b, j);
    BelowNotKey(a[..i], b[j].pos);
    AppendToMap(r, b[j]);
    MergeAddRight(ToMap(a[..i]), ToMap(b[..j]), b[j]);
  }

  lemma MergeTakeBoth(a: seq<Change>, b: seq<Change>, i: int, j: int, r: seq<Change>)
    requires MergeProgress(a, b, i, j, r) && i < |a| && j < |b| && a[i].pos == b[j].pos
    requires a[i].oldState != b[j].newState
    ensures MergeProgress(a, b, i + 1, j + 1, r + [Change(a[i].pos, a[i].oldState, b[j].newState)])
  {
    var x := Change(a[i].pos, a[i].oldState, b[j].newState);
    PrefixFacts(a, i);
    PrefixFacts(b, j);
    AppendToMap(r, x);
    MergeAddBoth(ToMap(a[..i]), ToMap(b[..j]), a[i], b[j]);
    SortedStep(a, b, i, j);
  }

  /** After both lists move past a shared position, every consumed position lies below both next ones. */
  lemma SortedStep(a: seq<Change>, b: seq<Change>, i: int, j: int)
    requires StrictlySorted(a) && StrictlySorted(b) && 0 <= i < |a| && 0 <= j < |b| && a[i].pos == b[j].pos
    ensures forall k :: 0 <= k < i + 1 && j + 1 < |b| ==> a[k].pos < b[j + 1].pos
    ensures forall k :: 0 <= k < j + 1 && i + 1 < |a| ==> b[k].pos < a[i + 1].pos
  {
  }

  lemma MergeDropBoth(a: seq<Change>, b: seq<Change>, i: int, j: int, r: seq<Change>)
    requires MergeProgress(a, b, i, j, r) && i < |a| && j < |b| && a[i].pos == b[j].pos
    requires a[i].oldState == b[j].newState
    ensures MergeProgress(a, b, i + 1, j + 1, r)
  {
    PrefixFacts(a, i);
    PrefixFacts(b, j);
    MergeAddBoth(ToMap(a[..i]), ToMap(b[..j]), a[i], b[j]);
    SortedStep(a, b, i, j);
  }

  // ----- editing a sorted list in place -----

  /** Updating a key the right-hand map does not have commutes with the union. */
  lemma UnionUpdate(x: map<int, Change>, y: map<int, Change>, p: int, c: Change)
    requires p !in y
    ensures x[p := c] + y == (x + y)[p := c]
  {
  }

  lemma UpdateRemove(m: map<int, Change>, p: int, c: Change)
    requires p !in m
    ensures m[p := c] - {p} == m
  {
  }

  /** The map of `a + [c] + b` is the map of `a + b` with `c` added, when `b` does not mention `c`'s position. */
  lemma SpliceMap(a: seq<Change>, c: Change, b: seq<Change>)
    requires c.pos !in PosSet(b)
    ensures ToMap(a + [c] + b) == ToMap(a + b)[c.pos := c]
  {
    ToMapConcat(a + [c], b);
    ToMapConcat(a, b);
    AppendToMap(a, c);
    ToMapKeys(b);
    UnionUpdate(ToMap(a), ToMap(b), c.pos, c);
  }

  lemma InsertSorted(s: seq<Change>, k: int, c: Change)
    requires StrictlySorted(s) && 0 <= k <= |s|
    requires forall i :: 0 <= i < k ==> s[i].pos < c.pos
    requires k < |s| ==> c.pos < s[k].pos
    ensures StrictlySorted(s[..k] + [c] + s[k..])
  {
    var r := s[..k] + [c] + s[k..];
    assert forall i :: 0 <= i < |r| ==> r[i] == if i < k then s[i] else if i == k then c else s[i - 1];
    forall i, j | 0 <= i < j < |r|
      ensures r[i].pos < r[j].pos
    {
      if j > k && i < k { assert s[i].pos < c.pos < s[k].pos <= s[j - 1].pos; }
      if j > k && i == k { assert c.pos < s[k].pos <= s[j - 1].pos; }
    }
  }

  /** No entry from `k` on in a sorted list is at a position below `s[k]`'s. */
  lemma SuffixAbove(s: seq<Change>, k: int, p: int)
    requires StrictlySorted(s) && 0 <= k <= |s| && (k < |s| ==> p < s[k].pos)
    ensures p !in PosSet(s[k..])
  {
    forall i | 0 <= i < |s[k..]|
      ensures s[k..][i].pos != p
    {
      assert s[k..][i] == s[k + i];
    }
  }

  /** No entry before `k` in a sorted list is at `s[k]`'s position, nor any after it. */
  lemma SplitAround(s: seq<Change>, k: int)
    requires StrictlySorted(s) && 0 <= k < |s|
    ensures s == s[..k] + [s[k]] + s[k + 1..]
    ensures s[k].pos !in PosSet(s[..k]) && s[k].pos !in PosSet(s[k + 1..])
  {
    var t := s[k + 1..];
    forall i | 0 <= i < |t|
      ensures t[i].pos != s[k].pos
    {
      assert t[i] == s[k + 1 + i];
    }
  }

  lemma InsertKeepsSorted(s: seq<Change>, k: int, c: Change)
    requires StrictlySorted(s) && 0 <= k <= |s|
    requires forall i :: 0 <= i < k ==> s[i].pos < c.pos
    requires k < |s| ==> c.pos < s[k].pos
    ensures StrictlySorted(s[..k] + [c] + s[k..])
    ensures ToMap(s[..k] + [c] + s[k..]) == ToMap(s)[c.pos := c]
  {
    InsertSorted(s, k, c);
    var a, b := s[..k], s[k..];
    assert a + b == s;
    SuffixAbove(s, k, c.pos);
    SpliceMap(a, c, b);
  }

  lemma DeleteSorted(s: seq<Change>, k: int)
    requires StrictlySorted(s) && 0 <= k < |s|
    ensures StrictlySorted(s[..k] + s[k + 1..])
  {
    var r := s[..k] + s[k + 1..];
    assert forall i :: 0 <= i < |r| ==> r[i] == if i < k then s[i] else s[i + 1];
  }

  lemma DeleteKeepsSorted(s: seq<Change>, k: int)
    requires StrictlySorted(s) && 0 <= k < |s|
    ensures StrictlySorted(s[..k] + s[k + 1..])
    ensures ToMap(s[..k] + s[k + 1..]) == ToMap(s) - {s[k].pos}
  {
    DeleteSorted(s, k);
    SplitAround(s, k);
    DeleteMap(s[..k], s[k], s[k + 1..]);
  }

  /** Leaving `c` out of `a + [c] + b` removes its position from the map, when `a` and `b` do not mention it. */
  lemma DeleteMap(a: seq<Change>, c: Change, b: seq<Change>)
    requires c.pos !in PosSet(a) && c.pos !in PosSet(b)
    ensures ToMap(a + b) == ToMap(a + [c] + b) - {c.pos}
  {
    SpliceMap(a, c, b);
    ToMapConcat(a, b);
    ToMapKeys(a);
    ToMapKeys(b);
    UpdateRemove(ToMap(a + b), c.pos, c);
  }

  lemma UpdateKeepsSorted(s: seq<Change>, k: int, c: Change)
    requires StrictlySorted(s) && 0 <= k < |s| && c.pos == s[k].pos
    ensures StrictlySorted(s[k := c])
    ensures ToMap(s[k := c]) == ToMap(s)[c.pos := c]
  {
    SplitAround(s, k);
    assert s[k := c] == s[..k] + [c] + s[k + 1..];
    SpliceMap(s[..k], s[k], s[k + 1..]);
    SpliceMap(s[..k], c, s[k + 1..]);
  }

  /** A position missing from a sorted list is not one of its keys. */
  lemma AbsentNotKey(s: seq<Change>, k: int, pos: int)
    requires StrictlySorted(s) && 0 <= k <= |s|
    requires forall i :: 0 <= i < k ==> s[i].pos < pos
    requires k < |s| ==> pos < s[k].pos
    ensures pos !in ToMap(s)
  {
    ToMapKeys(s);
    assert pos !in PosSet(s);
  }

  // ----- applying a list on a board, with old states re-read from the board -----

  /** The list with every old state replaced by what `c` holds at that position. */
  function Corrected(s: seq<Change>, c: seq<int>): (r: seq<Change>)
    requires forall i :: 0 <= i < |s| ==> 0 <= s[i].pos < |c|
    ensures |r| == |s|
  {
    seq(|s|, i requires 0 <= i < |s| => s[i].(oldState := c[s[i].pos]))
  }

  /**
   * The corrected list starts from `c`, changes the points the list
   * changes into the same states, and stays sorted.
   */
  lemma {:induction false} CorrectedMap(s: seq<Change>, c: seq<int>)
    requires forall i :: 0 <= i < |s| ==> 0 <= s[i].pos < |c|
    ensures ToMap(Corrected(s, c)).Keys == ToMap(s).Keys
    ensures forall p :: p in ToMap(s) && 0 <= p < |c| ==> ToMap(Corrected(s, c))[p] == ToMap(s)[p].(oldState := c[p])
    ensures StrictlySorted(s) ==> StrictlySorted(Corrected(s, c))
    decreases |s|
  {
    ToMapKeys(s);
    if s != [] {
      var init := s[..|s| - 1];
      CorrectedMap(init, c);
      assert Corrected(s, c)[..|s| - 1] == Corrected(init, c);
    }
  }

  /** Applying a difference that starts from `c` and then its inverse gives `c` back. */
  lemma ApplyThenInverse(c: seq<int>, m: map<int, Change>)
    requires ConsistentWith(m, c)
    ensures ApplyInverseMap(ApplyMap(c, m), m) == c
  {
  }

  /**
   * The round trip of `applyTo` and `applyInverseTo`: after applying a
   * sorted list, which corrects its old states to the board's, applying
   * the corrected list inversely restores the board.
   */
  lemma ApplyRoundTrip(c: seq<int>, s: seq<Change>)
    requires forall i :: 0 <= i < |s| ==> 0 <= s[i].pos < |c|
    ensures ApplyMap(c, ToMap(Corrected(s, c))) == ApplyMap(c, ToMap(s))
    ensures ApplyInverseMap(ApplyMap(c, ToMap(s)), ToMap(Corrected(s, c))) == c
  {
    CorrectedConsistent(s, c);
    CorrectedSameEffect(s, c);
    ApplyThenInverse(c, ToMap(Corrected(s, c)));
  }

  lemma CorrectedConsistent(s: seq<Change>, c: seq<int>)
    requires forall i :: 0 <= i < |s| ==> 0 <= s[i].pos < |c|
    ensures ConsistentWith(ToMap(Corrected(s, c)), c)
  {
    CorrectedMap(s, c);
    ToMapKeys(s);
  }

  lemma CorrectedSameEffect(s: seq<Change>, c: seq<int>)
    requires forall i :: 0 <= i < |s| ==> 0 <= s[i].pos < |c|
    ensures ApplyMap(c, ToMap(Corrected(s, c))) == ApplyMap(c, ToMap(s))
  {
    CorrectedMap(s, c);
  }

  /** The effect of one step of the apply loop on the map of the consumed prefix. */
  lemma ApplyStep(c0: seq<int>, s: seq<Change>, i: int)
    requires StrictlySorted(s) && 0 <= i < |s| && 0 <= s[i].pos < |c0|
    ensures ApplyMap(c0, ToMap(s[..i + 1])) == ApplyMap(c0, ToMap(s[..i]))[s[i].pos := s[i].newState]
    ensures ApplyMap(c0, ToMap(s[..i]))[s[i].pos] == c0[s[i].pos]
    ensures ApplyInverseMap(c0, ToMap(s[..i + 1])) == ApplyInverseMap(c0, ToMap(s[..i]))[s[i].pos := s[i].oldState]
    ensures ApplyInverseMap(c0, ToMap(s[..i]))[s[i].pos] == c0[s[i].pos]
  {
    PrefixFacts(s, i);
  }

  class BoardDiff {
    var turn: Option<TurnChange>
    /** Sorted by position; the program's null list is the empty list here. */
    var intersections: seq<Change>

    ghost predicate Valid()
      reads this
    {
      StrictlySorted(intersections)
    }

    constructor(turnChange: Option<TurnChange>, intersectionChanges: seq<Change>)
      ensures turn == turnChange && intersections == intersectionChanges
    {
      turn := turnChange;
      intersections := intersectionChanges;
    }

    /**
     * Records that `pos` went from `oldState` to `newState`: the list stays
     * sorted and stands for the recorded change added to what was there.
     */
    method AddIntersectionChange(pos: int, oldState: int, newState: int)
      requires Valid()
      modifies this
      ensures Valid() && turn == old(turn)
      ensures ToMap(intersections) == AddedChange(old(ToMap(intersections)), pos, oldState, newState)
    {
      var index := 0;
      while index < |intersections| && intersections[index].pos < pos
        invariant 0 <= index <= |intersections|
        invariant forall k :: 0 <= k < index ==> intersections[k].pos < pos
      {
        index := index + 1;
      }
      if index == |intersections| || pos < intersections[index].pos {
        AbsentNotKey(intersections, index, pos);
        InsertKeepsSorted(intersections, index, Change(pos, oldState, newState));
        intersections := intersections[..index] + [Change(pos, oldState, newState)] + intersections[index..];
      } else if intersections[index].oldState == newState {
        ToMapSorted(intersections, index);
        DeleteKeepsSorted(intersections, index);
        intersections := intersections[..index] + intersections[index + 1..];
      } else {
        ToMapSorted(intersections, index);
        UpdateKeepsSorted(intersections, index, intersections[index].(newState := newState));
        intersections := intersections[index := intersections[index].(newState := newState)];
      }
    }

    /** Records a turn change, or none when the turn stays the same. */
    method SetTurnChange(oldTurn: int, newTurn: int)
      modifies this
      ensures intersections == old(intersections)
      ensures turn.Some? <==> oldTurn != newTurn
      ensures turn.Some? ==> turn.value.oldTurn == oldTurn
      ensures ApplyTurnValue(oldTurn, turn) == newTurn
    {
      turn := if oldTurn != newTurn then Some(TurnChange(oldTurn, newTurn)) else None;
    }

    /**
     * Applies the difference and corrects its old states to what the board
     * held: the turn first, then the intersections in list order.
     */
    method ApplyTo(board: Board)
      requires Valid() && board.Valid() && ChangesFit(board.w, board.h, intersections)
      modifies this, board, board.intersections
      ensures Valid() && board.Valid() && board.intersections == old(board.intersections)
      ensures board.cells == ApplyMap(old(board.cells), ToMap(old(intersections)))
      ensures board.turn == ApplyTurnValue(old(board.turn), old(turn))
      ensures board.prisoners == old(board.prisoners) && board.koPos == old(board.koPos)
      ensures intersections == Corrected(old(intersections), old(board.cells))
      ensures turn == if old(turn).Some? then Some(old(turn).value.(oldTurn := old(board.turn))) else None
    {
      turn := ApplyTurn(board, turn);
      intersections := ApplyIntersections(board, intersections);
    }

    /** Puts back every old state and the old turn, in list order. */
    method ApplyInverseTo(board: Board)
      requires Valid() && board.Valid() && ChangesFit(board.w, board.h, intersections)
      requires forall i :: 0 <= i < |intersections| ==> IsState(intersections[i].oldState)
      modifies board, board.intersections
      ensures board.Valid() && board.intersections == old(board.intersections)
      ensures board.cells == ApplyInverseMap(old(board.cells), ToMap(intersections))
      ensures board.turn == if turn.Some? then turn.value.oldTurn else old(board.turn)
      ensures board.prisoners == old(board.prisoners) && board.koPos == old(board.koPos)
    {
      if turn.Some? {
        board.SetTurn(turn.value.oldTurn);
      }
      ghost var c0 := board.cells;
      var i := 0;
      while i < |intersections|
        invariant 0 <= i <= |intersections|
        invariant board.Valid() && board.intersections == old(board.intersections)
        invariant board.prisoners == old(board.prisoners) && board.koPos == old(board.koPos)
        invariant board.turn == if turn.Some? then turn.value.oldTurn else old(board.turn)
        invariant board.cells == ApplyInverseMap(c0, ToMap(intersections[..i]))
      {
        var c := intersections[i];
        ApplyStep(c0, intersections, i);
        WellFormedAfterSet(board.State(), c.pos, c.oldState);
        board.SetAt(c.pos, c.oldState);
        i := i + 1;
      }
      Seqs.TakeAll(intersections);
    }
  }

  /** Sets the turn a change leads to; returns the change with its old turn corrected to the board's. */
  method ApplyTurn(board: Board, t: Option<TurnChange>) returns (fixed: Option<TurnChange>)
    requires board.Valid()
    modifies board
    ensures board.Valid() && board.intersections == old(board.intersections)
    ensures board.cells == old(board.cells)
    ensures board.turn == ApplyTurnValue(old(board.turn), t)
    ensures board.prisoners == old(board.prisoners) && board.koPos == old(board.koPos)
    ensures fixed == if t.Some? then Some(t.value.(oldTurn := old(board.turn))) else None
  {
    fixed := t;
    if t.Some? {
      if board.turn != t.value.oldTurn {
        fixed := Some(t.value.(oldTurn := board.turn));
      }
      board.SetTurn(t.value.newTurn);
    }
  }

  /**
   * Writes each change's new state in list order; returns the list with
   * each old state corrected to what the board held.
   */
  method ApplyIntersections(board: Board, s: seq<Change>) returns (fixed: seq<Change>)
    requires StrictlySorted(s) && board.Valid() && ChangesFit(board.w, board.h, s)
    modifies board, board.intersections
    ensures board.Valid() && board.intersections == old(board.intersections)
    ensures board.cells == ApplyMap(old(board.cells), ToMap(s))
    ensures board.turn == old(board.turn)
    ensures board.prisoners == old(board.prisoners) && board.koPos == old(board.koPos)
    ensures StrictlySorted(fixed) && fixed == Corrected(s, old(board.cells))
  {
    ghost var c0 := board.cells;
    CorrectedMap(s, c0);
    ghost var cs := Corrected(s, c0);
    fixed := [];
    var i := 0;
    while i < |s|
      invariant 0 <= i <= |s| && |fixed| == i
      invariant board.Valid() && board.intersections == old(board.intersections)
      invariant board.prisoners == old(board.prisoners) && board.koPos == old(board.koPos)
      invariant board.turn == old(board.turn)
      invariant board.cells == ApplyMap(c0, ToMap(s[..i]))
      invariant fixed == cs[..i]
    {
      var c := s[i];
      ApplyStep(c0, s, i);
      var oldState := board.GetAt(c.pos);
      assert cs[i] == c.(oldState := oldState);
      Seqs.TakeNext(cs, i);
      fixed := fixed + [c.(oldState := oldState)];
      WellFormedAfterSet(board.State(), c.pos, c.newState);
      board.SetAt(c.pos, c.newState);
      i := i + 1;
    }
    Seqs.TakeAll(s);
    Seqs.TakeAll(cs);
  }

  /** Every change is on the `w` x `h` board and writes a real state. */
  predicate ChangesFit(w: int, h: int, s: seq<Change>) {
    forall i :: 0 <= i < |s| ==> OnBoard(w, h, s[i].pos) && IsState(s[i].newState)
  }

  // ----- the difference between two boards -----

  /** The turn change between two boards: none when the turn is the same. */
  function DiffTurn(oldTurn: int, newTurn: int): (t: Option<TurnChange>)
    ensures t.Some? <==> oldTurn != newTurn
    ensures t.Some? ==> t.value.oldTurn == oldTurn
    ensures ApplyTurnValue(oldTurn, t) == newTurn
  {
    if oldTurn != newTurn then Some(TurnChange(oldTurn, newTurn)) else None
  }

  /** The resized old board at point (x, y) of the new grid: the old board's state there, or empty outside it. */
  lemma ResizedAt(ow: int, oh: int, oc: seq<int>, nw: int, nh: int, x: int, y: int)
    requires Dims(nw, nh) && |oc| == ow * oh && 0 <= x < nw && 0 <= y < nh
    ensures 0 <= ToPosition(x, y, nw) < nw * nh
    ensures x < ow && y < oh ==> 0 <= ToPosition(x, y, ow) < |oc|
    ensures Resized(ow, oh, oc, nw, nh)[ToPosition(x, y, nw)] ==
      if x < ow && y < oh then oc[ToPosition(x, y, ow)] else EMPTY
  {
    PositionInRange(x, y, nw, nh);
    DivModUnique(nw, ToPosition(x, y, nw), y, x);
    if x < ow && y < oh {
      PositionInRange(x, y, ow, oh);
    }
  }

  /** One point of the scan: recording the point when it differs extends the scanned map by that point. */
  lemma ScanStep(oc: seq<int>, nc: seq<int>, r: seq<Change>, pos: int)
    requires |oc| == |nc| && 0 <= pos < |nc|
    requires StrictlySorted(r) && forall i :: 0 <= i < |r| ==> r[i].pos < pos
    requires ToMap(r) == DiffMapUpTo(oc, nc, pos)
    ensures var r' := if oc[pos] != nc[pos] then r + [Change(pos, oc[pos], nc[pos])] else r;
      && StrictlySorted(r') && (forall i :: 0 <= i < |r'| ==> r'[i].pos < pos + 1)
      && ToMap(r') == DiffMapUpTo(oc, nc, pos + 1)
  {
    DiffMapStep(oc, nc, pos);
    if oc[pos] != nc[pos] {
      AppendToMap(r, Change(pos, oc[pos], nc[pos]));
      AppendAbove(r, Change(pos, oc[pos], nc[pos]));
    }
  }

  /** Appending a change above every listed position keeps the list sorted. */
  lemma AppendAbove(r: seq<Change>, c: Change)
    requires StrictlySorted(r) && forall i :: 0 <= i < |r| ==> r[i].pos < c.pos
    ensures StrictlySorted(r + [c])
  {
    var r' := r + [c];
    assert forall i :: 0 <= i < |r| ==> r'[i] == r[i];
  }

  lemma DiffMapStep(oc: seq<int>, nc: seq<int>, pos: int)
    requires |oc| == |nc| && 0 <= pos < |nc|
    ensures DiffMapUpTo(oc, nc, pos + 1) ==
      if oc[pos] != nc[pos] then DiffMapUpTo(oc, nc, pos)[pos := Change(pos, oc[pos], nc[pos])]
      else DiffMapUpTo(oc, nc, pos)
  {
    var m0, m1 := DiffMapUpTo(oc, nc, pos), DiffMapUpTo(oc, nc, pos + 1);
    var m2 := if oc[pos] != nc[pos] then m0[pos := Change(pos, oc[pos], nc[pos])] else m0;
    assert m1.Keys == m2.Keys;
    assert forall p :: p in m1 ==> m1[p] == m2[p];
  }

  /**
   * The changes that take the old board, laid out on the new board's grid
   * (points outside the old board read as empty), to the new board: sorted
   * by position, one per point that differs, with its old and new state.
   */
  method DiffIntersections(oldBoard: Board, newBoard: Board) returns (r: seq<Change>)
    requires oldBoard.Valid() && newBoard.Valid()
    ensures StrictlySorted(r)
    ensures var oc := Resized(oldBoard.w, oldBoard.h, oldBoard.cells, newBoard.w, newBoard.h);
      && ToMap(r) == DiffMapUpTo(oc, newBoard.cells, newBoard.w * newBoard.h)
      && ApplyMap(oc, ToMap(r)) == newBoard.cells
      && ConsistentWith(ToMap(r), oc) && NoIdleChange(ToMap(r))
  {
    ghost var oc := Resized(oldBoard.w, oldBoard.h, oldBoard.cells, newBoard.w, newBoard.h);
    ghost var nc := newBoard.cells;
    r := [];
    var y := 0;
    while y < newBoard.h
      invariant 0 <= y <= newBoard.h
      invariant StrictlySorted(r) && forall i :: 0 <= i < |r| ==> r[i].pos < y * newBoard.w
      invariant ToMap(r) == DiffMapUpTo(oc, nc, y * newBoard.w)
    {
      r := DiffRow(oldBoard, newBoard, y, r);
      y := y + 1;
    }
    assert y * newBoard.w == |nc|;
    DiffIsExact(oc, nc);
  }

  /** The inner loop of the scan: row `y` of the new board, appended to the changes of the rows above. */
  method DiffRow(oldBoard: Board, newBoard: Board, y: int, r0: seq<Change>) returns (r: seq<Change>)
    requires oldBoard.Shaped() && newBoard.Shaped() && 0 <= y < newBoard.h
    requires StrictlySorted(r0) && forall i :: 0 <= i < |r0| ==> r0[i].pos < y * newBoard.w
    requires ToMap(r0) == DiffMapUpTo(Resized(oldBoard.w, oldBoard.h, oldBoard.cells, newBoard.w, newBoard.h), newBoard.cells, y * newBoard.w)
    ensures StrictlySorted(r) && forall i :: 0 <= i < |r| ==> r[i].pos < (y + 1) * newBoard.w
    ensures ToMap(r) == DiffMapUpTo(Resized(oldBoard.w, oldBoard.h, oldBoard.cells, newBoard.w, newBoard.h), newBoard.cells, (y + 1) * newBoard.w)
  {
    var ow, oh, nw, nh := oldBoard.w, oldBoard.h, newBoard.w, newBoard.h;
    ghost var oc := Resized(ow, oh, oldBoard.cells, nw, nh);
    ghost var nc := newBoard.cells;
    ghost var k := y * nw;
    r := r0;
    var x := 0;
    while x < nw
      invariant 0 <= x <= nw && k == y * nw + x
      invariant StrictlySorted(r) && forall i :: 0 <= i < |r| ==> r[i].pos < k
      invariant ToMap(r) == DiffMapUpTo(oc, nc, k)
    {
      r := DiffPoint(oldBoard, newBoard, x, y, k, r);
      x := x + 1;
      k := k + 1;
    }
    assert k == (y + 1) * nw;
  }

  /** One step of the scan: the change at point (`x`, `y`), numbered `k`, appended when the boards differ there. */
  method DiffPoint(oldBoard: Board, newBoard: Board, x: int, y: int, ghost k: int, r0: seq<Change>) returns (r: seq<Change>)
    requires oldBoard.Shaped() && newBoard.Shaped() && 0 <= x < newBoard.w && 0 <= y < newBoard.h && k == y * newBoard.w + x
    requires StrictlySorted(r0) && forall i :: 0 <= i < |r0| ==> r0[i].pos < k
    requires ToMap(r0) == DiffMapUpTo(Resized(oldBoard.w, oldBoard.h, oldBoard.cells, newBoard.w, newBoard.h), newBoard.cells, k)
    ensures StrictlySorted(r) && forall i :: 0 <= i < |r| ==> r[i].pos < k + 1
    ensures ToMap(r) == DiffMapUpTo(Resized(oldBoard.w, oldBoard.h, oldBoard.cells, newBoard.w, newBoard.h), newBoard.cells, k + 1)
  {
    var ow, oh, nw, nh := oldBoard.w, oldBoard.h, newBoard.w, newBoard.h;
    ghost var oc := Resized(ow, oh, oldBoard.cells, nw, nh);
    ghost var nc := newBoard.cells;
    var pos := ToPosition(x, y, nw);
    assert pos == k;
    ResizedAt(ow, oh, oldBoard.cells, nw, nh, x, y);
    ScanStep(oc, nc, r0, k);
    var oldState := EMPTY;
    if x < ow && y < oh {
      oldState := oldBoard.GetAt(ToPosition(x, y, ow));
    }
    var newState := newBoard.GetAt(pos);
    assert oldState == oc[k] && newState == nc[k];
    r := r0;
    if oldState != newState {
      r := r + [Change(pos, oldState, newState)];
    }
  }

  /** The difference from one board to another. */
  method Diff(oldBoard: Board, newBoard: Board) returns (d: BoardDiff)
    requires oldBoard.Valid() && newBoard.Valid()
    ensures fresh(d) && d.Valid()
    ensures d.turn == DiffTurn(oldBoard.turn, newBoard.turn)
    ensures ToMap(d.intersections) ==
      DiffMapUpTo(Resized(oldBoard.w, oldBoard.h, oldBoard.cells, newBoard.w, newBoard.h), newBoard.cells, newBoard.w * newBoard.h)
  {
    var changes := DiffIntersections(oldBoard, newBoard);
    d := new BoardDiff(DiffTurn(oldBoard.turn, newBoard.turn), changes);
  }

  /**
   * Merges two differences, the second recorded after the first; a missing
   * difference yields the other one itself.
   */
  method Merge(a: BoardDiff?, b: BoardDiff?) returns (r: BoardDiff?)
    requires a != null ==> a.Valid()
    requires b != null ==> b.Valid()
    ensures a == null ==> r == b
    ensures a != null && b == null ==> r == a
    ensures a != null && b != null ==>
      && r != null && r.Valid()
      && r.turn == MergeTurn(a.turn, b.turn)
      && ToMap(r.intersections) == MergeMaps(ToMap(a.intersections), ToMap(b.intersections))
  {
    if a == null {
      return b;
    }
    if b == null {
      return a;
    }
    var merged := MergeIntersections(a.intersections, b.intersections);
    r := new BoardDiff(MergeTurn(a.turn, b.turn), merged);
  }
}
