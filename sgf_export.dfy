/**
 * Writing a history tree as SGF.  The formatter receives the calls of the
 * tree walk and appends SGF text: a move is a node `;B[xy]` or `;W[]`, a
 * setup node is `;`, followed at the root by `GM[1]`, the board size and
 * the game information, a setup writes one `AB`, `AW` or `AE` property per
 * compressed rectangle and `PL` when it changes the side to move, and a
 * comment is `C[...]`.  A resignation writes nothing, not even a branch of
 * its own when it is a leaf.
 *
 * The text of a call depends on the rectangles the compression chose for
 * it, which are known only through what they describe, so the text is a
 * function of the calls and of one rectangle list per call.  The partner
 * of the formatter is the SGF reader: the text of a whole-tree walk reads
 * back as exactly one game tree, whose sequences and branches are those of
 * the history tree.
 */
module SgfExport {
  import opened Stones
  import opened Wrappers
  import opened Geometry
  import opened Diffs
  import opened HistoryNodes
  import opened History
  import opened TreeWalk
  import Seqs
  import Compression
  import Sgf = SgfParser
  import SgfText
  import TreeBase64
  import TreeString

  /** The game-information properties in the order they are written; GC is text, the others are written as simple text. */
  const GAME_INFO_IDS: seq<string> := [
    "CP", "US", "AN", "SO", "EV", "GN", "RO", "DT", "PC", "BT", "PB", "BR",
    "WT", "PW", "WR", "RU", "OT", "TM", "HA", "KM", "RE", "ON", "GC"]

  // ----- values -----

  /**
   * The letter of a coordinate: a-z for 0-25, A-Z for 26-51.  The program
   * throws past 51; the exporter checks its calls first and fails instead,
   * so the `?` is never written.
   */
  function PointLetter(n: int): char {
    if 0 <= n < 26 then (0x61 + n) as char
    else if 26 <= n < 52 then (0x41 - 26 + n) as char
    else '?'
  }

  lemma PointLetterAgrees(n: int)
    requires 0 <= n <= 51
    ensures SgfPoints.ToSGFPointLetter(n) == Success(PointLetter(n))
    ensures SgfPoints.IsPointLetter(PointLetter(n))
  {
  }

  function PointValue(x: int, y: int): string {
    [PointLetter(x), PointLetter(y)]
  }

  function PosValue(pos: int, w: int): string
    requires w >= 1
  {
    PointValue(ToX(w, pos), ToY(w, pos))
  }

  /** A rectangle: its top-left point, and ":" and its bottom-right point unless it is one point. */
  function RectValue(r: Compression.Rect): string {
    PointValue(r.left, r.top) +
    (if r.left != r.right || r.top != r.bottom then ":" + PointValue(r.right, r.bottom) else "")
  }

  function Digit(d: int): char
    requires 0 <= d < 10
  {
    ('0' as int + d) as char
  }

  /** A number in decimal. */
  function NatText(n: nat): (r: string)
    ensures r != [] && forall k | 0 <= k < |r| :: '0' <= r[k] <= '9'
  {
    if n < 10 then [Digit(n)] else NatText(n / 10) + [Digit(n % 10)]
  }

  /** The board size: one number for a square board, else width ":" height. */
  function SizeText(w: nat, h: nat): string {
    if w == h then NatText(w) else NatText(w) + ":" + NatText(h)
  }

  // ----- properties -----

  function InfoValue(id: string, v: string): string {
    if id == "GC" then SgfText.ToSGFText(v) else SgfText.ToSGFSimpleText(v)
  }

  /** The game-information properties among `ids` that the property table holds, in the order of `ids`. */
  function InfoProps(props: map<string, HistoryNodes.Property>, ids: seq<string>): seq<Sgf.Property> {
    if ids == [] then []
    else
      var id := ids[|ids| - 1];
      InfoProps(props, ids[..|ids| - 1]) + (if id in props then [Sgf.Property(id, [InfoValue(id, props[id].value)])] else [])
  }

  /** The properties of the root node: the game, the board size, then the game information. */
  function RootProps(node: Node, w: nat, h: nat): seq<Sgf.Property> {
    [Sgf.Property("GM", ["1"]), Sgf.Property("SZ", [SizeText(w, h)])] +
    (if node.props.Some? then InfoProps(node.props.value, GAME_INFO_IDS) else [])
  }

  /** A setup property: AB, AW or AE by the rectangle's state. */
  function RectProp(r: Compression.Rect): Sgf.Property {
    Sgf.Property("A" + SgfPoints.ToSGFColor(r.state), [RectValue(r)])
  }

  /** One setup property per rectangle. */
  function RectProps(rs: seq<Compression.Rect>): seq<Sgf.Property> {
    if rs == [] then [] else RectProps(rs[..|rs| - 1]) + [RectProp(rs[|rs| - 1])]
  }

  /** PL and the new side to move, when the setup changes it to a colour other than `turn`. */
  function TurnProps(setupTurn: Option<TurnChange>, turn: int): seq<Sgf.Property> {
    if setupTurn.Some? && setupTurn.value.newTurn != turn then [Sgf.Property("PL", [SgfPoints.ToSGFColor(setupTurn.value.newTurn)])]
    else []
  }

  predicate IsRootAt(nodes: seq<Node>, n: int) {
    0 <= n < |nodes| && nodes[n].IsRoot()
  }

  /** A resignation with no children: its branch is not written. */
  predicate ResignLeaf(nodes: seq<Node>, n: int) {
    0 <= n < |nodes| && nodes[n].IsResign() && nodes[n].nexts == []
  }

  /** The calls that begin an SGF node. */
  predicate StartsNode(c: Call) {
    c.PutPass? || c.PutPlace? || c.PutSetupNode?
  }

  /** The properties a call writes; `rs` is the compression of a setup call. */
  function CallProps(nodes: seq<Node>, c: Call, rs: seq<Compression.Rect>, w: nat, h: nat): seq<Sgf.Property>
    requires Dims(w, h)
  {
    match c
    case PutPass(turn) => [Sgf.Property(SgfPoints.ToSGFColor(turn), [""])]
    case PutPlace(pos, turn) => [Sgf.Property(SgfPoints.ToSGFColor(turn), [PosValue(pos, w)])]
    case PutSetupNode(n, _) => if IsRootAt(nodes, n) then RootProps(nodes[n], w, h) else []
    case PutSetupProperty(_, setupTurn, turn) => RectProps(rs) + TurnProps(setupTurn, turn)
    case PutComment(comment, _) => [Sgf.Property("C", [SgfText.ToSGFText(comment)])]
    case _ => []
  }

  /** The text of a call. */
  function CallText(nodes: seq<Node>, c: Call, rs: seq<Compression.Rect>, w: nat, h: nat): string
    requires Dims(w, h)
  {
    match c
    case BeginTree(_) => "("
    case EndTree(_) => ")"
    case BeginBranch(n, _) => if ResignLeaf(nodes, n) then "" else "("
    case EndBranch(n, _) => if ResignLeaf(nodes, n) then "" else ")"
    case _ => (if StartsNode(c) then ";" else "") + Sgf.PropsText(CallProps(nodes, c, rs, w, h))
  }

  /** The text of the calls, call `i` compressed to `rss[i]`. */
  function CallsText(nodes: seq<Node>, cs: seq<Call>, rss: seq<seq<Compression.Rect>>, w: nat, h: nat): string
    requires Dims(w, h) && |rss| == |cs|
  {
    if cs == [] then ""
    else CallsText(nodes, cs[..|cs| - 1], rss[..|rss| - 1], w, h) + CallText(nodes, cs[|cs| - 1], rss[|rss| - 1], w, h)
  }

  /** The properties of the calls, in order. */
  function CallsProps(nodes: seq<Node>, cs: seq<Call>, rss: seq<seq<Compression.Rect>>, w: nat, h: nat): seq<Sgf.Property>
    requires Dims(w, h) && |rss| == |cs|
  {
    if cs == [] then []
    else CallsProps(nodes, cs[..|cs| - 1], rss[..|rss| - 1], w, h) + CallProps(nodes, cs[|cs| - 1], rss[|rss| - 1], w, h)
  }

  /** Every setup call's rectangles describe its change list. */
  ghost predicate SetupRects(cs: seq<Call>, rss: seq<seq<Compression.Rect>>, w: int, h: int)
    requires Dims(w, h) && |rss| == |cs|
  {
    forall i | 0 <= i < |cs| && cs[i].PutSetupProperty? :: Compression.Describes(rss[i], cs[i].intersections, w, h)
  }

  // ----- the formatter -----

  class SgfFormatter {
    const w: nat
    const h: nat
    var str: string

    constructor(w: nat, h: nat)
      requires Dims(w, h)
      ensures this.w == w && this.h == h && str == ""
    {
      this.w := w;
      this.h := h;
      str := "";
    }

    method ToString() returns (s: string)
      ensures s == str
    {
      s := str;
    }

    /** One property with one value. */
    method PutProperty(id: string, value: string)
      modifies this
      ensures str == old(str) + Sgf.PropsText([Sgf.Property(id, [value])])
    {
      assert Sgf.ValuesText([value]) == "[" + value + "]" by {
        assert [value][1..] == [];
      }
      assert Sgf.PropsText([Sgf.Property(id, [value])]) == Sgf.PropertyText(Sgf.Property(id, [value])) by {
        assert [Sgf.Property(id, [value])][1..] == [];
      }
      str := str + id + "[" + value + "]";
    }

    /** The letters of a point. */
    method PointText(x: int, y: int) returns (s: string)
      requires 0 <= x <= 51 && 0 <= y <= 51
      ensures s == PointValue(x, y)
    {
      PointLetterAgrees(x);
      PointLetterAgrees(y);
      var r := SgfPoints.ToSGFPointXY(x, y);
      s := r.value;
    }

    method BeginTree()
      modifies this
      ensures str == old(str) + "("
    {
      str := str + "(";
    }

    method EndTree()
      modifies this
      ensures str == old(str) + ")"
    {
      str := str + ")";
    }

    /** Opens the branch of node `n`, unless `n` is a resignation with no children. */
    method BeginBranch(nodes: seq<Node>, n: int)
      modifies this
      ensures str == old(str) + if ResignLeaf(nodes, n) then "" else "("
    {
      if ResignLeaf(nodes, n) {
        return;
      }
      str := str + "(";
    }

    method EndBranch(nodes: seq<Node>, n: int)
      modifies this
      ensures str == old(str) + if ResignLeaf(nodes, n) then "" else ")"
    {
      if ResignLeaf(nodes, n) {
        return;
      }
      str := str + ")";
    }

    method PutPass(turn: int)
      modifies this
      ensures str == old(str) + ";" + Sgf.PropsText([Sgf.Property(SgfPoints.ToSGFColor(turn), [""])])
    {
      str := str + ";";
      PutProperty(SgfPoints.ToSGFColor(turn), "");
    }

    method PutPlace(pos: int, turn: int)
      requires Dims(w, h) && 0 <= pos < w * h && Compression.Lettered(w, pos)
      modifies this
      ensures str == old(str) + ";" + Sgf.PropsText([Sgf.Property(SgfPoints.ToSGFColor(turn), [PosValue(pos, w)])])
    {
      RowOnBoard(w, h, pos);
      var p := PointText(ToX(w, pos), ToY(w, pos));
      str := str + ";";
      PutProperty(SgfPoints.ToSGFColor(turn), p);
    }

    /** The game-information properties among `ids` that the table holds, in the order of `ids`. */
    method PutGameInfo(props: map<string, HistoryNodes.Property>, ids: seq<string>)
      modifies this
      ensures str == old(str) + Sgf.PropsText(InfoProps(props, ids))
    {
      var k := 0;
      while k < |ids|
        invariant 0 <= k <= |ids|
        invariant str == old(str) + Sgf.PropsText(InfoProps(props, ids[..k]))
      {
        var id := ids[k];
        assert ids[..k + 1][..k] == ids[..k] && ids[..k + 1][k] == id;
        ghost var more := if id in props then [Sgf.Property(id, [InfoValue(id, props[id].value)])] else [];
        assert InfoProps(props, ids[..k + 1]) == InfoProps(props, ids[..k]) + more;
        if id in props {
          var value := if id == "GC" then SgfText.ToSGFText(props[id].value) else SgfText.ToSGFSimpleText(props[id].value);
          PutProperty(id, value);
        }
        AppendProps(old(str), InfoProps(props, ids[..k]), more);
        k := k + 1;
      }
      assert ids[..k] == ids;
    }

    /** A node: ";", and at the root the game, the board size and the game information. */
    method PutSetupNode(nodes: seq<Node>, n: int)
      requires Dims(w, h)
      modifies this
      ensures str == old(str) + ";" + Sgf.PropsText(if IsRootAt(nodes, n) then RootProps(nodes[n], w, h) else [])
    {
      str := str + ";";
      if IsRootAt(nodes, n) {
        ghost var start := str;
        PutProperty("GM", "1");
        PutProperty("SZ", if w == h then NatText(w) else NatText(w) + ":" + NatText(h));
        AppendProps(start, [Sgf.Property("GM", ["1"])], [Sgf.Property("SZ", [SizeText(w, h)])]);
        ghost var head := [Sgf.Property("GM", ["1"]), Sgf.Property("SZ", [SizeText(w, h)])];
        assert [Sgf.Property("GM", ["1"])] + [Sgf.Property("SZ", [SizeText(w, h)])] == head;
        ghost var info := if nodes[n].props.Some? then InfoProps(nodes[n].props.value, GAME_INFO_IDS) else [];
        if nodes[n].props.Some? {
          PutGameInfo(nodes[n].props.value, GAME_INFO_IDS);
        }
        AppendProps(start, head, info);
      }
    }

    /** One setup property: the rectangle's state as AB, AW or AE, and its points. */
    method PutRect(r: Compression.Rect)
      requires 0 <= r.left <= 51 && 0 <= r.top <= 51 && 0 <= r.right <= 51 && 0 <= r.bottom <= 51
      modifies this
      ensures str == old(str) + Sgf.PropsText([RectProp(r)])
    {
      var lt := PointText(r.left, r.top);
      var value := lt;
      if r.left != r.right || r.top != r.bottom {
        var rb := PointText(r.right, r.bottom);
        value := value + ":" + rb;
      }
      assert value == RectValue(r);
      PutProperty("A" + SgfPoints.ToSGFColor(r.state), value);
    }

    /** The rectangles in order, one setup property each. */
    method PutRects(rects: seq<Compression.Rect>)
      requires forall k | 0 <= k < |rects| :: 0 <= rects[k].left <= 51 && 0 <= rects[k].top <= 51 && 0 <= rects[k].right <= 51 && 0 <= rects[k].bottom <= 51
      modifies this
      ensures str == old(str) + Sgf.PropsText(RectProps(rects))
    {
      var k := 0;
      while k < |rects|
        invariant 0 <= k <= |rects|
        invariant str == old(str) + Sgf.PropsText(RectProps(rects[..k]))
      {
        ghost var before := str;
        PutRect(rects[k]);
        assert rects[..k + 1][..k] == rects[..k] && rects[..k + 1][k] == rects[k];
        AppendProps(old(str), RectProps(rects[..k]), [RectProp(rects[k])]);
        k := k + 1;
      }
      assert rects[..k] == rects;
    }

    /** The setup's rectangles as AB, AW and AE properties, then PL when the side to move changes. */
    method PutSetupProperty(cs: seq<Change>, setupTurn: Option<TurnChange>, turn: int) returns (ghost rs: seq<Compression.Rect>)
      requires Dims(w, h) && Compression.Fits(cs, w, h) && Compression.ChangesLettered(cs, w)
      modifies this
      ensures Compression.Describes(rs, cs, w, h)
      ensures str == old(str) + Sgf.PropsText(RectProps(rs) + TurnProps(setupTurn, turn))
    {
      var rects := Compression.CompressIntersections(cs, w, h);
      rs := rects;
      Compression.DescribesLettered(rects, cs, w, h);
      forall k | 0 <= k < |rects|
        ensures 0 <= rects[k].left <= 51 && 0 <= rects[k].top <= 51 && 0 <= rects[k].right <= 51 && 0 <= rects[k].bottom <= 51
      {
        RectOnBoard(rects, cs, k, w, h);
      }
      PutRects(rects);
      ghost var mid := str;
      if setupTurn.Some? && setupTurn.value.newTurn != turn {
        PutProperty("PL", SgfPoints.ToSGFColor(setupTurn.value.newTurn));
      }
      assert str == mid + Sgf.PropsText(TurnProps(setupTurn, turn));
      AppendProps(old(str), RectProps(rects), TurnProps(setupTurn, turn));
    }

    method PutComment(comment: string)
      modifies this
      ensures str == old(str) + Sgf.PropsText([Sgf.Property("C", [SgfText.ToSGFText(comment)])])
    {
      PutProperty("C", SgfText.ToSGFText(comment));
    }

    /** Writes one call; `rs` is the compression chosen for a setup call. */
    method PutCall(nodes: seq<Node>, c: Call) returns (ghost rs: seq<Compression.Rect>)
      requires Dims(w, h) && TreeBase64.CallFits(c, w, h) && TreeBase64.CallLettered(c, w)
      modifies this
      ensures c.PutSetupProperty? ==> Compression.Describes(rs, c.intersections, w, h)
      ensures str == old(str) + CallText(nodes, c, rs, w, h)
    {
      rs := [];
      match c {
        case BeginTree(_) => BeginTree();
        case EndTree(_) => EndTree();
        case BeginBranch(n, _) => BeginBranch(nodes, n);
        case EndBranch(n, _) => EndBranch(nodes, n);
        case PutResign(_) =>
        case _ =>
          rs := PutNodeCall(nodes, c);
          NodeCallText(nodes, c, rs, w, h);
          Seqs.ConcatAssoc(old(str), if StartsNode(c) then ";" else "", Sgf.PropsText(CallProps(nodes, c, rs, w, h)));
      }
    }

    /** Writes a call that writes properties, starting a node for a move or a setup node. */
    method PutNodeCall(nodes: seq<Node>, c: Call) returns (ghost rs: seq<Compression.Rect>)
      requires Dims(w, h) && TreeBase64.CallFits(c, w, h) && TreeBase64.CallLettered(c, w)
      requires c.PutPass? || c.PutPlace? || c.PutSetupNode? || c.PutSetupProperty? || c.PutComment?
      modifies this
      ensures c.PutSetupProperty? ==> Compression.Describes(rs, c.intersections, w, h)
      ensures str == old(str) + (if StartsNode(c) then ";" else "") + Sgf.PropsText(CallProps(nodes, c, rs, w, h))
    {
      rs := [];
      match c {
        case PutPass(turn) =>
          PutPass(turn);
          assert CallProps(nodes, c, rs, w, h) == [Sgf.Property(SgfPoints.ToSGFColor(turn), [""])];
        case PutPlace(pos, turn) =>
          PutPlace(pos, turn);
          assert CallProps(nodes, c, rs, w, h) == [Sgf.Property(SgfPoints.ToSGFColor(turn), [PosValue(pos, w)])];
        case PutSetupNode(n, _) =>
          PutSetupNode(nodes, n);
          assert CallProps(nodes, c, rs, w, h) == if IsRootAt(nodes, n) then RootProps(nodes[n], w, h) else [];
        case PutSetupProperty(cs, setupTurn, turn) =>
          rs := PutSetupProperty(cs, setupTurn, turn);
          assert CallProps(nodes, c, rs, w, h) == RectProps(rs) + TurnProps(setupTurn, turn);
          assert old(str) + "" == old(str);
        case PutComment(comment, _) =>
          PutComment(comment);
          assert CallProps(nodes, c, rs, w, h) == [Sgf.Property("C", [SgfText.ToSGFText(comment)])];
          assert old(str) + "" == old(str);
      }
    }

    /** Writes the calls in order; `rss` are the compressions chosen, one per call. */
    method PutCalls(nodes: seq<Node>, cs: seq<Call>) returns (ghost rss: seq<seq<Compression.Rect>>)
      requires Dims(w, h) && TreeString.AllFit(cs, w, h) && TreeString.AllLettered(cs, w)
      modifies this
      ensures |rss| == |cs| && SetupRects(cs, rss, w, h)
      ensures str == old(str) + CallsText(nodes, cs, rss, w, h)
    {
      rss := [];
      var k := 0;
      while k < |cs|
        invariant 0 <= k <= |cs| && |rss| == k
        invariant SetupRects(cs[..k], rss, w, h)
        invariant str == old(str) + CallsText(nodes, cs[..k], rss, w, h)
      {
        ghost var before := str;
        var rs := PutCall(nodes, cs[k]);
        CallsTextStep(nodes, cs, rss, rs, k, w, h);
        Seqs.ConcatAssoc(old(str), CallsText(nodes, cs[..k], rss, w, h), CallText(nodes, cs[k], rs, w, h));
        rss := rss + [rs];
        k := k + 1;
      }
      assert cs[..k] == cs;
    }
  }

  lemma CallsTextStep(nodes: seq<Node>, cs: seq<Call>, rss: seq<seq<Compression.Rect>>, rs: seq<Compression.Rect>, k: int, w: nat, h: nat)
    requires Dims(w, h) && 0 <= k < |cs| && |rss| == k
    ensures CallsText(nodes, cs[..k + 1], rss + [rs], w, h) == CallsText(nodes, cs[..k], rss, w, h) + CallText(nodes, cs[k], rs, w, h)
    ensures SetupRects(cs[..k], rss, w, h) && (cs[k].PutSetupProperty? ==> Compression.Describes(rs, cs[k].intersections, w, h)) ==>
      SetupRects(cs[..k + 1], rss + [rs], w, h)
  {
    var cs1, r1 := cs[..k + 1], rss + [rs];
    assert cs1[..|cs1| - 1] == cs[..k] && r1[..|r1| - 1] == rss;
    assert cs1[|cs1| - 1] == cs[k] && r1[|r1| - 1] == rs;
    if SetupRects(cs[..k], rss, w, h) && (cs[k].PutSetupProperty? ==> Compression.Describes(rs, cs[k].intersections, w, h)) {
      forall i | 0 <= i < |cs1| && cs1[i].PutSetupProperty?
        ensures Compression.Describes(r1[i], cs1[i].intersections, w, h)
      {
        if i < k {
          assert cs1[i] == cs[..k][i] && r1[i] == rss[i];
        }
      }
    }
  }

  lemma NodeCallText(nodes: seq<Node>, c: Call, rs: seq<Compression.Rect>, w: nat, h: nat)
    requires Dims(w, h) && !c.BeginTree? && !c.EndTree? && !c.BeginBranch? && !c.EndBranch?
    ensures CallText(nodes, c, rs, w, h) == (if StartsNode(c) then ";" else "") + Sgf.PropsText(CallProps(nodes, c, rs, w, h))
  {
  }

  /** Text appended property list by property list. */
  lemma AppendProps(s0: string, a: seq<Sgf.Property>, b: seq<Sgf.Property>)
    ensures s0 + Sgf.PropsText(a) + Sgf.PropsText(b) == s0 + Sgf.PropsText(a + b)
  {
    Sgf.PropsTextConcat(a, b);
    Seqs.ConcatAssoc(s0, Sgf.PropsText(a), Sgf.PropsText(b));
  }

  /** A rectangle of a compression lies on the board, and when its far corner has letters all of it does. */
  lemma RectOnBoard(rs: seq<Compression.Rect>, cs: seq<Change>, k: int, w: int, h: int)
    requires 0 <= k < |rs| && Dims(w, h) && Compression.Sound(rs, cs, w, h) && Compression.RectsLettered(rs)
    ensures 0 <= rs[k].left <= rs[k].right <= 51 && 0 <= rs[k].top <= rs[k].bottom <= 51
  {
    var r := rs[k];
    assert Compression.Proper(r);
    assert Compression.Contains(r, r.left, r.top);
    assert Compression.Contains(r, r.right, r.bottom);
  }

  // ----- the tree the text reads back as -----

  /** No resignation carries a setup or a comment. */
  ghost predicate ResignBare(nodes: seq<Node>) {
    forall i | 0 <= i < |nodes| && nodes[i].IsResign() :: nodes[i].setup.None? && nodes[i].comment.None?
  }

  /** The SGF node of node `n`'s calls, none for a resignation. */
  ghost function OwnNode(nodes: seq<Node>, n: int, turn: int, rs: seq<seq<Compression.Rect>>, w: nat, h: nat): seq<seq<Sgf.Property>>
    requires 0 <= n < |nodes| && Dims(w, h) && |rs| == |PutNode(nodes, n, turn).0|
    reads SetupsOf(nodes)
  {
    if nodes[n].IsResign() then [] else [CallsProps(nodes, PutNode(nodes, n, turn).0, rs, w, h)]
  }

  /** The rectangles of node `n`'s own calls among those of its walk. */
  ghost function NodeRects(nodes: seq<Node>, n: int, turn: int, rss: seq<seq<Compression.Rect>>): (r: seq<seq<Compression.Rect>>)
    requires Linked(nodes) && 0 <= n < |nodes| && |rss| == |Visit(nodes, n, turn).0|
    reads SetupsOf(nodes)
    ensures |r| == |PutNode(nodes, n, turn).0|
  {
    VisitCalls(nodes, n, turn);
    var e := |EnterCalls(nodes, n, turn)|;
    rss[e..e + |PutNode(nodes, n, turn).0|]
  }

  /** The rectangles of the calls of node `n`'s subtrees among those of its walk. */
  ghost function ChildRects(nodes: seq<Node>, n: int, turn: int, rss: seq<seq<Compression.Rect>>): (r: seq<seq<Compression.Rect>>)
    requires Linked(nodes) && 0 <= n < |nodes| && |rss| == |Visit(nodes, n, turn).0|
    reads SetupsOf(nodes)
    ensures |r| == |VisitChildren(nodes, n, 0, PutNode(nodes, n, turn).1).0|
  {
    VisitCalls(nodes, n, turn);
    var e := |EnterCalls(nodes, n, turn)|;
    rss[e + |PutNode(nodes, n, turn).0|..|rss| - e]
  }

  /**
   * The SGF nodes of the walk of `n`, a resignation giving none, up to its
   * first branching, and the game trees of the branches after them; `rss`
   * holds the rectangles of each call of that walk.
   */
  ghost function SgfVisit(nodes: seq<Node>, n: int, turn: int, rss: seq<seq<Compression.Rect>>, w: nat, h: nat): (seq<seq<Sgf.Property>>, seq<Sgf.GameTree>)
    requires Linked(nodes) && 0 <= n < |nodes| && Dims(w, h) && |rss| == |Visit(nodes, n, turn).0|
    reads SetupsOf(nodes)
    decreases |nodes| - n, 2
  {
    var children := SgfChildren(nodes, n, PutNode(nodes, n, turn).1, ChildRects(nodes, n, turn, rss), w, h);
    (OwnNode(nodes, n, turn, NodeRects(nodes, n, turn, rss), w, h) + children.0, children.1)
  }

  /** What follows node `n`: its only child's sequence inline, or one game tree per child. */
  ghost function SgfChildren(nodes: seq<Node>, n: int, turn: int, rss: seq<seq<Compression.Rect>>, w: nat, h: nat): (seq<seq<Sgf.Property>>, seq<Sgf.GameTree>)
    requires Linked(nodes) && 0 <= n < |nodes| && Dims(w, h) && |rss| == |VisitChildren(nodes, n, 0, turn).0|
    reads SetupsOf(nodes)
    decreases |nodes| - n, 1
  {
    if |nodes[n].nexts| == 0 then ([], [])
    else if |nodes[n].nexts| == 1 then
      assert NodeLinked(nodes, n);
      var c := nodes[n].nexts[0];
      assert nodes[c].prev == n;
      OnlyChildCalls(nodes, n, turn);
      SgfVisit(nodes, c, turn, rss, w, h)
    else ([], SgfBranches(nodes, n, 0, turn, rss, w, h))
  }

  /** The game tree of child `c` among several: none for a childless resignation. */
  ghost function BranchHead(nodes: seq<Node>, c: int, turn: int, rss: seq<seq<Compression.Rect>>, w: nat, h: nat): seq<Sgf.GameTree>
    requires Linked(nodes) && 0 <= c < |nodes| && Dims(w, h) && |rss| == |Visit(nodes, c, turn).0|
    reads SetupsOf(nodes)
    decreases |nodes| - c, 3
  {
    if ResignLeaf(nodes, c) then []
    else
      var (ns, ts) := SgfVisit(nodes, c, turn, rss, w, h);
      [Sgf.GameTree(ns, ts)]
  }

  /** The game trees of children `k` and on of node `n`. */
  ghost function SgfBranches(nodes: seq<Node>, n: int, k: nat, turn: int, rss: seq<seq<Compression.Rect>>, w: nat, h: nat): seq<Sgf.GameTree>
    requires Linked(nodes) && 0 <= n < |nodes| && Dims(w, h) && |rss| == |VisitChildren(nodes, n, k, turn).0|
    reads SetupsOf(nodes)
    decreases |nodes| - n, 0, |nodes[n].nexts| - k
  {
    if k >= |nodes[n].nexts| then []
    else
      assert NodeLinked(nodes, n);
      var c := nodes[n].nexts[k];
      assert nodes[c].prev == n;
      var (first, t1) := Visit(nodes, c, turn);
      var rest := VisitChildren(nodes, n, k + 1, t1).0;
      assert |rss| == |first| + |rest|;
      BranchHead(nodes, c, turn, rss[..|first|], w, h) + SgfBranches(nodes, n, k + 1, t1, rss[|first|..], w, h)
  }

  /** The game tree of a whole-tree walk whose calls have the rectangles `rss`. */
  ghost function SgfTree(nodes: seq<Node>, rss: seq<seq<Compression.Rect>>, w: nat, h: nat): Sgf.GameTree
    requires Linked(nodes) && Dims(w, h) && |rss| == |TreeCalls(nodes)|
    reads SetupsOf(nodes)
  {
    var (ns, ts) := SgfVisit(nodes, 0, BLACK, rss[1..|rss| - 1], w, h);
    Sgf.GameTree(ns, ts)
  }

  lemma OnlyChildCalls(nodes: seq<Node>, n: int, turn: int)
    requires Linked(nodes) && 0 <= n < |nodes| && |nodes[n].nexts| == 1
    ensures NodeLinked(nodes, n) && nodes[nodes[n].nexts[0]].prev == n
    ensures VisitChildren(nodes, n, 0, turn).0 == Visit(nodes, nodes[n].nexts[0], turn).0
  {
    assert NodeLinked(nodes, n);
    var c := nodes[n].nexts[0];
    var (first, t1) := Visit(nodes, c, turn);
    assert VisitChildren(nodes, n, 1, t1).0 == [];
    assert first + [] == first;
  }

  // ----- texts of call lists -----

  lemma {:induction false} CallsTextConcat(nodes: seq<Node>, a: seq<Call>, b: seq<Call>, ra: seq<seq<Compression.Rect>>, rb: seq<seq<Compression.Rect>>, w: nat, h: nat)
    requires Dims(w, h) && |ra| == |a| && |rb| == |b|
    ensures CallsText(nodes, a + b, ra + rb, w, h) == CallsText(nodes, a, ra, w, h) + CallsText(nodes, b, rb, w, h)
    ensures CallsProps(nodes, a + b, ra + rb, w, h) == CallsProps(nodes, a, ra, w, h) + CallsProps(nodes, b, rb, w, h)
    decreases |b|
  {
    if b == [] {
      assert a + b == a && ra + rb == ra;
    } else {
      var b0, rb0 := b[..|b| - 1], rb[..|rb| - 1];
      assert (a + b)[..|a + b| - 1] == a + b0 && (ra + rb)[..|ra + rb| - 1] == ra + rb0;
      assert (a + b)[|a + b| - 1] == b[|b| - 1] && (ra + rb)[|ra + rb| - 1] == rb[|rb| - 1];
      CallsTextConcat(nodes, a, b0, ra, rb0, w, h);
      Seqs.ConcatAssoc(CallsText(nodes, a, ra, w, h), CallsText(nodes, b0, rb0, w, h), CallText(nodes, b[|b| - 1], rb[|rb| - 1], w, h));
      Seqs.ConcatAssoc(CallsProps(nodes, a, ra, w, h), CallsProps(nodes, b0, rb0, w, h), CallProps(nodes, b[|b| - 1], rb[|rb| - 1], w, h));
    }
  }

  /** The text of one call. */
  lemma CallsTextOne(nodes: seq<Node>, c: Call, rs: seq<Compression.Rect>, w: nat, h: nat)
    requires Dims(w, h)
    ensures CallsText(nodes, [c], [rs], w, h) == CallText(nodes, c, rs, w, h)
    ensures CallsProps(nodes, [c], [rs], w, h) == CallProps(nodes, c, rs, w, h)
  {
    assert [c][..0] == [] && [rs][..0] == [];
  }

  /** The calls that write properties into the node begun before them. */
  predicate Continues(c: Call) {
    c.PutSetupProperty? || c.PutComment?
  }

  /** A node's calls write ";" and their properties. */
  lemma {:induction false} NodeCallsText(nodes: seq<Node>, cs: seq<Call>, rss: seq<seq<Compression.Rect>>, w: nat, h: nat)
    requires Dims(w, h) && |rss| == |cs| && cs != [] && StartsNode(cs[0])
    requires forall i | 1 <= i < |cs| :: Continues(cs[i])
    ensures CallsText(nodes, cs, rss, w, h) == ";" + Sgf.PropsText(CallsProps(nodes, cs, rss, w, h))
    decreases |cs|
  {
    var last, rl := cs[|cs| - 1], rss[|rss| - 1];
    if |cs| == 1 {
      assert cs == [last] && rss == [rl];
      CallsTextOne(nodes, last, rl, w, h);
    } else {
      var init, ri := cs[..|cs| - 1], rss[..|rss| - 1];
      NodeCallsText(nodes, init, ri, w, h);
      assert CallText(nodes, last, rl, w, h) == Sgf.PropsText(CallProps(nodes, last, rl, w, h));
      AppendProps(";", CallsProps(nodes, init, ri, w, h), CallProps(nodes, last, rl, w, h));
    }
  }

  /** The text of the calls of node `n` is its SGF node: nothing for a bare resignation. */
  lemma PutNodeText(nodes: seq<Node>, n: int, turn: int, rss: seq<seq<Compression.Rect>>, w: nat, h: nat)
    requires ResignBare(nodes) && 0 <= n < |nodes| && Dims(w, h) && |rss| == |PutNode(nodes, n, turn).0|
    ensures CallsText(nodes, PutNode(nodes, n, turn).0, rss, w, h) == Sgf.NodesText(OwnNode(nodes, n, turn, rss, w, h))
    ensures WellFormedNodes(OwnNode(nodes, n, turn, rss, w, h))
  {
    var cs := PutNode(nodes, n, turn).0;
    if nodes[n].IsResign() {
      assert cs == [PutResign(turn)];
      CallsTextOne(nodes, PutResign(turn), rss[0], w, h);
      assert rss == [rss[0]];
    } else {
      assert StartsNode(cs[0]) && forall i | 1 <= i < |cs| :: Continues(cs[i]);
      NodeCallsText(nodes, cs, rss, w, h);
      var ps := CallsProps(nodes, cs, rss, w, h);
      CallsPropsWellFormed(nodes, cs, rss, w, h);
      assert Sgf.NodesText([ps]) == ";" + Sgf.PropsText(ps) + Sgf.NodesText([]) by {
        assert [ps][1..] == [];
      }
    }
  }

  // ----- well-formed properties -----

  lemma NodeConcatWellFormed(a: seq<Sgf.Property>, b: seq<Sgf.Property>)
    requires Sgf.WellFormedNode(a) && Sgf.WellFormedNode(b)
    ensures Sgf.WellFormedNode(a + b)
  {
    forall k | 0 <= k < |a + b|
      ensures Sgf.WellFormedProperty((a + b)[k])
    {
      if k < |a| {
        assert (a + b)[k] == a[k];
      } else {
        assert (a + b)[k] == b[k - |a|];
      }
    }
  }

  /** A value with no closing bracket and no backslash. */
  predicate Plain(v: string) {
    forall k | 0 <= k < |v| :: v[k] != ']' && v[k] != '\\'
  }

  lemma PlainConcat(a: string, b: string)
    requires Plain(a) && Plain(b)
    ensures Plain(a + b) && Sgf.RawValue(a + b)
  {
    assert forall k | 0 <= k < |a + b| :: (a + b)[k] == if k < |a| then a[k] else b[k - |a|];
    Sgf.PlainIsRaw(a + b);
  }

  lemma PointValuePlain(x: int, y: int)
    ensures Plain(PointValue(x, y)) && Sgf.RawValue(PointValue(x, y))
  {
    Sgf.PlainIsRaw(PointValue(x, y));
  }

  lemma RectValueRaw(r: Compression.Rect)
    ensures Sgf.RawValue(RectValue(r))
  {
    PointValuePlain(r.left, r.top);
    PointValuePlain(r.right, r.bottom);
    var tail := if r.left != r.right || r.top != r.bottom then ":" + PointValue(r.right, r.bottom) else "";
    PlainConcat(":", PointValue(r.right, r.bottom));
    PlainConcat(PointValue(r.left, r.top), tail);
  }

  lemma SizeTextRaw(w: nat, h: nat)
    ensures Sgf.RawValue(SizeText(w, h))
  {
    PlainConcat(NatText(w), ":");
    PlainConcat(NatText(w) + ":", NatText(h));
    Sgf.PlainIsRaw(NatText(w));
  }

  /** Identifiers of one or more capital letters. */
  predicate UpperIdent(id: string) {
    id != [] && forall k | 0 <= k < |id| :: Sgf.IsUpper(id[k])
  }

  lemma {:induction false} InfoPropsWellFormed(props: map<string, HistoryNodes.Property>, ids: seq<string>)
    requires forall i | 0 <= i < |ids| :: UpperIdent(ids[i])
    ensures Sgf.WellFormedNode(InfoProps(props, ids))
    decreases |ids|
  {
    if ids != [] {
      var id := ids[|ids| - 1];
      InfoPropsWellFormed(props, ids[..|ids| - 1]);
      if id in props {
        SgfText.WrittenIsRaw(props[id].value);
        NodeConcatWellFormed(InfoProps(props, ids[..|ids| - 1]), [Sgf.Property(id, [InfoValue(id, props[id].value)])]);
      } else {
        assert InfoProps(props, ids) == InfoProps(props, ids[..|ids| - 1]) + [];
      }
    }
  }

  lemma GameInfoIdsUpper()
    ensures forall i | 0 <= i < |GAME_INFO_IDS| :: UpperIdent(GAME_INFO_IDS[i])
  {
  }

  lemma {:induction false} RectPropsWellFormed(rs: seq<Compression.Rect>)
    ensures Sgf.WellFormedNode(RectProps(rs))
    decreases |rs|
  {
    if rs != [] {
      RectPropsWellFormed(rs[..|rs| - 1]);
      RectValueRaw(rs[|rs| - 1]);
      NodeConcatWellFormed(RectProps(rs[..|rs| - 1]), [RectProp(rs[|rs| - 1])]);
    }
  }

  lemma ColorRaw(color: int)
    ensures UpperIdent(SgfPoints.ToSGFColor(color)) && Sgf.RawValue(SgfPoints.ToSGFColor(color))
  {
    Sgf.PlainIsRaw(SgfPoints.ToSGFColor(color));
  }

  lemma RootPropsWellFormed(node: Node, w: nat, h: nat)
    ensures Sgf.WellFormedNode(RootProps(node, w, h))
  {
    SizeTextRaw(w, h);
    Sgf.PlainIsRaw("1");
    var head := [Sgf.Property("GM", ["1"]), Sgf.Property("SZ", [SizeText(w, h)])];
    if node.props.Some? {
      GameInfoIdsUpper();
      InfoPropsWellFormed(node.props.value, GAME_INFO_IDS);
      NodeConcatWellFormed(head, InfoProps(node.props.value, GAME_INFO_IDS));
    } else {
      assert RootProps(node, w, h) == head + [];
    }
  }

  lemma SetupPropsWellFormed(rs: seq<Compression.Rect>, setupTurn: Option<TurnChange>, turn: int)
    ensures Sgf.WellFormedNode(RectProps(rs) + TurnProps(setupTurn, turn))
  {
    RectPropsWellFormed(rs);
    if setupTurn.Some? {
      ColorRaw(setupTurn.value.newTurn);
    }
    NodeConcatWellFormed(RectProps(rs), TurnProps(setupTurn, turn));
  }

  /** Every call writes properties the reader reads back as they are. */
  lemma CallPropsWellFormed(nodes: seq<Node>, c: Call, rs: seq<Compression.Rect>, w: nat, h: nat)
    requires Dims(w, h)
    ensures Sgf.WellFormedNode(CallProps(nodes, c, rs, w, h))
  {
    match c
    case PutPass(turn) =>
      ColorRaw(turn);
    case PutPlace(pos, turn) =>
      ColorRaw(turn);
      PointValuePlain(ToX(w, pos), ToY(w, pos));
    case PutSetupNode(n, _) =>
      if IsRootAt(nodes, n) {
        RootPropsWellFormed(nodes[n], w, h);
      }
    case PutSetupProperty(_, setupTurn, turn) =>
      SetupPropsWellFormed(rs, setupTurn, turn);
    case PutComment(comment, _) =>
      SgfText.WrittenIsRaw(comment);
    case _ =>
  }

  lemma {:induction false} CallsPropsWellFormed(nodes: seq<Node>, cs: seq<Call>, rss: seq<seq<Compression.Rect>>, w: nat, h: nat)
    requires Dims(w, h) && |rss| == |cs|
    ensures Sgf.WellFormedNode(CallsProps(nodes, cs, rss, w, h))
    decreases |cs|
  {
    if cs != [] {
      CallsPropsWellFormed(nodes, cs[..|cs| - 1], rss[..|rss| - 1], w, h);
      CallPropsWellFormed(nodes, cs[|cs| - 1], rss[|rss| - 1], w, h);
      NodeConcatWellFormed(CallsProps(nodes, cs[..|cs| - 1], rss[..|rss| - 1], w, h), CallProps(nodes, cs[|cs| - 1], rss[|rss| - 1], w, h));
    }
  }

  // ----- the written text reads back as the tree -----

  /** Every node's properties are well formed. */
  predicate WellFormedNodes(ns: seq<seq<Sgf.Property>>) {
    forall k | 0 <= k < |ns| :: Sgf.WellFormedNode(ns[k])
  }

  lemma NodesConcatWellFormed(a: seq<seq<Sgf.Property>>, b: seq<seq<Sgf.Property>>)
    requires WellFormedNodes(a) && WellFormedNodes(b)
    ensures WellFormedNodes(a + b)
  {
    assert forall k | 0 <= k < |a + b| :: (a + b)[k] == if k < |a| then a[k] else b[k - |a|];
  }

  lemma TreesConcatWellFormed(a: seq<Sgf.GameTree>, b: seq<Sgf.GameTree>)
    requires Sgf.WellFormedTrees(a) && Sgf.WellFormedTrees(b)
    ensures Sgf.WellFormedTrees(a + b)
  {
    assert forall k | 0 <= k < |a + b| :: (a + b)[k] == if k < |a| then a[k] else b[k - |a|];
  }

  /**
   * The text of the walk of `n` is its SGF nodes and trees: inline when `n`
   * is an only child or the root, in parentheses when it is one of several
   * children, and nothing at all for a childless resignation among them.
   */
  ghost predicate VisitWritten(nodes: seq<Node>, n: int, turn: int, rss: seq<seq<Compression.Rect>>, w: nat, h: nat)
    requires Linked(nodes) && 0 <= n < |nodes| && Dims(w, h) && |rss| == |Visit(nodes, n, turn).0|
    reads SetupsOf(nodes)
  {
    var (ns, ts) := SgfVisit(nodes, n, turn, rss, w, h);
    var text := CallsText(nodes, Visit(nodes, n, turn).0, rss, w, h);
    && WellFormedNodes(ns) && Sgf.WellFormedTrees(ts)
    && (if NumberOfSiblings(nodes, n) <= 1 then text == Sgf.NodesText(ns) + Sgf.TreesText(ts)
        else if ResignLeaf(nodes, n) then text == ""
        else text == Sgf.TreeText(Sgf.GameTree(ns, ts)))
  }

  /** The text of the subtrees below `n` is the nodes and trees that follow `n`. */
  ghost predicate ChildrenWritten(nodes: seq<Node>, n: int, turn: int, rss: seq<seq<Compression.Rect>>, w: nat, h: nat)
    requires Linked(nodes) && 0 <= n < |nodes| && Dims(w, h) && |rss| == |VisitChildren(nodes, n, 0, turn).0|
    reads SetupsOf(nodes)
  {
    var (ns, ts) := SgfChildren(nodes, n, turn, rss, w, h);
    && WellFormedNodes(ns) && Sgf.WellFormedTrees(ts)
    && CallsText(nodes, VisitChildren(nodes, n, 0, turn).0, rss, w, h) == Sgf.NodesText(ns) + Sgf.TreesText(ts)
  }

  /** The middle of a walk: a node's own SGF node, then what follows it. */
  lemma MiddleText(own: seq<seq<Sgf.Property>>, cns: seq<seq<Sgf.Property>>, cts: seq<Sgf.GameTree>, nodeText: string, childText: string)
    requires nodeText == Sgf.NodesText(own) && childText == Sgf.NodesText(cns) + Sgf.TreesText(cts)
    ensures nodeText + childText == Sgf.NodesText(own + cns) + Sgf.TreesText(cts)
  {
    Sgf.NodesTextConcat(own, cns);
    Seqs.ConcatAssoc(Sgf.NodesText(own), Sgf.NodesText(cns), Sgf.TreesText(cts));
  }

  /** Brackets around the middle of a walk. */
  lemma BracketText(open: string, mid: string, close: string, ns: seq<seq<Sgf.Property>>, ts: seq<Sgf.GameTree>)
    requires mid == Sgf.NodesText(ns) + Sgf.TreesText(ts)
    ensures open == "" && close == "" ==> open + mid + close == Sgf.NodesText(ns) + Sgf.TreesText(ts)
    ensures open == "(" && close == ")" ==> open + mid + close == Sgf.TreeText(Sgf.GameTree(ns, ts))
  {
    Seqs.ConcatAssoc(open, Sgf.NodesText(ns), Sgf.TreesText(ts));
  }

  /** The bracket a branch of node `n` is written with, or nothing. */
  ghost function Edge(nodes: seq<Node>, n: int, bracket: string): string
    requires Ordered(nodes) && 0 <= n < |nodes|
  {
    if NumberOfSiblings(nodes, n) > 1 && !ResignLeaf(nodes, n) then bracket else ""
  }

  /** The call that opens the branch of `n`, if it is one of several children. */
  function EnterCalls(nodes: seq<Node>, n: int, turn: int): seq<Call>
    requires Ordered(nodes) && 0 <= n < |nodes|
  {
    if NumberOfSiblings(nodes, n) > 1 then [BeginBranch(n, turn)] else []
  }

  /** The call that closes the branch of `n`, if it is one of several children. */
  function LeaveCalls(nodes: seq<Node>, n: int, turn: int): seq<Call>
    requires Ordered(nodes) && 0 <= n < |nodes|
  {
    if NumberOfSiblings(nodes, n) > 1 then [EndBranch(n, turn)] else []
  }

  /** The calls of the walk of `n`: the branch brackets around the node's calls and the children's. */
  lemma VisitCalls(nodes: seq<Node>, n: int, turn: int)
    requires Linked(nodes) && 0 <= n < |nodes|
    ensures Visit(nodes, n, turn).0 ==
      EnterCalls(nodes, n, turn) + PutNode(nodes, n, turn).0 + VisitChildren(nodes, n, 0, PutNode(nodes, n, turn).1).0 +
      LeaveCalls(nodes, n, VisitChildren(nodes, n, 0, PutNode(nodes, n, turn).1).1)
    ensures ResignLeaf(nodes, n) ==> VisitChildren(nodes, n, 0, PutNode(nodes, n, turn).1).0 == []
  {
  }

  /** The branch brackets are written unless the branch is a childless resignation. */
  lemma EdgeTexts(nodes: seq<Node>, n: int, turn: int, t2: int, r1: seq<seq<Compression.Rect>>, r2: seq<seq<Compression.Rect>>, w: nat, h: nat)
    requires Ordered(nodes) && 0 <= n < |nodes| && Dims(w, h)
    requires |r1| == |EnterCalls(nodes, n, turn)| && |r2| == |LeaveCalls(nodes, n, t2)|
    ensures CallsText(nodes, EnterCalls(nodes, n, turn), r1, w, h) == Edge(nodes, n, "(")
    ensures CallsText(nodes, LeaveCalls(nodes, n, t2), r2, w, h) == Edge(nodes, n, ")")
  {
    if NumberOfSiblings(nodes, n) > 1 {
      assert r1 == [r1[0]] && r2 == [r2[0]];
      CallsTextOne(nodes, BeginBranch(n, turn), r1[0], w, h);
      CallsTextOne(nodes, EndBranch(n, t2), r2[0], w, h);
    }
  }

  /** The text of four call lists written one after another. */
  lemma CallsText4(nodes: seq<Node>, cs: seq<Call>, a: seq<Call>, b: seq<Call>, c: seq<Call>, d: seq<Call>, rss: seq<seq<Compression.Rect>>, w: nat, h: nat)
    requires Dims(w, h) && cs == a + b + c + d && |rss| == |cs|
    ensures CallsText(nodes, cs, rss, w, h) ==
      CallsText(nodes, a, rss[..|a|], w, h) +
      (CallsText(nodes, b, rss[|a|..|a| + |b|], w, h) + CallsText(nodes, c, rss[|a| + |b|..|a| + |b| + |c|], w, h)) +
      CallsText(nodes, d, rss[|a| + |b| + |c|..], w, h)
  {
    var ra, rb, rc, rd := rss[..|a|], rss[|a|..|a| + |b|], rss[|a| + |b|..|a| + |b| + |c|], rss[|a| + |b| + |c|..];
    assert rss == ra + rb + rc + rd;
    CallsTextConcat(nodes, a + b + c, d, ra + rb + rc, rd, w, h);
    CallsTextConcat(nodes, a + b, c, ra + rb, rc, w, h);
    CallsTextConcat(nodes, a, b, ra, rb, w, h);
    Seqs.ConcatAssoc(CallsText(nodes, a, ra, w, h), CallsText(nodes, b, rb, w, h), CallsText(nodes, c, rc, w, h));
  }

  /** The text of the walk of `n`: the branch brackets around the node's calls and the children's. */
  lemma VisitTextSplit(nodes: seq<Node>, n: int, turn: int, rss: seq<seq<Compression.Rect>>, w: nat, h: nat)
    requires Linked(nodes) && 0 <= n < |nodes| && Dims(w, h) && |rss| == |Visit(nodes, n, turn).0|
    ensures CallsText(nodes, Visit(nodes, n, turn).0, rss, w, h) ==
      Edge(nodes, n, "(") +
      (CallsText(nodes, PutNode(nodes, n, turn).0, NodeRects(nodes, n, turn, rss), w, h) +
       CallsText(nodes, VisitChildren(nodes, n, 0, PutNode(nodes, n, turn).1).0, ChildRects(nodes, n, turn, rss), w, h)) +
      Edge(nodes, n, ")")
  {
    var enter, nc, t1 := EnterCalls(nodes, n, turn), PutNode(nodes, n, turn).0, PutNode(nodes, n, turn).1;
    var cc, t2 := VisitChildren(nodes, n, 0, t1).0, VisitChildren(nodes, n, 0, t1).1;
    var leave := LeaveCalls(nodes, n, t2);
    VisitCalls(nodes, n, turn);
    CallsText4(nodes, Visit(nodes, n, turn).0, enter, nc, cc, leave, rss, w, h);
    var e, m, l := |enter|, |nc|, |cc|;
    EdgeTexts(nodes, n, turn, t2, rss[..e], rss[e + m + l..], w, h);
    RectsAreSlices(nodes, n, turn, rss, e, m, l);
    var rn, rc := rss[e..e + m], rss[e + m..e + m + l];
    calc {
      CallsText(nodes, Visit(nodes, n, turn).0, rss, w, h);
      CallsText(nodes, enter, rss[..e], w, h) + (CallsText(nodes, nc, rn, w, h) + CallsText(nodes, cc, rc, w, h)) + CallsText(nodes, leave, rss[e + m + l..], w, h);
      Edge(nodes, n, "(") + (CallsText(nodes, nc, rn, w, h) + CallsText(nodes, cc, rc, w, h)) + Edge(nodes, n, ")");
    }
  }

  lemma RectsAreSlices(nodes: seq<Node>, n: int, turn: int, rss: seq<seq<Compression.Rect>>, e: nat, m: nat, l: nat)
    requires Linked(nodes) && 0 <= n < |nodes| && |rss| == |Visit(nodes, n, turn).0|
    requires e == |EnterCalls(nodes, n, turn)| && m == |PutNode(nodes, n, turn).0|
    requires l == |VisitChildren(nodes, n, 0, PutNode(nodes, n, turn).1).0|
    ensures e + m + l <= |rss|
    ensures NodeRects(nodes, n, turn, rss) == rss[e..e + m]
    ensures ChildRects(nodes, n, turn, rss) == rss[e + m..e + m + l]
  {
    VisitCalls(nodes, n, turn);
  }

  lemma {:induction false} VisitText(nodes: seq<Node>, n: int, turn: int, rss: seq<seq<Compression.Rect>>, w: nat, h: nat)
    requires Linked(nodes) && ResignBare(nodes) && 0 <= n < |nodes| && Dims(w, h) && |rss| == |Visit(nodes, n, turn).0|
    ensures VisitWritten(nodes, n, turn, rss, w, h)
    decreases |nodes| - n, 2
  {
    var t1 := PutNode(nodes, n, turn).1;
    var rn, rc := NodeRects(nodes, n, turn, rss), ChildRects(nodes, n, turn, rss);
    VisitTextSplit(nodes, n, turn, rss, w, h);
    PutNodeText(nodes, n, turn, rn, w, h);
    ChildrenText(nodes, n, t1, rc, w, h);
    var own := OwnNode(nodes, n, turn, rn, w, h);
    var (cns, cts) := SgfChildren(nodes, n, t1, rc, w, h);
    assert SgfVisit(nodes, n, turn, rss, w, h) == (own + cns, cts);
    NodesConcatWellFormed(own, cns);
    var nt, ct := CallsText(nodes, PutNode(nodes, n, turn).0, rn, w, h), CallsText(nodes, VisitChildren(nodes, n, 0, t1).0, rc, w, h);
    MiddleText(own, cns, cts, nt, ct);
    BracketText(Edge(nodes, n, "("), nt + ct, Edge(nodes, n, ")"), own + cns, cts);
    if ResignLeaf(nodes, n) {
      assert VisitChildren(nodes, n, 0, t1).0 == [];
    }
  }

  lemma {:induction false} ChildrenText(nodes: seq<Node>, n: int, turn: int, rss: seq<seq<Compression.Rect>>, w: nat, h: nat)
    requires Linked(nodes) && ResignBare(nodes) && 0 <= n < |nodes| && Dims(w, h) && |rss| == |VisitChildren(nodes, n, 0, turn).0|
    ensures ChildrenWritten(nodes, n, turn, rss, w, h)
    decreases |nodes| - n, 1
  {
    if |nodes[n].nexts| == 1 {
      OnlyChildCalls(nodes, n, turn);
      VisitText(nodes, nodes[n].nexts[0], turn, rss, w, h);
    } else if |nodes[n].nexts| > 1 {
      BranchesText(nodes, n, 0, turn, rss, w, h);
    }
  }

  /** Children `k` and on of node `n`: the first child's calls and rectangles, and the rest. */
  lemma BranchesSplit(nodes: seq<Node>, n: int, k: nat, turn: int, rss: seq<seq<Compression.Rect>>, w: nat, h: nat)
      returns (c: int, ra: seq<seq<Compression.Rect>>, rb: seq<seq<Compression.Rect>>)
    requires Linked(nodes) && 0 <= n < |nodes| && Dims(w, h) && |rss| == |VisitChildren(nodes, n, k, turn).0|
    requires k < |nodes[n].nexts|
    ensures n < c < |nodes| && c == nodes[n].nexts[k] && NumberOfSiblings(nodes, c) == |nodes[n].nexts|
    ensures |ra| == |Visit(nodes, c, turn).0| && |rb| == |VisitChildren(nodes, n, k + 1, Visit(nodes, c, turn).1).0|
    ensures CallsText(nodes, VisitChildren(nodes, n, k, turn).0, rss, w, h) ==
      CallsText(nodes, Visit(nodes, c, turn).0, ra, w, h) + CallsText(nodes, VisitChildren(nodes, n, k + 1, Visit(nodes, c, turn).1).0, rb, w, h)
    ensures SgfBranches(nodes, n, k, turn, rss, w, h) ==
      BranchHead(nodes, c, turn, ra, w, h) + SgfBranches(nodes, n, k + 1, Visit(nodes, c, turn).1, rb, w, h)
  {
    assert NodeLinked(nodes, n);
    c := nodes[n].nexts[k];
    assert nodes[c].prev == n;
    var (first, t1) := Visit(nodes, c, turn);
    var rest := VisitChildren(nodes, n, k + 1, t1).0;
    assert VisitChildren(nodes, n, k, turn).0 == first + rest;
    ra, rb := rss[..|first|], rss[|first|..];
    assert rss == ra + rb;
    CallsTextConcat(nodes, first, rest, ra, rb, w, h);
  }

  /** A branch's text is its game tree, or nothing for a childless resignation. */
  lemma BranchHeadText(nodes: seq<Node>, c: int, turn: int, rss: seq<seq<Compression.Rect>>, w: nat, h: nat)
    requires Linked(nodes) && 0 <= c < |nodes| && Dims(w, h) && |rss| == |Visit(nodes, c, turn).0|
    requires NumberOfSiblings(nodes, c) > 1 && VisitWritten(nodes, c, turn, rss, w, h)
    ensures Sgf.WellFormedTrees(BranchHead(nodes, c, turn, rss, w, h))
    ensures CallsText(nodes, Visit(nodes, c, turn).0, rss, w, h) == Sgf.TreesText(BranchHead(nodes, c, turn, rss, w, h))
  {
    var head := BranchHead(nodes, c, turn, rss, w, h);
    if head != [] {
      assert head[1..] == [];
    }
  }

  lemma {:induction false} BranchesText(nodes: seq<Node>, n: int, k: nat, turn: int, rss: seq<seq<Compression.Rect>>, w: nat, h: nat)
    requires Linked(nodes) && ResignBare(nodes) && 0 <= n < |nodes| && Dims(w, h) && |rss| == |VisitChildren(nodes, n, k, turn).0|
    requires |nodes[n].nexts| > 1
    ensures Sgf.WellFormedTrees(SgfBranches(nodes, n, k, turn, rss, w, h))
    ensures CallsText(nodes, VisitChildren(nodes, n, k, turn).0, rss, w, h) == Sgf.TreesText(SgfBranches(nodes, n, k, turn, rss, w, h))
    decreases |nodes| - n, 0, |nodes[n].nexts| - k
  {
    if k < |nodes[n].nexts| {
      var c, ra, rb := BranchesSplit(nodes, n, k, turn, rss, w, h);
      var t1 := Visit(nodes, c, turn).1;
      VisitText(nodes, c, turn, ra, w, h);
      BranchHeadText(nodes, c, turn, ra, w, h);
      BranchesText(nodes, n, k + 1, t1, rb, w, h);
      var head, tail := BranchHead(nodes, c, turn, ra, w, h), SgfBranches(nodes, n, k + 1, t1, rb, w, h);
      Sgf.TreesTextConcat(head, tail);
      TreesConcatWellFormed(head, tail);
    }
  }

  // ----- the whole record -----

  /**
   * The SGF text of a whole-tree walk is one game tree the reader reads
   * back as `SgfTree`, when no resignation carries a setup or a comment.
   */
  lemma ExportParses(nodes: seq<Node>, rss: seq<seq<Compression.Rect>>, w: nat, h: nat)
    requires Linked(nodes) && ResignBare(nodes) && Dims(w, h) && |rss| == |TreeCalls(nodes)|
    ensures Sgf.WellFormedTree(SgfTree(nodes, rss, w, h))
    ensures Sgf.CollectionOf(CallsText(nodes, TreeCalls(nodes), rss, w, h)) == Success([SgfTree(nodes, rss, w, h)])
  {
    var t := SgfTree(nodes, rss, w, h);
    ExportText(nodes, rss, w, h);
    assert Sgf.TreesText([t]) == Sgf.TreeText(t) by {
      assert [t][1..] == [];
      assert Sgf.TreeText(t) + "" == Sgf.TreeText(t);
    }
    assert Sgf.WellFormedTrees([t]);
    Sgf.CollectionRoundTrip([t]);
  }

  /** The text of a whole-tree walk holds the SGF tree in one pair of parentheses. */
  lemma ExportText(nodes: seq<Node>, rss: seq<seq<Compression.Rect>>, w: nat, h: nat)
    requires Linked(nodes) && ResignBare(nodes) && Dims(w, h) && |rss| == |TreeCalls(nodes)|
    ensures Sgf.WellFormedTree(SgfTree(nodes, rss, w, h))
    ensures CallsText(nodes, TreeCalls(nodes), rss, w, h) == Sgf.TreeText(SgfTree(nodes, rss, w, h))
  {
    var inner := rss[1..|rss| - 1];
    TreeCallsText(nodes, rss, w, h);
    VisitText(nodes, 0, BLACK, inner, w, h);
    RootInline(nodes, inner, w, h);
  }

  /** The text of a whole-tree walk: that of its opening call, of the root's visit and of its closing call. */
  lemma TreeCallsText(nodes: seq<Node>, rss: seq<seq<Compression.Rect>>, w: nat, h: nat)
    requires Linked(nodes) && Dims(w, h) && |rss| == |TreeCalls(nodes)|
    ensures CallsText(nodes, TreeCalls(nodes), rss, w, h) ==
      CallText(nodes, BeginTree(BLACK), rss[0], w, h) +
      (CallsText(nodes, Visit(nodes, 0, BLACK).0, rss[1..|rss| - 1], w, h) + "") +
      CallText(nodes, EndTree(Visit(nodes, 0, BLACK).1), rss[|rss| - 1], w, h)
  {
    var calls, turn := Visit(nodes, 0, BLACK).0, Visit(nodes, 0, BLACK).1;
    var inner := rss[1..|rss| - 1];
    CallsText4(nodes, TreeCalls(nodes), [BeginTree(BLACK)], calls, [], [EndTree(turn)], rss, w, h);
    assert rss[..1] == [rss[0]] && rss[1..1 + |calls|] == inner && rss[1 + |calls|..] == [rss[|rss| - 1]];
    CallsTextOne(nodes, BeginTree(BLACK), rss[0], w, h);
    CallsTextOne(nodes, EndTree(turn), rss[|rss| - 1], w, h);
    assert CallsText(nodes, [], rss[1 + |calls|..1 + |calls|], w, h) == "";
  }

  /** The root is written inline: it has no siblings. */
  lemma RootInline(nodes: seq<Node>, inner: seq<seq<Compression.Rect>>, w: nat, h: nat)
    requires Linked(nodes) && Dims(w, h) && |inner| == |Visit(nodes, 0, BLACK).0| && VisitWritten(nodes, 0, BLACK, inner, w, h)
    ensures var (ns, ts) := SgfVisit(nodes, 0, BLACK, inner, w, h);
      && WellFormedNodes(ns) && Sgf.WellFormedTrees(ts)
      && "(" + (CallsText(nodes, Visit(nodes, 0, BLACK).0, inner, w, h) + "") + ")" == Sgf.TreeText(Sgf.GameTree(ns, ts))
  {
    var (ns, ts) := SgfVisit(nodes, 0, BLACK, inner, w, h);
    assert NumberOfSiblings(nodes, 0) == 0;
    Seqs.ConcatAssoc("(", Sgf.NodesText(ns), Sgf.TreesText(ts));
  }

  /** The first SGF node of the record starts with the root properties: GM, SZ and the game information. */
  lemma ExportRoot(nodes: seq<Node>, rss: seq<seq<Compression.Rect>>, w: nat, h: nat)
    requires Linked(nodes) && Dims(w, h) && |rss| == |TreeCalls(nodes)|
    ensures SgfTree(nodes, rss, w, h).nodes != []
    ensures RootProps(nodes[0], w, h) <= SgfTree(nodes, rss, w, h).nodes[0]
  {
    var inner := rss[1..|rss| - 1];
    var rn := NodeRects(nodes, 0, BLACK, inner);
    var cs := PutNode(nodes, 0, BLACK).0;
    assert cs[0] == PutSetupNode(0, BLACK);
    CallsPropsPrefix(nodes, cs, rn, w, h);
    assert CallProps(nodes, cs[0], rn[0], w, h) == RootProps(nodes[0], w, h);
  }

  /** The properties of a call list start with those of its first call. */
  lemma {:induction false} CallsPropsPrefix(nodes: seq<Node>, cs: seq<Call>, rss: seq<seq<Compression.Rect>>, w: nat, h: nat)
    requires Dims(w, h) && |rss| == |cs| && cs != []
    ensures CallProps(nodes, cs[0], rss[0], w, h) <= CallsProps(nodes, cs, rss, w, h)
    decreases |cs|
  {
    if |cs| == 1 {
      CallsTextOne(nodes, cs[0], rss[0], w, h);
      assert cs == [cs[0]] && rss == [rss[0]];
    } else {
      CallsPropsPrefix(nodes, cs[..|cs| - 1], rss[..|rss| - 1], w, h);
    }
  }

  /**
   * `s` is the SGF record of the whole tree: the text of its walk, every
   * setup written as rectangles `rss` that describe the setup's changes.
   */
  ghost predicate IsSgfRecord(s: string, nodes: seq<Node>, rss: seq<seq<Compression.Rect>>, w: nat, h: nat)
    requires Linked(nodes) && Dims(w, h)
    reads SetupsOf(nodes)
  {
    && |rss| == |TreeCalls(nodes)|
    && SetupRects(TreeCalls(nodes), rss, w, h)
    && s == CallsText(nodes, TreeCalls(nodes), rss, w, h)
  }

  /**
   * The SGF record of the game: of the whole tree, or with `toCurrentNode`
   * of the line from the root to the current node.  The text is that of
   * the calls; the whole tree's text reads back as its game tree.
   */
  method ToSGF(game: Game, toCurrentNode: bool) returns (r: Result<string>, ghost rss: seq<seq<Compression.Rect>>)
    requires game.Valid() && TreeString.PlacesFit(game.history.nodes, game.board.w * game.board.h)
    ensures r.Failure? ==> r.error == SgfPoints.OUT_OF_RANGE
    ensures toCurrentNode ==>
      && (r.Success? <==> TreeString.AllLettered(LineCalls(game.history.nodes, game.history.pointer), game.board.w))
      && (r.Success? ==> IsSgfLine(r.value, game.history.nodes, game.history.pointer, rss, game.board.w, game.board.h))
    ensures !toCurrentNode ==>
      && (r.Success? <==> TreeString.AllLettered(TreeCalls(game.history.nodes), game.board.w))
      && (r.Success? ==> IsSgfRecord(r.value, game.history.nodes, rss, game.board.w, game.board.h))
    ensures !toCurrentNode && r.Success? && ResignBare(game.history.nodes) ==>
      Sgf.CollectionOf(r.value) == Success([SgfTree(game.history.nodes, rss, game.board.w, game.board.h)])
  {
    if toCurrentNode {
      r, rss := LineToSGF(game.history.nodes, game.history.pointer, game.board.w, game.board.h);
    } else {
      r, rss := NodesToSGF(game.history.nodes, game.board.w, game.board.h);
    }
  }

  /**
   * `s` is the SGF record of the line from the root to node `n`: the text of
   * that line's calls, every setup written as rectangles `rss`.
   */
  ghost predicate IsSgfLine(s: string, nodes: seq<Node>, n: int, rss: seq<seq<Compression.Rect>>, w: nat, h: nat)
    requires Linked(nodes) && Dims(w, h) && 0 <= n < |nodes|
    reads SetupsOf(nodes)
  {
    && |rss| == |LineCalls(nodes, n)|
    && SetupRects(LineCalls(nodes, n), rss, w, h)
    && s == CallsText(nodes, LineCalls(nodes, n), rss, w, h)
  }

  /**
   * The text of the line's calls, or the program's error when one of them
   * would write a coordinate past 51, the last one a letter stands for.
   */
  method LineToSGF(nodes: seq<Node>, n: int, w: nat, h: nat) returns (r: Result<string>, ghost rss: seq<seq<Compression.Rect>>)
    requires Dims(w, h) && Linked(nodes) && SetupsFit(nodes, w, h) && TreeString.PlacesFit(nodes, w * h)
    requires 0 <= n < |nodes|
    ensures r.Success? <==> TreeString.AllLettered(LineCalls(nodes, n), w)
    ensures r.Failure? ==> r.error == SgfPoints.OUT_OF_RANGE
    ensures r.Success? ==> IsSgfLine(r.value, nodes, n, rss, w, h)
  {
    var calls := TreeString.RecordCallsOf(nodes, n, true);
    TreeString.RecordCallsFit(nodes, n, true, w, h);
    assert calls == LineCalls(nodes, n);
    rss := [];
    if !TreeString.AllLettered(calls, w) {
      return Failure(SgfPoints.OUT_OF_RANGE), rss;
    }
    var f := new SgfFormatter(w, h);
    rss := f.PutCalls(nodes, calls);
    assert unchanged(SetupsOf(nodes));
    var s := f.ToString();
    r := Success(s);
  }

  /**
   * The text of the whole tree's calls, or the program's error when one of
   * them would write a coordinate past 51.
   */
  method NodesToSGF(nodes: seq<Node>, w: nat, h: nat) returns (r: Result<string>, ghost rss: seq<seq<Compression.Rect>>)
    requires Dims(w, h) && Linked(nodes) && SetupsFit(nodes, w, h) && TreeString.PlacesFit(nodes, w * h)
    ensures r.Success? <==> TreeString.AllLettered(TreeCalls(nodes), w)
    ensures r.Failure? ==> r.error == SgfPoints.OUT_OF_RANGE
    ensures r.Success? ==> IsSgfRecord(r.value, nodes, rss, w, h)
    ensures r.Success? && ResignBare(nodes) ==> Sgf.CollectionOf(r.value) == Success([SgfTree(nodes, rss, w, h)])
  {
    var calls := TreeCalls(nodes);
    TreeString.TreeCallsFit(nodes, w, h);
    rss := [];
    if !TreeString.AllLettered(calls, w) {
      return Failure(SgfPoints.OUT_OF_RANGE), rss;
    }
    var f := new SgfFormatter(w, h);
    rss := f.PutCalls(nodes, calls);
    assert unchanged(SetupsOf(nodes));
    assert calls == TreeCalls(nodes);
    var s := f.ToString();
    r := Success(s);
    if ResignBare(nodes) {
      ExportParses(nodes, rss, w, h);
    }
  }
}
