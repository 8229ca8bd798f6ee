/**
 * Writing a game's whole history tree in a record format: the walk of
 * `TreeWalk` fed to a formatter, whose text is the record.
 */
module TreeString {
  import opened Stones
  import opened Wrappers
  import opened Geometry
  import opened BitIo
  import Base64
  import opened Diffs
  import opened HistoryNodes
  import opened History
  import opened TreeWalk
  import opened TreeTokens
  import TreeBase64
  import TreeHuman
  import SgfPoints

  /** Every move of the arena is on a board of `size` points. */
  ghost predicate PlacesFit(nodes: seq<Node>, size: int) {
    forall i | 0 <= i < |nodes| :: nodes[i].IsPlace() ==> nodes[i].pos < size
  }

  ghost predicate AllFit(cs: seq<Call>, w: int, h: int) {
    forall i | 0 <= i < |cs| :: TreeBase64.CallFits(cs[i], w, h)
  }

  /** Every point the calls write as SGF letters has letters; the text formats fail otherwise. */
  predicate AllLettered(cs: seq<Call>, w: int)
    requires w >= 1
  {
    forall i | 0 <= i < |cs| :: TreeBase64.CallLettered(cs[i], w)
  }

  lemma AllFitConcat(a: seq<Call>, b: seq<Call>, w: int, h: int)
    requires AllFit(a, w, h) && AllFit(b, w, h)
    ensures AllFit(a + b, w, h)
  {
    forall i | 0 <= i < |a + b| ensures TreeBase64.CallFits((a + b)[i], w, h) {
      if i >= |a| {
        assert (a + b)[i] == b[i - |a|];
      }
    }
  }

  /** The change list of a setup that fits a board is one the formatter can compress. */
  lemma SetupFitsFormatter(d: BoardDiff, w: int, h: int)
    requires Fits(ValueOf(d), w, h)
    ensures Compression.Fits(d.intersections, w, h)
  {
  }

  /** On an arena whose moves and setups fit the board, every call of a node fits it too. */
  lemma PutNodeFits(nodes: seq<Node>, n: int, turn: int, w: int, h: int)
    requires 0 <= n < |nodes| && SetupsFit(nodes, w, h) && PlacesFit(nodes, w * h)
    ensures AllFit(PutNode(nodes, n, turn).0, w, h)
  {
    if nodes[n].setup.Some? {
      var d := nodes[n].setup.value;
      assert d in SetupsOf(nodes);
      SetupFitsFormatter(d, w, h);
    }
  }

  lemma {:induction false} VisitFits(nodes: seq<Node>, n: int, turn: int, w: int, h: int)
    requires Linked(nodes) && 0 <= n < |nodes| && SetupsFit(nodes, w, h) && PlacesFit(nodes, w * h)
    ensures AllFit(Visit(nodes, n, turn).0, w, h)
    decreases |nodes| - n, 1
  {
    var branch := NumberOfSiblings(nodes, n) > 1;
    var enter := if branch then [Call.BeginBranch(n, turn)] else [];
    var (nodeCalls, t1) := PutNode(nodes, n, turn);
    var (childCalls, t2) := VisitChildren(nodes, n, 0, t1);
    var leave := if branch then [Call.EndBranch(n, t2)] else [];
    PutNodeFits(nodes, n, turn, w, h);
    VisitChildrenFits(nodes, n, 0, t1, w, h);
    AllFitConcat(enter, nodeCalls, w, h);
    AllFitConcat(enter + nodeCalls, childCalls, w, h);
    AllFitConcat(enter + nodeCalls + childCalls, leave, w, h);
  }

  lemma {:induction false} VisitChildrenFits(nodes: seq<Node>, n: int, k: nat, turn: int, w: int, h: int)
    requires Linked(nodes) && 0 <= n < |nodes| && SetupsFit(nodes, w, h) && PlacesFit(nodes, w * h)
    ensures AllFit(VisitChildren(nodes, n, k, turn).0, w, h)
    decreases |nodes| - n, 0, |nodes[n].nexts| - k
  {
    if k < |nodes[n].nexts| {
      assert NodeLinked(nodes, n);
      var c := nodes[n].nexts[k];
      assert nodes[c].prev == n;
      var (first, t1) := Visit(nodes, c, turn);
      VisitFits(nodes, c, turn, w, h);
      VisitChildrenFits(nodes, n, k + 1, t1, w, h);
      AllFitConcat(first, VisitChildren(nodes, n, k + 1, t1).0, w, h);
    }
  }

  lemma {:induction false} LineNodeCallsFit(nodes: seq<Node>, line: seq<int>, turn: int, w: int, h: int)
    requires forall k | 0 <= k < |line| :: 0 <= line[k] < |nodes|
    requires SetupsFit(nodes, w, h) && PlacesFit(nodes, w * h)
    ensures AllFit(LineNodeCalls(nodes, line, turn).0, w, h)
    decreases |line|
  {
    if line != [] {
      var (first, t1) := PutNode(nodes, line[0], turn);
      PutNodeFits(nodes, line[0], turn, w, h);
      LineNodeCallsFit(nodes, line[1..], t1, w, h);
      AllFitConcat(first, LineNodeCalls(nodes, line[1..], t1).0, w, h);
    }
  }

  lemma RecordCallsFit(nodes: seq<Node>, pointer: int, toCurrentNode: bool, w: int, h: int)
    requires Linked(nodes) && 0 <= pointer < |nodes| && SetupsFit(nodes, w, h) && PlacesFit(nodes, w * h)
    ensures AllFit(RecordCalls(nodes, pointer, toCurrentNode), w, h)
    ensures CallsRun(RecordCalls(nodes, pointer, toCurrentNode)[..|RecordCalls(nodes, pointer, toCurrentNode)| - 1], 0) == Some(0)
    ensures RecordCalls(nodes, pointer, toCurrentNode)[|RecordCalls(nodes, pointer, toCurrentNode)| - 1].EndTree?
  {
    if toCurrentNode {
      var (calls, turn) := LineNodeCalls(nodes, LineTo(nodes, pointer), BLACK);
      LineNodeCallsFit(nodes, LineTo(nodes, pointer), BLACK, w, h);
      AllFitConcat([BeginTree(BLACK)], calls, w, h);
      AllFitConcat([BeginTree(BLACK)] + calls, [EndTree(turn)], w, h);
      LineCallsShape(nodes, pointer);
    } else {
      TreeCallsFit(nodes, w, h);
      TreeCallsClosed(nodes);
    }
  }

  /**
   * The calls `toString` makes: with `toCurrentNode`, those of the line
   * from the root to the current node, collected by the program's loop;
   * otherwise those of the walk of the whole tree.
   */
  method RecordCallsOf(nodes: seq<Node>, pointer: int, toCurrentNode: bool) returns (calls: seq<Call>)
    requires Linked(nodes) && 0 <= pointer < |nodes|
    ensures calls == RecordCalls(nodes, pointer, toCurrentNode)
  {
    if toCurrentNode {
      var line := CollectLine(nodes, pointer);
      var (cs, turn) := LineNodeCalls(nodes, line, BLACK);
      calls := [BeginTree(BLACK)] + cs + [EndTree(turn)];
    } else {
      calls := TreeCalls(nodes);
    }
  }

  lemma TreeCallsFit(nodes: seq<Node>, w: int, h: int)
    requires Linked(nodes) && SetupsFit(nodes, w, h) && PlacesFit(nodes, w * h)
    ensures AllFit(TreeCalls(nodes), w, h)
  {
    var (calls, turn) := Visit(nodes, 0, BLACK);
    VisitFits(nodes, 0, BLACK, w, h);
    AllFitConcat([BeginTree(BLACK)], calls, w, h);
    AllFitConcat([BeginTree(BLACK)] + calls, [EndTree(turn)], w, h);
  }

  /**
   * `s` is a base64 record of the calls: it decodes to bytes whose bit
   * stream a reader at depth 0 reads back, token by token, as exactly the
   * tokens the calls encode, stopping at the end of the tree.
   */
  ghost predicate IsBase64Record(s: string, calls: seq<Call>, w: int, h: int)
    requires Dims(w, h)
  {
    var size := w * h;
    exists ts, bytes ::
      && Base64.AtobSafe(s) == Success(bytes)
      && TreeBase64.Encodes(ts, calls, w, h)
      && TreeBase64.TokensOf(StreamBits(bytes), size, BitWidth(size), 0) == Success(ts)
  }

  /** The base64 record of the game: of the whole tree, or with `toCurrentNode` of the line to the current node. */
  method ToBase64(game: Game, toCurrentNode: bool) returns (s: string)
    requires game.Valid() && PlacesFit(game.history.nodes, game.board.w * game.board.h)
    requires game.board.w * game.board.h + CMD_UPPER <= TreeBase64.TOKEN_LIMIT
    ensures IsBase64Record(s, old(RecordCalls(game.history.nodes, game.history.pointer, toCurrentNode)), game.board.w, game.board.h)
  {
    var calls := RecordCallsOf(game.history.nodes, game.history.pointer, toCurrentNode);
    assert unchanged(SetupsOf(game.history.nodes));
    assert calls == old(RecordCalls(game.history.nodes, game.history.pointer, toCurrentNode));
    RecordCallsFit(game.history.nodes, game.history.pointer, toCurrentNode, game.board.w, game.board.h);
    s := CallsToBase64(calls, game.board.w, game.board.h);
  }

  /** Feeds the calls of a closed record to a fresh base64 formatter and returns its text. */
  method CallsToBase64(calls: seq<Call>, w: int, h: int) returns (s: string)
    requires Dims(w, h) && w * h + CMD_UPPER <= TreeBase64.TOKEN_LIMIT && AllFit(calls, w, h)
    requires calls != [] && CallsRun(calls[..|calls| - 1], 0) == Some(0) && calls[|calls| - 1].EndTree?
    ensures IsBase64Record(s, calls, w, h)
  {
    var f := new TreeBase64.Base64Formatter(w, h);
    ghost var ts := f.PutCalls(calls);
    assert f.tokens == ts;
    s := f.ToString();
    AreaPositive(w, h);
    RecordOfTokens(s, ts, calls, w, h, f.boardSize);
  }

  lemma AreaPositive(w: int, h: int)
    requires Dims(w, h)
    ensures w * h >= 1
  {
  }

  lemma RecordOfTokens(s: string, ts: seq<Token>, calls: seq<Call>, w: int, h: int, size: nat)
    requires Dims(w, h) && size == w * h && size >= 1
    requires TreeBase64.Encodes(ts, calls, w, h) && forall i | 0 <= i < |ts| :: ValidToken(ts[i], size)
    requires calls != [] && CallsRun(calls[..|calls| - 1], 0) == Some(0) && calls[|calls| - 1].EndTree?
    requires exists bytes :: Base64.AtobSafe(s) == Success(bytes) && TreeBase64.ZeroPadded(StreamBits(bytes), TreeBase64.TokensBits(ts, size, BitWidth(size)))
    ensures IsBase64Record(s, calls, w, h)
  {
    TreeBase64.EncodedClosed(ts, calls, 0, w, h);
    var bytes :| Base64.AtobSafe(s) == Success(bytes) && TreeBase64.ZeroPadded(StreamBits(bytes), TreeBase64.TokensBits(ts, size, BitWidth(size)));
    ReadsBack(ts, StreamBits(bytes), size);
  }

  /** A zero-padded record of a closed token list is read back as that list. */
  lemma ReadsBack(ts: seq<Token>, stream: seq<bool>, size: nat)
    requires size >= 1 && TreeBase64.ClosedAt(ts, 0) && forall i | 0 <= i < |ts| :: ValidToken(ts[i], size)
    requires TreeBase64.ZeroPadded(stream, TreeBase64.TokensBits(ts, size, BitWidth(size)))
    ensures TreeBase64.TokensOf(stream, size, BitWidth(size), 0) == Success(ts)
  {
    var bits := TreeBase64.TokensBits(ts, size, BitWidth(size));
    assert stream == bits + stream[|bits|..];
    TreeBase64.TokensRoundTrip(ts, size, 0, stream[|bits|..]);
  }

  /**
   * `s` is a human-readable record of the calls: a reader at depth 0
   * reads it back, token by token, as exactly the tokens the calls
   * encode, stopping at the end of the tree.
   */
  ghost predicate IsHumanRecord(s: string, calls: seq<Call>, w: int, h: int)
    requires Dims(w, h)
  {
    exists ts :: TreeBase64.Encodes(ts, calls, w, h) && TreeHuman.TokensTextOf(s, w, h, 0) == Success(ts)
  }

  /**
   * The human-readable record of the game, of the whole tree or with
   * `toCurrentNode` of the line to the current node; the program's error
   * when a move or a setup would be written with a coordinate past 51, the
   * last one an SGF letter stands for.
   */
  method ToHumanReadable(game: Game, toCurrentNode: bool) returns (r: Result<string>)
    requires game.Valid() && PlacesFit(game.history.nodes, game.board.w * game.board.h)
    ensures r.Success? <==> AllLettered(old(RecordCalls(game.history.nodes, game.history.pointer, toCurrentNode)), game.board.w)
    ensures r.Failure? ==> r.error == SgfPoints.OUT_OF_RANGE
    ensures r.Success? ==> IsHumanRecord(r.value, old(RecordCalls(game.history.nodes, game.history.pointer, toCurrentNode)), game.board.w, game.board.h)
  {
    var calls := RecordCallsOf(game.history.nodes, game.history.pointer, toCurrentNode);
    assert unchanged(SetupsOf(game.history.nodes));
    assert calls == old(RecordCalls(game.history.nodes, game.history.pointer, toCurrentNode));
    RecordCallsFit(game.history.nodes, game.history.pointer, toCurrentNode, game.board.w, game.board.h);
    r := CallsToHumanReadable(calls, game.board.w, game.board.h);
  }

  /**
   * Feeds the calls of a closed record to a fresh human-readable formatter
   * and returns its text, or fails when a call would write a coordinate
   * that has no letter.
   */
  method CallsToHumanReadable(calls: seq<Call>, w: nat, h: nat) returns (r: Result<string>)
    requires Dims(w, h) && AllFit(calls, w, h)
    requires calls != [] && CallsRun(calls[..|calls| - 1], 0) == Some(0) && calls[|calls| - 1].EndTree?
    ensures r.Success? <==> AllLettered(calls, w)
    ensures r.Failure? ==> r.error == SgfPoints.OUT_OF_RANGE
    ensures r.Success? ==> IsHumanRecord(r.value, calls, w, h)
  {
    if !AllLettered(calls, w) {
      return Failure(SgfPoints.OUT_OF_RANGE);
    }
    var f := new TreeHuman.HumanFormatter(w, h);
    ghost var ts := f.PutCalls(calls);
    assert f.tokens == ts;
    var s := f.ToString();
    TreeBase64.EncodedClosed(ts, calls, 0, w, h);
    TreeHuman.TokensTextRoundTrip(ts, w, h, 0, []);
    assert s + [] == s;
    r := Success(s);
  }
}
