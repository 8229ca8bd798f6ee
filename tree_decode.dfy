/**
 * The base64 decoder: the record's text is decoded to bytes, and tokens
 * are read from their bit stream one at a time and replayed into a new
 * game until the end-of-branch token that closes depth 0, after which the
 * game is taken back to its root.  A game comes back only when the whole
 * record up to that token reads as tokens, and the tokens replayed are
 * exactly the ones `TreeBase64.TokensOf` reads.
 */
module TreeDecode {
  import opened Stones
  import opened Wrappers
  import Seqs
  import opened Geometry
  import Rules
  import opened BitIo
  import Base64
  import opened History
  import opened TreeTokens
  import opened TreeBase64
  import opened TreeRead
  import opened TreeReplay
  import TreeHuman

  const ILLEGAL_MOVE := "illegal move"

  /** The tokens `p` read before what `r` reads. */
  function Then(p: seq<Token>, r: Result<seq<Token>>): Result<seq<Token>> {
    match r
    case Success(v) => Success(p + v)
    case Failure(e) => Failure(e)
  }

  lemma ThenNothing(r: Result<seq<Token>>)
    ensures Then([], r) == r
  {
    if r.Success? {
      assert [] + r.value == r.value;
    }
  }

  /** A decoder stopped at a move: the tokens it replayed are how the whole list starts, the last of them a position. */
  ghost predicate StoppedAtMove(all: seq<Token>, replayed: seq<Token>) {
    0 < |replayed| <= |all| && all[..|replayed|] == replayed && replayed[|replayed| - 1].Place?
  }

  /** When what `r` reads succeeds, `p` is how the combined list starts. */
  lemma TakeThen(p: seq<Token>, r: Result<seq<Token>>)
    ensures Then(p, r).Success? ==> |p| <= |Then(p, r).value| && Then(p, r).value[..|p|] == p
  {
    if r.Success? {
      assert (p + r.value)[..|p|] == p;
    }
  }

  lemma ThenThen(p: seq<Token>, q: seq<Token>, r: Result<seq<Token>>)
    ensures Then(p, Then(q, r)) == Then(p + q, r)
  {
    if r.Success? {
      assert p + (q + r.value) == (p + q) + r.value;
    }
  }

  // ----- the tokens a stream starts with -----

  /** What a stream reads as to the end of the tree, split into its first token and the rest. */
  lemma TokensOfStep(s: seq<bool>, size: nat, bw: nat, depth: nat)
    requires bw >= 1
    ensures TokenOf(s, size, bw).Failure? ==> TokensOf(s, size, bw, depth).Failure?
    ensures TokenOf(s, size, bw).Success? ==>
      var (t, after) := TokenOf(s, size, bw).value;
      && (t == EndBranch && depth == 0 ==> TokensOf(s, size, bw, depth) == Success([EndBranch]))
      && (!(t == EndBranch && depth == 0) ==> TokensOf(s, size, bw, depth) == Then([t], TokensOf(after, size, bw, DepthAfter(t, depth))))
  {
  }

  /** What a text reads as to the end of the tree, split into its first token and the rest. */
  lemma TokensTextStep(s: string, w: int, h: int, depth: nat)
    requires Dims(w, h)
    ensures TreeHuman.TokenTextOf(s, w, h).Failure? ==> TreeHuman.TokensTextOf(s, w, h, depth).Failure?
    ensures TreeHuman.TokenTextOf(s, w, h).Success? ==>
      var (t, after) := TreeHuman.TokenTextOf(s, w, h).value;
      && (t == EndBranch && depth == 0 ==> TreeHuman.TokensTextOf(s, w, h, depth) == Success([EndBranch]))
      && (!(t == EndBranch && depth == 0) ==> TreeHuman.TokensTextOf(s, w, h, depth) == Then([t], TreeHuman.TokensTextOf(after, w, h, DepthAfter(t, depth))))
  {
  }

  /**
   * The stream `s`, read at depth `depth`, starts with the tokens `ts`,
   * none of them the end of the tree, and leaves `rest` at depth `depth'`.
   */
  ghost predicate StreamReadsAs(s: seq<bool>, size: nat, bw: nat, depth: nat, ts: seq<Token>, rest: seq<bool>, depth': nat)
    requires bw >= 1
    decreases |ts|
  {
    if ts == [] then rest == s && depth' == depth
    else
      && TokenOf(s, size, bw).Success?
      && var (t, after) := TokenOf(s, size, bw).value;
         && t == ts[0] && !(t == EndBranch && depth == 0)
         && StreamReadsAs(after, size, bw, DepthAfter(t, depth), ts[1..], rest, depth')
  }

  /** One more token read from where the others left off. */
  lemma {:induction false} StreamReadsAsAppend(s: seq<bool>, size: nat, bw: nat, depth: nat, ts: seq<Token>, rest: seq<bool>, d: nat, t: Token, rest': seq<bool>)
    requires bw >= 1 && StreamReadsAs(s, size, bw, depth, ts, rest, d)
    requires TokenOf(rest, size, bw) == Success((t, rest')) && !(t == EndBranch && d == 0)
    ensures StreamReadsAs(s, size, bw, depth, ts + [t], rest', DepthAfter(t, d))
    decreases |ts|
  {
    if ts == [] {
      assert [] + [t] == [t] && [t][1..] == [];
    } else {
      var (t0, after) := TokenOf(s, size, bw).value;
      StreamReadsAsAppend(after, size, bw, DepthAfter(t0, depth), ts[1..], rest, d, t, rest');
      assert (ts + [t])[1..] == ts[1..] + [t];
    }
  }

  /** What a stream reads as to the end of the tree is the tokens it starts with, then what the rest reads as. */
  lemma {:induction false} StreamReadsAsTokens(s: seq<bool>, size: nat, bw: nat, depth: nat, ts: seq<Token>, rest: seq<bool>, d: nat)
    requires bw >= 1 && StreamReadsAs(s, size, bw, depth, ts, rest, d)
    ensures TokensOf(s, size, bw, depth) == Then(ts, TokensOf(rest, size, bw, d))
    decreases |ts|
  {
    if ts == [] {
      ThenNothing(TokensOf(s, size, bw, depth));
    } else {
      var (t, after) := TokenOf(s, size, bw).value;
      StreamReadsAsTokens(after, size, bw, DepthAfter(t, depth), ts[1..], rest, d);
      ThenThen([t], ts[1..], TokensOf(rest, size, bw, d));
      Seqs.HeadTail(ts);
    }
  }

  /** Where the decoder stops, in terms of the tokens it has read: an unreadable token, the end of the tree, or a position it refuses. */
  lemma StreamStops(s0: seq<bool>, size: nat, bw: nat, ts: seq<Token>, s: seq<bool>, d: nat)
    requires bw >= 1 && StreamReadsAs(s0, size, bw, 0, ts, s, d)
    ensures TokenOf(s, size, bw).Failure? ==> TokensOf(s0, size, bw, 0).Failure?
    ensures TokenOf(s, size, bw).Success? && TokenOf(s, size, bw).value.0 == EndBranch && d == 0 ==>
      TokensOf(s0, size, bw, 0) == Success(ts + [EndBranch])
    ensures TokenOf(s, size, bw).Success? && TokenOf(s, size, bw).value.0.Place? && TokensOf(s0, size, bw, 0).Success? ==>
      StoppedAtMove(TokensOf(s0, size, bw, 0).value, ts + [TokenOf(s, size, bw).value.0])
  {
    StreamReadsAsTokens(s0, size, bw, 0, ts, s, d);
    TokensOfStep(s, size, bw, d);
    if TokenOf(s, size, bw).Success? {
      var (t, after) := TokenOf(s, size, bw).value;
      if t.Place? {
        StreamReadsAsAppend(s0, size, bw, 0, ts, s, d, t, after);
        StreamReadsAsTokens(s0, size, bw, 0, ts + [t], after, d);
        TakeThen(ts + [t], TokensOf(after, size, bw, d));
      }
    }
  }

  /** Where the human-readable decoder stops, in terms of the tokens it has read. */
  lemma TextStops(s0: string, w: int, h: int, ts: seq<Token>, s: string, d: nat)
    requires Dims(w, h) && TextReadsAs(s0, w, h, 0, ts, s, d)
    ensures TreeHuman.TokenTextOf(s, w, h).Failure? ==> TreeHuman.TokensTextOf(s0, w, h, 0).Failure?
    ensures TreeHuman.TokenTextOf(s, w, h).Success? && TreeHuman.TokenTextOf(s, w, h).value.0 == EndBranch && d == 0 ==>
      TreeHuman.TokensTextOf(s0, w, h, 0) == Success(ts + [EndBranch])
    ensures TreeHuman.TokenTextOf(s, w, h).Success? && TreeHuman.TokenTextOf(s, w, h).value.0.Place? && TreeHuman.TokensTextOf(s0, w, h, 0).Success? ==>
      StoppedAtMove(TreeHuman.TokensTextOf(s0, w, h, 0).value, ts + [TreeHuman.TokenTextOf(s, w, h).value.0])
  {
    TextReadsAsTokens(s0, w, h, 0, ts, s, d);
    TokensTextStep(s, w, h, d);
    if TreeHuman.TokenTextOf(s, w, h).Success? {
      var (t, after) := TreeHuman.TokenTextOf(s, w, h).value;
      if t.Place? {
        TextReadsAsAppend(s0, w, h, 0, ts, s, d, t, after);
        TextReadsAsTokens(s0, w, h, 0, ts + [t], after, d);
        TakeThen(ts + [t], TreeHuman.TokensTextOf(after, w, h, d));
      }
    }
  }

  /** The text `s`, read at depth `depth`, starts with the tokens `ts`, none of them the end of the tree, and leaves `rest` at depth `depth'`. */
  ghost predicate TextReadsAs(s: string, w: int, h: int, depth: nat, ts: seq<Token>, rest: string, depth': nat)
    requires Dims(w, h)
    decreases |ts|
  {
    if ts == [] then rest == s && depth' == depth
    else
      && TreeHuman.TokenTextOf(s, w, h).Success?
      && var (t, after) := TreeHuman.TokenTextOf(s, w, h).value;
         && t == ts[0] && !(t == EndBranch && depth == 0)
         && TextReadsAs(after, w, h, DepthAfter(t, depth), ts[1..], rest, depth')
  }

  /** One more token read from where the others left off. */
  lemma {:induction false} TextReadsAsAppend(s: string, w: int, h: int, depth: nat, ts: seq<Token>, rest: string, d: nat, t: Token, rest': string)
    requires Dims(w, h) && TextReadsAs(s, w, h, depth, ts, rest, d)
    requires TreeHuman.TokenTextOf(rest, w, h) == Success((t, rest')) && !(t == EndBranch && d == 0)
    ensures TextReadsAs(s, w, h, depth, ts + [t], rest', DepthAfter(t, d))
    decreases |ts|
  {
    if ts == [] {
      assert [] + [t] == [t] && [t][1..] == [];
    } else {
      var (t0, after) := TreeHuman.TokenTextOf(s, w, h).value;
      TextReadsAsAppend(after, w, h, DepthAfter(t0, depth), ts[1..], rest, d, t, rest');
      assert (ts + [t])[1..] == ts[1..] + [t];
    }
  }

  /** What a text reads as to the end of the tree is the tokens it starts with, then what the rest reads as. */
  lemma {:induction false} TextReadsAsTokens(s: string, w: int, h: int, depth: nat, ts: seq<Token>, rest: string, d: nat)
    requires Dims(w, h) && TextReadsAs(s, w, h, depth, ts, rest, d)
    ensures TreeHuman.TokensTextOf(s, w, h, depth) == Then(ts, TreeHuman.TokensTextOf(rest, w, h, d))
    decreases |ts|
  {
    if ts == [] {
      ThenNothing(TreeHuman.TokensTextOf(s, w, h, depth));
    } else {
      var (t, after) := TreeHuman.TokenTextOf(s, w, h).value;
      TextReadsAsTokens(after, w, h, DepthAfter(t, depth), ts[1..], rest, d);
      ThenThen([t], ts[1..], TreeHuman.TokensTextOf(rest, w, h, d));
      Seqs.HeadTail(ts);
    }
  }

  // ----- what the reading functions deliver fits the board -----

  lemma {:induction false} PointsOfValid(s: seq<bool>, size: nat, bw: nat)
    requires bw >= 1 && PointsOf(s, size, bw).Success?
    ensures forall i | 0 <= i < |PointsOf(s, size, bw).value.0| :: OnBoardPos(PointsOf(s, size, bw).value.0[i], size)
    decreases |s|
  {
    var (v, rest) := Take(s, bw).value;
    if v < size {
      PointsOfValid(rest, size, bw);
    }
  }

  lemma {:induction false} RectsOfValid(s: seq<bool>, size: nat, bw: nat)
    requires bw >= 1 && RectsOf(s, size, bw).Success?
    ensures var rs := RectsOf(s, size, bw).value.0;
      forall i | 0 <= i < |rs| :: OnBoardPos(rs[i].0, size) && OnBoardPos(rs[i].1, size)
    decreases |s|
  {
    var (lt, rest) := Take(s, bw).value;
    if lt < size {
      var (rb, rest') := Take(rest, bw).value;
      RectsOfValid(rest', size, bw);
    }
  }

  lemma GroupOfValid(s: seq<bool>, size: nat, bw: nat)
    requires bw >= 1 && GroupOf(s, size, bw).Success?
    ensures ValidGroup(GroupOf(s, size, bw).value.0, size)
  {
    PointsOfValid(s, size, bw);
    RectsOfValid(PointsOf(s, size, bw).value.1, size, bw);
  }

  /** Every token read from a stream is one the board can take. */
  lemma TokenOfValid(s: seq<bool>, size: nat, bw: nat)
    requires bw >= 1 && TokenOf(s, size, bw).Success?
    ensures ValidToken(TokenOf(s, size, bw).value.0, size)
  {
    var (v, rest) := Take(s, bw).value;
    if v >= size && v - size == CMD_SPECIAL {
      var (sub, rest') := Take(rest, BITWIDTH_SUBCMD).value;
      if sub == SUBCMD_SETUP {
        var (flag, r0) := Take(rest', 1).value;
        if flag != 0 {
          GroupOfValid(r0, size, bw);
          var r1 := GroupOf(r0, size, bw).value.1;
          GroupOfValid(r1, size, bw);
          GroupOfValid(GroupOf(r1, size, bw).value.1, size, bw);
        }
      }
    }
  }

  /** `ReadToken`, with what it reads known to fit the board. */
  method ReadValidToken(reader: BitReader, size: nat, bw: nat) returns (r: Result<Token>)
    requires Readable(reader) && 1 <= bw <= 31
    modifies reader
    ensures Readable(reader)
    ensures Delivers(r, TokenOf(old(Rest(reader)), size, bw), Rest(reader))
    ensures r.Success? ==> ValidToken(r.value, size)
  {
    ghost var s := Rest(reader);
    r := ReadToken(reader, size, bw);
    if r.Success? {
      TokenOfValid(s, size, bw);
    }
  }

  // ----- the decoder -----

  /**
   * The program's `fromBase64`.  Text that is not base64 is refused; a
   * game comes back only when the bit stream reads, up to the end of the
   * tree, as the tokens that were replayed into it, and it is then at its
   * root.  A token that cannot be read, or a move that is illegal, stops
   * the decoder with a failure.
   */
  method FromBase64(b64: string, w: nat, h: nat) returns (r: Result<Game>, ghost replayed: seq<Token>, ghost trace: seq<Snap>)
    requires Dims(w, h) && w * h + CMD_UPPER <= TOKEN_LIMIT
    ensures Base64.AtobSafe(b64).Failure? ==> r.Failure?
    ensures r.Success? ==>
      && Base64.AtobSafe(b64).Success?
      && TokensOf(StreamBits(Base64.AtobSafe(b64).value), w * h, BitWidth(w * h), 0) == Success(replayed)
    ensures r.Success? ==>
      fresh(r.value) && r.value.Valid() && r.value.board.w == w && r.value.board.h == h && r.value.history.pointer == 0
    ensures r.Failure? && Base64.AtobSafe(b64).Success? && TokensOf(StreamBits(Base64.AtobSafe(b64).value), w * h, BitWidth(w * h), 0).Success? ==>
      r.error == ILLEGAL_MOVE && StoppedAtMove(TokensOf(StreamBits(Base64.AtobSafe(b64).value), w * h, BitWidth(w * h), 0).value, replayed)
    ensures r.Success? ==> Chain(trace, replayed) && trace[0] == Start(w, h) && SnapOf(r.value, []) == trace[|trace| - 1]
  {
    var bytes := Base64.AtobSafe(b64);
    if bytes.Failure? {
      return Failure(bytes.error), [], [];
    }
    r, replayed, trace := FromBytes(bytes.value, w, h);
  }

  /** The decoder after base64: a new game with the tokens of the bytes' bit stream replayed into it. */
  method FromBytes(bytes: seq<Byte>, w: nat, h: nat) returns (r: Result<Game>, ghost replayed: seq<Token>, ghost trace: seq<Snap>)
    requires Dims(w, h) && w * h + CMD_UPPER <= TOKEN_LIMIT
    ensures r.Success? ==> TokensOf(StreamBits(bytes), w * h, BitWidth(w * h), 0) == Success(replayed)
    ensures r.Success? ==>
      fresh(r.value) && r.value.Valid() && r.value.board.w == w && r.value.board.h == h && r.value.history.pointer == 0
    ensures r.Failure? && TokensOf(StreamBits(bytes), w * h, BitWidth(w * h), 0).Success? ==>
      r.error == ILLEGAL_MOVE && StoppedAtMove(TokensOf(StreamBits(bytes), w * h, BitWidth(w * h), 0).value, replayed)
    ensures r.Success? ==> Chain(trace, replayed) && trace[0] == Start(w, h) && SnapOf(r.value, []) == trace[|trace| - 1]
  {
    var reader := new BitReader(bytes, 0);
    var boardSize := w * h;
    var bitWidth := BitWidth(boardSize);
    WithinTokenLimit(boardSize);
    BitWidthFits(boardSize);
    var game := new Game(w, h);
    assert SetupsOf(game.history.nodes) == {};
    assert Rest(reader) == StreamBits(bytes);
    assert SnapOf(game, []) == Start(w, h) by {
      assert SetupMap(game.history.nodes) == map[];
    }
    var done;
    done, replayed, trace := Replay(reader, game, boardSize, bitWidth);
    if done.Failure? {
      return Failure(done.error), replayed, trace;
    }
    r := Success(game);
  }

  /**
   * The decoder's token loop: tokens read from the reader and replayed
   * into the game until the end of the tree, what the stream reads as at
   * depth 0 being exactly the tokens replayed, the last an end of branch.
   */
  method Replay(reader: BitReader, game: Game, size: nat, bw: nat) returns (r: Result<()>, ghost replayed: seq<Token>, ghost trace: seq<Snap>)
    requires Readable(reader) && 1 <= bw <= 31 && game.Valid() && size == game.board.w * game.board.h
    modifies reader, game, game.board, game.board.intersections, game.history, SetupsOf(game.history.nodes)
    ensures game.Valid()
    ensures r.Success? ==> TokensOf(old(Rest(reader)), size, bw, 0) == Success(replayed) && game.history.pointer == 0
    ensures r.Failure? && TokensOf(old(Rest(reader)), size, bw, 0).Success? ==>
      && r.error == ILLEGAL_MOVE && StoppedAtMove(TokensOf(old(Rest(reader)), size, bw, 0).value, replayed)
      && var last := replayed[|replayed| - 1];
         last.Place? && (game.finished || !Rules.IsMoveLegal(game.board.State(), last.pos, game.board.turn))
    ensures r.Success? ==> Chain(trace, replayed) && trace[0] == old(SnapOf(game, [])) && SnapOf(game, []) == trace[|trace| - 1]
    ensures r.Failure? && TokensOf(old(Rest(reader)), size, bw, 0).Success? ==>
      && Chain(trace, replayed[..|replayed| - 1]) && trace[0] == old(SnapOf(game, []))
      && SnapOf(game, trace[|trace| - 1].stack) == trace[|trace| - 1] && Refused(trace[|trace| - 1], replayed[|replayed| - 1])
  {
    replayed := [];
    var nodeStack: seq<int> := [];
    ghost var s0 := Rest(reader);
    ghost var start := SnapOf(game, []);
    trace := [start];
    while true
      invariant Readable(reader) && game.Valid() && size == game.board.w * game.board.h
      invariant game.board.intersections == old(game.board.intersections)
      invariant forall e | e in SetupsOf(game.history.nodes) :: e in old(SetupsOf(game.history.nodes)) || fresh(e)
      invariant StackIn(nodeStack, game.history.nodes)
      invariant StreamReadsAs(s0, size, bw, 0, replayed, Rest(reader), |nodeStack|)
      invariant Chain(trace, replayed) && trace[0] == start && SnapOf(game, nodeStack) == trace[|trace| - 1]
      decreases |Rest(reader)|
    {
      ghost var s := Rest(reader);
      ghost var current := game.history.nodes[game.history.pointer].setup;
      assert current.Some? ==> current.value in SetupsOf(game.history.nodes);
      var step, t, next := DecodeToken(reader, game, size, bw, nodeStack, trace, replayed);
      StreamStops(s0, size, bw, replayed, s, |nodeStack|);
      if step.Failure? {
        return Failure(step.error), replayed, trace;
      }
      if step.value.Illegal? {
        ChainBeforeLast(trace, replayed, t);
        replayed := replayed + [t];
        return Failure(ILLEGAL_MOVE), replayed, trace;
      }
      if step.value.Ended? {
        replayed, trace := replayed + [EndBranch], next;
        return Success(()), replayed, trace;
      }
      StreamReadsAsAppend(s0, size, bw, 0, replayed, s, |nodeStack|, t, Rest(reader));
      replayed, trace, nodeStack := replayed + [t], next, step.value.stack;
    }
  }

  /**
   * A token read, replayed into the game: the chain of snapshots grows by
   * the game the token leaves, unless the move is refused.
   */
  method ReplayToken(game: Game, t: Token, stack: seq<int>, ghost trace: seq<Snap>, ghost done: seq<Token>)
    returns (step: Step, ghost next: seq<Snap>)
    requires game.Valid() && ValidToken(t, game.board.w * game.board.h)
    requires StackIn(stack, game.history.nodes) && Chain(trace, done) && SnapOf(game, stack) == trace[|trace| - 1]
    modifies game, game.board, game.board.intersections, game.history, SetupSet(game.history.nodes[game.history.pointer].setup)
    ensures game.Valid() && game.board.intersections == old(game.board.intersections)
    ensures forall e | e in SetupsOf(game.history.nodes) :: e in old(SetupsOf(game.history.nodes)) || fresh(e)
    ensures step.Ended? ==> t == EndBranch && stack == [] && game.history.pointer == 0
    ensures step.Going? ==>
      !(t == EndBranch && stack == []) && |step.stack| == DepthAfter(t, |stack|) && StackIn(step.stack, game.history.nodes)
    ensures step.Illegal? ==>
      t.Place? && t.pos == step.pos && (game.finished || !Rules.IsMoveLegal(game.board.State(), t.pos, game.board.turn))
    ensures step.Illegal? ==> Refused(trace[|trace| - 1], t) && SnapOf(game, stack) == trace[|trace| - 1]
    ensures !step.Illegal? ==> next == trace + [SnapOf(game, if step.Going? then step.stack else [])] && Chain(next, done + [t])
  {
    next := trace;
    step := ApplyToken(game, t, stack);
    if !step.Illegal? {
      ghost var b := SnapOf(game, if step.Going? then step.stack else []);
      ChainAppend(trace, done, t, b);
      next := trace + [b];
    }
  }

  /**
   * One pass of the token loop: a token read and replayed, with what the
   * stream reads as at the current depth split into that token and what
   * the rest reads as at the depth after it.
   */
  method DecodeToken(reader: BitReader, game: Game, size: nat, bw: nat, stack: seq<int>, ghost trace: seq<Snap>, ghost done: seq<Token>)
    returns (r: Result<Step>, ghost t: Token, ghost next: seq<Snap>)
    requires Readable(reader) && 1 <= bw <= 31 && game.Valid() && size == game.board.w * game.board.h
    requires StackIn(stack, game.history.nodes) && Chain(trace, done) && SnapOf(game, stack) == trace[|trace| - 1]
    modifies reader, game, game.board, game.board.intersections, game.history, SetupSet(game.history.nodes[game.history.pointer].setup)
    ensures Readable(reader) && game.Valid() && game.board.intersections == old(game.board.intersections)
    ensures forall e | e in SetupsOf(game.history.nodes) :: e in old(SetupsOf(game.history.nodes)) || fresh(e)
    ensures r.Success? ==> |Rest(reader)| < old(|Rest(reader)|)
    ensures r.Failure? ==> TokenOf(old(Rest(reader)), size, bw).Failure? && TokensOf(old(Rest(reader)), size, bw, |stack|).Failure?
    ensures r.Success? ==> TokenOf(old(Rest(reader)), size, bw) == Success((t, Rest(reader)))
    ensures r.Success? && r.value.Ended? ==>
      t == EndBranch && stack == [] && TokensOf(old(Rest(reader)), size, bw, |stack|) == Success([EndBranch]) && game.history.pointer == 0
    ensures r.Success? && r.value.Going? ==>
      && !(t == EndBranch && stack == []) && |r.value.stack| == DepthAfter(t, |stack|)
      && StackIn(r.value.stack, game.history.nodes)
      && TokensOf(old(Rest(reader)), size, bw, |stack|) == Then([t], TokensOf(Rest(reader), size, bw, |r.value.stack|))
    ensures r.Success? && r.value.Illegal? ==>
      t.Place? && t.pos == r.value.pos && (game.finished || !Rules.IsMoveLegal(game.board.State(), t.pos, game.board.turn))
    ensures r.Success? && r.value.Illegal? ==> Refused(trace[|trace| - 1], t) && SnapOf(game, stack) == trace[|trace| - 1]
    ensures r.Success? && !r.value.Illegal? ==>
      && next == trace + [SnapOf(game, if r.value.Going? then r.value.stack else [])]
      && Chain(next, done + [t])
  {
    ghost var s := Rest(reader);
    t, next := EndBranch, trace;
    var token := ReadValidToken(reader, size, bw);
    TokensOfStep(s, size, bw, |stack|);
    if token.Failure? {
      return Failure(token.error), t, next;
    }
    t := token.value;
    var step;
    step, next := ReplayToken(game, token.value, stack, trace, done);
    r := Success(step);
  }

  // ----- the human-readable decoder -----

  /**
   * The program's `fromHumanReadable`.  A game comes back only when the
   * text reads, up to the end of the tree, as the tokens that were
   * replayed into it, and it is then at its root.  A token that cannot be
   * read, or a move that is illegal, stops the decoder with a failure.
   */
  method FromHumanReadable(str: string, w: nat, h: nat) returns (r: Result<Game>, ghost replayed: seq<Token>, ghost trace: seq<Snap>)
    requires Dims(w, h)
    ensures r.Success? ==> TreeHuman.TokensTextOf(str, w, h, 0) == Success(replayed)
    ensures r.Success? ==>
      fresh(r.value) && r.value.Valid() && r.value.board.w == w && r.value.board.h == h && r.value.history.pointer == 0
    ensures r.Failure? && TreeHuman.TokensTextOf(str, w, h, 0).Success? ==>
      r.error == ILLEGAL_MOVE && StoppedAtMove(TreeHuman.TokensTextOf(str, w, h, 0).value, replayed)
    ensures r.Success? ==> Chain(trace, replayed) && trace[0] == Start(w, h) && SnapOf(r.value, []) == trace[|trace| - 1]
  {
    var reader := new TreeHuman.TextReader(str);
    var game := new Game(w, h);
    assert SetupsOf(game.history.nodes) == {};
    assert SnapOf(game, []) == Start(w, h) by {
      assert SetupMap(game.history.nodes) == map[];
    }
    var done;
    done, replayed, trace := HumanReplay(reader, game, w, h);
    if done.Failure? {
      return Failure(done.error), replayed, trace;
    }
    r := Success(game);
  }

  /**
   * The human-readable decoder's token loop: tokens read from the text
   * and replayed into the game until the end of the tree, what the text
   * reads as at depth 0 being exactly the tokens replayed.
   */
  method HumanReplay(reader: TreeHuman.TextReader, game: Game, w: nat, h: nat) returns (r: Result<()>, ghost replayed: seq<Token>, ghost trace: seq<Snap>)
    requires reader.Valid() && Dims(w, h) && game.Valid() && game.board.w == w && game.board.h == h
    modifies reader, game, game.board, game.board.intersections, game.history, SetupsOf(game.history.nodes)
    ensures game.Valid()
    ensures r.Success? ==> TreeHuman.TokensTextOf(old(reader.Rest()), w, h, 0) == Success(replayed) && game.history.pointer == 0
    ensures r.Failure? && TreeHuman.TokensTextOf(old(reader.Rest()), w, h, 0).Success? ==>
      && r.error == ILLEGAL_MOVE && StoppedAtMove(TreeHuman.TokensTextOf(old(reader.Rest()), w, h, 0).value, replayed)
      && var last := replayed[|replayed| - 1];
         last.Place? && (game.finished || !Rules.IsMoveLegal(game.board.State(), last.pos, game.board.turn))
    ensures r.Success? ==> Chain(trace, replayed) && trace[0] == old(SnapOf(game, [])) && SnapOf(game, []) == trace[|trace| - 1]
    ensures r.Failure? && TreeHuman.TokensTextOf(old(reader.Rest()), w, h, 0).Success? ==>
      && Chain(trace, replayed[..|replayed| - 1]) && trace[0] == old(SnapOf(game, []))
      && SnapOf(game, trace[|trace| - 1].stack) == trace[|trace| - 1] && Refused(trace[|trace| - 1], replayed[|replayed| - 1])
  {
    replayed := [];
    var nodeStack: seq<int> := [];
    ghost var s0 := reader.Rest();
    ghost var start := SnapOf(game, []);
    trace := [start];
    while true
      invariant reader.Valid() && game.Valid() && game.board.w == w && game.board.h == h
      invariant game.board.intersections == old(game.board.intersections)
      invariant forall e | e in SetupsOf(game.history.nodes) :: e in old(SetupsOf(game.history.nodes)) || fresh(e)
      invariant StackIn(nodeStack, game.history.nodes)
      invariant TextReadsAs(s0, w, h, 0, replayed, reader.Rest(), |nodeStack|)
      invariant Chain(trace, replayed) && trace[0] == start && SnapOf(game, nodeStack) == trace[|trace| - 1]
      decreases |reader.Rest()|
    {
      ghost var s := reader.Rest();
      ghost var current := game.history.nodes[game.history.pointer].setup;
      assert current.Some? ==> current.value in SetupsOf(game.history.nodes);
      var step, t, next := DecodeHumanToken(reader, game, w, h, nodeStack, trace, replayed);
      TextStops(s0, w, h, replayed, s, |nodeStack|);
      if step.Failure? {
        return Failure(step.error), replayed, trace;
      }
      if step.value.Illegal? {
        ChainBeforeLast(trace, replayed, t);
        replayed := replayed + [t];
        return Failure(ILLEGAL_MOVE), replayed, trace;
      }
      if step.value.Ended? {
        replayed, trace := replayed + [EndBranch], next;
        return Success(()), replayed, trace;
      }
      TextReadsAsAppend(s0, w, h, 0, replayed, s, |nodeStack|, t, reader.Rest());
      replayed, trace, nodeStack := replayed + [t], next, step.value.stack;
    }
  }

  /** One pass of the human-readable token loop: a token read and replayed. */
  method DecodeHumanToken(reader: TreeHuman.TextReader, game: Game, w: nat, h: nat, stack: seq<int>, ghost trace: seq<Snap>, ghost done: seq<Token>)
    returns (r: Result<Step>, ghost t: Token, ghost next: seq<Snap>)
    requires reader.Valid() && Dims(w, h) && game.Valid() && game.board.w == w && game.board.h == h
    requires StackIn(stack, game.history.nodes) && Chain(trace, done) && SnapOf(game, stack) == trace[|trace| - 1]
    modifies reader, game, game.board, game.board.intersections, game.history, SetupSet(game.history.nodes[game.history.pointer].setup)
    ensures reader.Valid() && game.Valid() && game.board.intersections == old(game.board.intersections)
    ensures forall e | e in SetupsOf(game.history.nodes) :: e in old(SetupsOf(game.history.nodes)) || fresh(e)
    ensures r.Success? ==> |reader.Rest()| < old(|reader.Rest()|)
    ensures r.Failure? ==> TreeHuman.TokenTextOf(old(reader.Rest()), w, h).Failure? && TreeHuman.TokensTextOf(old(reader.Rest()), w, h, |stack|).Failure?
    ensures r.Success? ==> TreeHuman.TokenTextOf(old(reader.Rest()), w, h) == Success((t, reader.Rest()))
    ensures r.Success? && r.value.Ended? ==>
      t == EndBranch && stack == [] && TreeHuman.TokensTextOf(old(reader.Rest()), w, h, |stack|) == Success([EndBranch]) && game.history.pointer == 0
    ensures r.Success? && r.value.Going? ==>
      && !(t == EndBranch && stack == []) && |r.value.stack| == DepthAfter(t, |stack|)
      && StackIn(r.value.stack, game.history.nodes)
      && TreeHuman.TokensTextOf(old(reader.Rest()), w, h, |stack|) == Then([t], TreeHuman.TokensTextOf(reader.Rest(), w, h, |r.value.stack|))
    ensures r.Success? && r.value.Illegal? ==>
      t.Place? && t.pos == r.value.pos && (game.finished || !Rules.IsMoveLegal(game.board.State(), t.pos, game.board.turn))
    ensures r.Success? && r.value.Illegal? ==> Refused(trace[|trace| - 1], t) && SnapOf(game, stack) == trace[|trace| - 1]
    ensures r.Success? && !r.value.Illegal? ==>
      && next == trace + [SnapOf(game, if r.value.Going? then r.value.stack else [])]
      && Chain(next, done + [t])
  {
    TokensTextStep(reader.Rest(), w, h, |stack|);
    t, next := EndBranch, trace;
    var token := TreeHuman.ReadTextToken(reader, w, h);
    if token.Failure? {
      return Failure(token.error), t, next;
    }
    t := token.value;
    var step;
    step, next := ReplayToken(game, token.value, stack, trace, done);
    r := Success(step);
  }
}
