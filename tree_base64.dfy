/**
 * The binary record of a game tree: each token as bits, least significant
 * first, as the base64 formatter writes them, and the reading of a bit
 * stream back into tokens as the base64 decoder does it.  A position or
 * command token is `BitWidth(size)` bits; the special command is followed
 * by a 6-bit sub-command; a setup token then holds a 1-bit "intersections"
 * flag, three groups (EMPTY, BLACK, WHITE) of points and of rectangle
 * corner pairs, each list closed by the value `size`, and a 1-bit "turn"
 * flag followed by one bit for the colour (0 for BLACK).
 *
 * The reading functions work on the unread rest of the stream.  A read
 * that needs more bits than the stream holds fails; see `Findings` in the
 * accompanying README for what the program does instead.
 */
module TreeBase64 {
  import opened Stones
  import opened Geometry
  import opened Wrappers
  import Seqs
  import opened BitIo
  import Base64
  import opened Diffs
  import opened Compression
  import opened TreeTokens
  import TreeWalk

  const TRUNCATED := "record ends inside a token"
  const UNKNOWN_CMD := "unknown cmd"
  const UNKNOWN_SUBCMD := "unknown subcmd"
  const BAD_CORNER := "rectangle corner off the board"

  /** A value read from the front of a bit stream, with the bits after it. */
  type Parsed<T> = Result<(T, seq<bool>)>

  function Prepend<T>(p: seq<T>, r: Parsed<seq<T>>): Parsed<seq<T>> {
    match r
    case Success((v, rest)) => Success((p + v, rest))
    case Failure(e) => Failure(e)
  }

  lemma PrependNothing<T>(r: Parsed<seq<T>>)
    ensures Prepend([], r) == r
  {
    if r.Success? {
      assert [] + r.value.0 == r.value.0;
    }
  }

  lemma PrependPrepend<T>(p: seq<T>, q: seq<T>, r: Parsed<seq<T>>)
    ensures Prepend(p, Prepend(q, r)) == Prepend(p + q, r)
  {
    if r.Success? {
      assert p + (q + r.value.0) == (p + q) + r.value.0;
    }
  }

  // ----- writing -----

  function PointsBits(ps: seq<nat>, bw: nat): seq<bool> {
    if ps == [] then [] else Bits(ps[0], bw) + PointsBits(ps[1..], bw)
  }

  function RectsBits(rs: seq<(nat, nat)>, bw: nat): seq<bool> {
    if rs == [] then [] else Bits(rs[0].0, bw) + (Bits(rs[0].1, bw) + RectsBits(rs[1..], bw))
  }

  /** A group's points, the end marker, its rectangles, the end marker. */
  function GroupBits(g: Group, size: nat, bw: nat): seq<bool> {
    PointsBits(g.points, bw) + Bits(size, bw) + RectsBits(g.rects, bw) + Bits(size, bw)
  }

  function GroupsBits(gs: seq<Group>, size: nat, bw: nat): seq<bool> {
    if gs == [] then [] else GroupBits(gs[0], size, bw) + GroupsBits(gs[1..], size, bw)
  }

  function IntersectionsBits(gs: Option<seq<Group>>, size: nat, bw: nat): seq<bool> {
    match gs
    case None => Bits(0, 1)
    case Some(groups) => Bits(1, 1) + GroupsBits(groups, size, bw)
  }

  function TurnBits(turn: Option<int>): seq<bool> {
    match turn
    case None => Bits(0, 1)
    case Some(c) => Bits(1, 1) + Bits(if c == BLACK then 0 else 1, 1)
  }

  function CmdBits(cmd: nat, size: nat, bw: nat): seq<bool> {
    Bits(size + cmd, bw)
  }

  function TokenBits(t: Token, size: nat, bw: nat): seq<bool> {
    match t
    case Place(pos) => Bits(pos, bw)
    case Pass => CmdBits(CMD_PASS, size, bw)
    case BeginBranch => CmdBits(CMD_BEGIN_BRANCH, size, bw)
    case EndBranch => CmdBits(CMD_END_BRANCH, size, bw)
    case Resign => SpecialBits(SUBCMD_RESIGN, [], size, bw)
    case Setup(gs, turn) => SpecialBits(SUBCMD_SETUP, IntersectionsBits(gs, size, bw) + TurnBits(turn), size, bw)
  }

  /** The special command, a sub-command and what the sub-command carries. */
  function SpecialBits(sub: nat, body: seq<bool>, size: nat, bw: nat): seq<bool> {
    CmdBits(CMD_SPECIAL, size, bw) + (Bits(sub, BITWIDTH_SUBCMD) + body)
  }

  function TokensBits(ts: seq<Token>, size: nat, bw: nat): seq<bool> {
    if ts == [] then [] else TokenBits(ts[0], size, bw) + TokensBits(ts[1..], size, bw)
  }

  // ----- reading -----

  /** The value of the first `w` bits. */
  function Take(s: seq<bool>, w: nat): (r: Parsed<nat>)
    ensures r.Success? <==> w <= |s|
    ensures r.Success? ==> r.value.0 == Value(s[..w]) && r.value.1 == s[w..]
  {
    if |s| < w then Failure(TRUNCATED) else Success((Value(s[..w]), s[w..]))
  }

  /** Positions up to the end marker, a value `size` or more. */
  function PointsOf(s: seq<bool>, size: nat, bw: nat): (r: Parsed<seq<nat>>)
    requires bw >= 1
    ensures r.Success? ==> |r.value.1| < |s|
    decreases |s|
  {
    match Take(s, bw)
    case Failure(e) => Failure(e)
    case Success((v, rest)) => if v >= size then Success(([], rest)) else Prepend([v], PointsOf(rest, size, bw))
  }

  /** Corner pairs up to the end marker; a bottom-right corner off the board is refused. */
  function RectsOf(s: seq<bool>, size: nat, bw: nat): (r: Parsed<seq<(nat, nat)>>)
    requires bw >= 1
    ensures r.Success? ==> |r.value.1| < |s|
    decreases |s|
  {
    match Take(s, bw)
    case Failure(e) => Failure(e)
    case Success((lt, rest)) =>
      if lt >= size then Success(([], rest))
      else match Take(rest, bw)
        case Failure(e) => Failure(e)
        case Success((rb, rest')) =>
          if rb >= size then Failure(BAD_CORNER) else Prepend([(lt, rb)], RectsOf(rest', size, bw))
  }

  function GroupOf(s: seq<bool>, size: nat, bw: nat): (r: Parsed<Group>)
    requires bw >= 1
    ensures r.Success? ==> |r.value.1| < |s|
  {
    var (points, rest) :- PointsOf(s, size, bw);
    var (rects, rest') :- RectsOf(rest, size, bw);
    Success((Group(points, rects), rest'))
  }

  function GroupsOf(s: seq<bool>, size: nat, bw: nat): (r: Parsed<seq<Group>>)
    requires bw >= 1
    ensures r.Success? ==> |r.value.1| < |s|
  {
    var (g0, r0) :- GroupOf(s, size, bw);
    var (g1, r1) :- GroupOf(r0, size, bw);
    var (g2, r2) :- GroupOf(r1, size, bw);
    Success(([g0, g1, g2], r2))
  }

  /** The "intersections" flag and, when it is set, the three groups. */
  function IntersectionsOf(s: seq<bool>, size: nat, bw: nat): (r: Parsed<Option<seq<Group>>>)
    requires bw >= 1
    ensures r.Success? ==> |r.value.1| < |s|
  {
    var (flag, rest) :- Take(s, 1);
    if flag == 0 then Success((None, rest))
    else
      var (groups, rest') :- GroupsOf(rest, size, bw);
      Success((Some(groups), rest'))
  }

  /** The "turn" flag and, when it is set, the colour bit (0 for BLACK). */
  function SetupTurnOf(s: seq<bool>): (r: Parsed<Option<int>>)
    ensures r.Success? ==> |r.value.1| < |s|
  {
    var (flag, rest) :- Take(s, 1);
    if flag == 0 then Success((None, rest))
    else
      var (color, rest') :- Take(rest, 1);
      Success((Some(if color == 0 then BLACK else WHITE), rest'))
  }

  /** The part of a setup token after its sub-command. */
  function SetupOf(s: seq<bool>, size: nat, bw: nat): (r: Parsed<Token>)
    requires bw >= 1
    ensures r.Success? ==> |r.value.1| < |s|
  {
    var (gs, rest) :- IntersectionsOf(s, size, bw);
    var (turn, rest') :- SetupTurnOf(rest);
    Success((Setup(gs, turn), rest'))
  }

  function TokenOf(s: seq<bool>, size: nat, bw: nat): (r: Parsed<Token>)
    requires bw >= 1
    ensures r.Success? ==> |r.value.1| < |s|
  {
    var (v, rest) :- Take(s, bw);
    if v < size then Success((Place(v), rest))
    else if v - size == CMD_PASS then Success((Pass, rest))
    else if v - size == CMD_BEGIN_BRANCH then Success((BeginBranch, rest))
    else if v - size == CMD_END_BRANCH then Success((EndBranch, rest))
    else if v - size == CMD_SPECIAL then
      var (sub, rest') :- Take(rest, BITWIDTH_SUBCMD);
      if sub == SUBCMD_RESIGN then Success((Resign, rest'))
      else if sub == SUBCMD_SETUP then SetupOf(rest', size, bw)
      else Failure(UNKNOWN_SUBCMD)
    else Failure(UNKNOWN_CMD)
  }

  /** How an end-of-branch token at branch depth `depth` changes the depth; a begin-branch token opens one. */
  function DepthAfter(t: Token, depth: nat): nat {
    if t == BeginBranch then depth + 1 else if t == EndBranch && depth > 0 then depth - 1 else depth
  }

  /** The tokens up to and including the end-of-branch token that closes depth 0, the end of the tree. */
  function TokensOf(s: seq<bool>, size: nat, bw: nat, depth: nat): (r: Result<seq<Token>>)
    requires bw >= 1
    decreases |s|
  {
    var (t, rest) :- TokenOf(s, size, bw);
    if t == EndBranch && depth == 0 then Success([EndBranch])
    else
      var ts :- TokensOf(rest, size, bw, DepthAfter(t, depth));
      Success([t] + ts)
  }

  // ----- what is written is read back -----

  /** A token list that a reader at depth `depth` reads to its end and no further. */
  predicate ClosedAt(ts: seq<Token>, depth: nat)
    decreases |ts|
  {
    && ts != []
    && if ts[0] == EndBranch && depth == 0 then |ts| == 1 else ClosedAt(ts[1..], DepthAfter(ts[0], depth))
  }

  lemma TakeBits(v: nat, w: nat, rest: seq<bool>)
    requires v < Pow2(w)
    ensures Take(Bits(v, w) + rest, w) == Success((v, rest))
  {
    var s := Bits(v, w) + rest;
    assert s[..w] == Bits(v, w) && s[w..] == rest;
    ValueOfBits(v, w);
    LowOfSmall(v, w);
  }

  lemma {:induction false} PointsRoundTrip(ps: seq<nat>, size: nat, bw: nat, rest: seq<bool>)
    requires bw >= 1 && size < Pow2(bw) && forall i | 0 <= i < |ps| :: ps[i] < size
    ensures PointsOf(PointsBits(ps, bw) + Bits(size, bw) + rest, size, bw) == Success((ps, rest))
    decreases |ps|
  {
    if ps == [] {
      assert PointsBits(ps, bw) + Bits(size, bw) + rest == Bits(size, bw) + rest;
      TakeBits(size, bw, rest);
    } else {
      var tail := PointsBits(ps[1..], bw) + Bits(size, bw) + rest;
      assert PointsBits(ps, bw) + Bits(size, bw) + rest == Bits(ps[0], bw) + tail;
      TakeBits(ps[0], bw, tail);
      PointsRoundTrip(ps[1..], size, bw, rest);
      assert [ps[0]] + ps[1..] == ps;
    }
  }

  lemma {:induction false} RectsRoundTrip(rs: seq<(nat, nat)>, size: nat, bw: nat, rest: seq<bool>)
    requires bw >= 1 && size < Pow2(bw) && forall i | 0 <= i < |rs| :: rs[i].0 < size && rs[i].1 < size
    ensures RectsOf(RectsBits(rs, bw) + Bits(size, bw) + rest, size, bw) == Success((rs, rest))
    decreases |rs|
  {
    if rs == [] {
      assert RectsBits(rs, bw) + Bits(size, bw) + rest == Bits(size, bw) + rest;
      TakeBits(size, bw, rest);
    } else {
      assert forall i | 0 <= i < |rs| - 1 :: rs[1..][i] == rs[i + 1];
      RectsRoundTrip(rs[1..], size, bw, rest);
      RectsRoundTripStep(rs, size, bw, rest);
    }
  }

  /** The first corner pair read back in front of the rest of the list. */
  lemma RectsRoundTripStep(rs: seq<(nat, nat)>, size: nat, bw: nat, rest: seq<bool>)
    requires bw >= 1 && size < Pow2(bw) && rs != [] && rs[0].0 < size && rs[0].1 < size
    requires RectsOf(RectsBits(rs[1..], bw) + Bits(size, bw) + rest, size, bw) == Success((rs[1..], rest))
    ensures RectsOf(RectsBits(rs, bw) + Bits(size, bw) + rest, size, bw) == Success((rs, rest))
  {
    var tail := RectsBits(rs[1..], bw) + Bits(size, bw) + rest;
    RectsBitsStep(rs, size, bw, rest, tail);
    RectStep(rs[0].0, rs[0].1, tail, size, bw);
    assert [rs[0]] + rs[1..] == rs;
  }

  lemma RectsBitsStep(rs: seq<(nat, nat)>, size: nat, bw: nat, rest: seq<bool>, tail: seq<bool>)
    requires rs != [] && tail == RectsBits(rs[1..], bw) + Bits(size, bw) + rest
    ensures RectsBits(rs, bw) + Bits(size, bw) + rest == Bits(rs[0].0, bw) + (Bits(rs[0].1, bw) + tail)
  {
  }

  /** One corner pair read from the front of the stream. */
  lemma RectStep(lt: nat, rb: nat, tail: seq<bool>, size: nat, bw: nat)
    requires bw >= 1 && lt < size && rb < size && size < Pow2(bw)
    ensures RectsOf(Bits(lt, bw) + (Bits(rb, bw) + tail), size, bw) == Prepend([(lt, rb)], RectsOf(tail, size, bw))
  {
    TakeBits(lt, bw, Bits(rb, bw) + tail);
    TakeBits(rb, bw, tail);
  }

  lemma GroupRoundTrip(g: Group, size: nat, bw: nat, rest: seq<bool>)
    requires bw >= 1 && size < Pow2(bw) && ValidGroup(g, size)
    ensures GroupOf(GroupBits(g, size, bw) + rest, size, bw) == Success((g, rest))
  {
    var after := RectsBits(g.rects, bw) + Bits(size, bw) + rest;
    assert GroupBits(g, size, bw) + rest == PointsBits(g.points, bw) + Bits(size, bw) + after;
    PointsRoundTrip(g.points, size, bw, after);
    RectsRoundTrip(g.rects, size, bw, rest);
  }

  lemma GroupsBitsOfThree(gs: seq<Group>, size: nat, bw: nat, rest: seq<bool>)
    requires |gs| == 3
    ensures GroupsBits(gs, size, bw) + rest
      == GroupBits(gs[0], size, bw) + (GroupBits(gs[1], size, bw) + (GroupBits(gs[2], size, bw) + rest))
  {
    var g0, g1, g2 := gs[0], gs[1], gs[2];
    assert gs == [g0] + [g1, g2] && [g1, g2] == [g1] + [g2] && [g2] == [g2] + [];
    calc {
      GroupsBits(gs, size, bw) + rest;
    == { GroupsBitsCons(g0, [g1, g2], size, bw, rest); }
      GroupBits(g0, size, bw) + (GroupsBits([g1, g2], size, bw) + rest);
    == { GroupsBitsCons(g1, [g2], size, bw, rest); }
      GroupBits(g0, size, bw) + (GroupBits(g1, size, bw) + (GroupsBits([g2], size, bw) + rest));
    == { GroupsBitsCons(g2, [], size, bw, rest); }
      GroupBits(g0, size, bw) + (GroupBits(g1, size, bw) + (GroupBits(g2, size, bw) + (GroupsBits([], size, bw) + rest)));
    }
  }

  lemma GroupsBitsCons(g: Group, gs: seq<Group>, size: nat, bw: nat, rest: seq<bool>)
    ensures GroupsBits([g] + gs, size, bw) + rest == GroupBits(g, size, bw) + (GroupsBits(gs, size, bw) + rest)
  {
    assert ([g] + gs)[1..] == gs;
  }

  lemma GroupsOfThree(s: seq<bool>, size: nat, bw: nat, gs: seq<Group>, r1: seq<bool>, r2: seq<bool>, rest: seq<bool>)
    requires bw >= 1 && |gs| == 3
    requires GroupOf(s, size, bw) == Success((gs[0], r1)) && GroupOf(r1, size, bw) == Success((gs[1], r2))
    requires GroupOf(r2, size, bw) == Success((gs[2], rest))
    ensures GroupsOf(s, size, bw) == Success((gs, rest))
  {
    assert [gs[0], gs[1], gs[2]] == gs;
  }

  lemma GroupsRoundTrip(gs: seq<Group>, size: nat, bw: nat, rest: seq<bool>)
    requires bw >= 1 && size < Pow2(bw) && |gs| == 3 && forall si | 0 <= si < 3 :: ValidGroup(gs[si], size)
    ensures GroupsOf(GroupsBits(gs, size, bw) + rest, size, bw) == Success((gs, rest))
  {
    var r2 := GroupBits(gs[2], size, bw) + rest;
    var r1 := GroupBits(gs[1], size, bw) + r2;
    var s := GroupsBits(gs, size, bw) + rest;
    GroupsBitsOfThree(gs, size, bw, rest);
    GroupRoundTrip(gs[0], size, bw, r1);
    GroupRoundTrip(gs[1], size, bw, r2);
    GroupRoundTrip(gs[2], size, bw, rest);
    GroupsOfThree(s, size, bw, gs, r1, r2, rest);
  }

  lemma IntersectionsRoundTrip(gs: Option<seq<Group>>, size: nat, bw: nat, rest: seq<bool>)
    requires bw >= 1 && size < Pow2(bw)
    requires gs.Some? ==> |gs.value| == 3 && forall si | 0 <= si < 3 :: ValidGroup(gs.value[si], size)
    ensures IntersectionsOf(IntersectionsBits(gs, size, bw) + rest, size, bw) == Success((gs, rest))
  {
    assert Pow2(1) == 2;
    match gs {
      case None =>
        TakeBits(0, 1, rest);
      case Some(groups) =>
        assert IntersectionsBits(gs, size, bw) + rest == Bits(1, 1) + (GroupsBits(groups, size, bw) + rest);
        TakeBits(1, 1, GroupsBits(groups, size, bw) + rest);
        GroupsRoundTrip(groups, size, bw, rest);
    }
  }

  lemma SetupTurnRoundTrip(turn: Option<int>, rest: seq<bool>)
    requires turn.Some? ==> IsValidColor(turn.value)
    ensures SetupTurnOf(TurnBits(turn) + rest) == Success((turn, rest))
  {
    assert Pow2(1) == 2;
    match turn {
      case None =>
        TakeBits(0, 1, rest);
      case Some(c) =>
        var colorBit := if c == BLACK then 0 else 1;
        assert TurnBits(turn) + rest == Bits(1, 1) + (Bits(colorBit, 1) + rest);
        TakeBits(1, 1, Bits(colorBit, 1) + rest);
        TakeBits(colorBit, 1, rest);
    }
  }

  lemma SetupRoundTrip(gs: Option<seq<Group>>, turn: Option<int>, size: nat, bw: nat, rest: seq<bool>)
    requires bw >= 1 && size < Pow2(bw) && ValidToken(Setup(gs, turn), size)
    ensures SetupOf(IntersectionsBits(gs, size, bw) + TurnBits(turn) + rest, size, bw) == Success((Setup(gs, turn), rest))
  {
    var afterIsects := TurnBits(turn) + rest;
    assert IntersectionsBits(gs, size, bw) + TurnBits(turn) + rest == IntersectionsBits(gs, size, bw) + afterIsects;
    IntersectionsRoundTrip(gs, size, bw, afterIsects);
    SetupTurnRoundTrip(turn, rest);
  }

  /** Every token the formats can carry is read back from its bits, whatever follows. */
  lemma TokenRoundTrip(t: Token, size: nat, rest: seq<bool>)
    requires size >= 1 && ValidToken(t, size)
    ensures TokenOf(TokenBits(t, size, BitWidth(size)) + rest, size, BitWidth(size)) == Success((t, rest))
  {
    var bw := BitWidth(size);
    BitWidthFits(size);
    match t {
      case Place(pos) =>
        TakeBits(pos, bw, rest);
      case Resign =>
        SpecialTake(SUBCMD_RESIGN, [], size, bw, rest);
        assert [] + rest == rest;
      case Setup(gs, turn) =>
        SetupRoundTrip(gs, turn, size, bw, rest);
        SpecialTake(SUBCMD_SETUP, IntersectionsBits(gs, size, bw) + TurnBits(turn), size, bw, rest);
      case _ =>
        TakeBits(TokenValue(t, size), bw, rest);
    }
  }

  /** The first two reads of a special token give the special command and the sub-command. */
  lemma SpecialTake(sub: nat, body: seq<bool>, size: nat, bw: nat, rest: seq<bool>)
    requires size + CMD_SPECIAL < Pow2(bw) && sub < 64
    ensures Take(SpecialBits(sub, body, size, bw) + rest, bw) == Success((size + CMD_SPECIAL, Bits(sub, BITWIDTH_SUBCMD) + (body + rest)))
    ensures Take(Bits(sub, BITWIDTH_SUBCMD) + (body + rest), BITWIDTH_SUBCMD) == Success((sub, body + rest))
  {
    var after := Bits(sub, BITWIDTH_SUBCMD) + (body + rest);
    assert SpecialBits(sub, body, size, bw) + rest == CmdBits(CMD_SPECIAL, size, bw) + after;
    TakeBits(size + CMD_SPECIAL, bw, after);
    Pow2Six();
    TakeBits(sub, BITWIDTH_SUBCMD, body + rest);
  }

  /** The command value of a pass or branch token. */
  function TokenValue(t: Token, size: nat): nat {
    match t
    case Pass => size + CMD_PASS
    case BeginBranch => size + CMD_BEGIN_BRANCH
    case EndBranch => size + CMD_END_BRANCH
    case _ => size + CMD_SPECIAL
  }

  lemma Pow2Six()
    ensures Pow2(BITWIDTH_SUBCMD) == 64
  {
  }

  /** A closed list of tokens the formats can carry is read back from its bits, whatever follows. */
  lemma {:induction false} TokensRoundTrip(ts: seq<Token>, size: nat, depth: nat, rest: seq<bool>)
    requires size >= 1 && ClosedAt(ts, depth) && forall i | 0 <= i < |ts| :: ValidToken(ts[i], size)
    ensures TokensOf(TokensBits(ts, size, BitWidth(size)) + rest, size, BitWidth(size), depth) == Success(ts)
    decreases |ts|
  {
    var bw := BitWidth(size);
    BitWidthFits(size);
    var tail := TokensBits(ts[1..], size, bw) + rest;
    Seqs.ConcatAssoc(TokenBits(ts[0], size, bw), TokensBits(ts[1..], size, bw), rest);
    TokenRoundTrip(ts[0], size, tail);
    if !(ts[0] == EndBranch && depth == 0) {
      TokensRoundTrip(ts[1..], size, DepthAfter(ts[0], depth), rest);
      Seqs.HeadTail(ts);
    } else {
      assert ts == [EndBranch];
    }
  }

  // ----- appending to the written bits -----

  lemma {:induction false} PointsBitsAppend(ps: seq<nat>, p: nat, bw: nat)
    ensures PointsBits(ps + [p], bw) == PointsBits(ps, bw) + Bits(p, bw)
    decreases |ps|
  {
    if ps == [] {
      assert PointsBits([p], bw) == Bits(p, bw) + PointsBits([], bw);
    } else {
      assert (ps + [p])[1..] == ps[1..] + [p];
      PointsBitsAppend(ps[1..], p, bw);
      Seqs.ConcatAssoc(Bits(ps[0], bw), PointsBits(ps[1..], bw), Bits(p, bw));
    }
  }

  lemma {:induction false} RectsBitsAppend(rs: seq<(nat, nat)>, r: (nat, nat), bw: nat)
    ensures RectsBits(rs + [r], bw) == RectsBits(rs, bw) + (Bits(r.0, bw) + Bits(r.1, bw))
    decreases |rs|
  {
    if rs == [] {
      assert RectsBits([r], bw) == Bits(r.0, bw) + (Bits(r.1, bw) + RectsBits([], bw));
    } else {
      assert (rs + [r])[1..] == rs[1..] + [r];
      RectsBitsAppend(rs[1..], r, bw);
    }
  }

  lemma {:induction false} GroupsBitsAppend(gs: seq<Group>, g: Group, size: nat, bw: nat)
    ensures GroupsBits(gs + [g], size, bw) == GroupsBits(gs, size, bw) + GroupBits(g, size, bw)
    decreases |gs|
  {
    if gs == [] {
      assert GroupsBits([g], size, bw) == GroupBits(g, size, bw) + GroupsBits([], size, bw);
    } else {
      assert (gs + [g])[1..] == gs[1..] + [g];
      GroupsBitsAppend(gs[1..], g, size, bw);
      Seqs.ConcatAssoc(GroupBits(gs[0], size, bw), GroupsBits(gs[1..], size, bw), GroupBits(g, size, bw));
    }
  }

  lemma {:induction false} TokensBitsAppend(ts: seq<Token>, t: Token, size: nat, bw: nat)
    ensures TokensBits(ts + [t], size, bw) == TokensBits(ts, size, bw) + TokenBits(t, size, bw)
    decreases |ts|
  {
    if ts == [] {
      assert TokensBits([t], size, bw) == TokenBits(t, size, bw) + TokensBits([], size, bw);
    } else {
      assert (ts + [t])[1..] == ts[1..] + [t];
      TokensBitsAppend(ts[1..], t, size, bw);
      Seqs.ConcatAssoc(TokenBits(ts[0], size, bw), TokensBits(ts[1..], size, bw), TokenBits(t, size, bw));
    }
  }

  // ----- the setup token of a setup difference -----

  /** The groups are the classification of some rectangle list describing the change list. */
  ghost predicate GroupsDescribe(gs: seq<Group>, cs: seq<Change>, w: int, h: int)
    requires Dims(w, h) && w >= 0
  {
    exists out :: Describes(out, cs, w, h) && AllPlaced(out) && gs == Classified(out, w)
  }

  /** The colour the turn bit stands for: 0 for BLACK, 1 for anything else, read back as WHITE. */
  function TurnColor(turn: Option<int>): (r: Option<int>)
    ensures r.Some? <==> turn.Some?
    ensures r.Some? ==> IsValidColor(r.value) && (r.value == BLACK <==> turn.value == BLACK)
  {
    if turn.None? then None else Some(if turn.value == BLACK then BLACK else WHITE)
  }

  /**
   * `t` is the setup token the formatter writes for a setup with change
   * list `cs` and turn change `setupTurn`, walked with `turn` to move: a
   * change list (the program's non-null list) gives groups describing it,
   * and the turn is carried only when it differs from `turn`.
   */
  ghost predicate IsSetupTokenFor(t: Token, cs: seq<Change>, setupTurn: Option<TurnChange>, turn: int, w: int, h: int)
    requires Dims(w, h)
  {
    && t.Setup?
    && t.turn == TurnColor(TurnOf(setupTurn, turn))
    && (t.intersections.Some? <==> cs != [])
    && (t.intersections.Some? ==> GroupsDescribe(t.intersections.value, cs, w, h))
  }

  // ----- the tokens of the formatter calls -----

  /** A call that writes nothing: the start of the tree (its branch is implied), a setup node's head, a comment. */
  predicate Silent(c: TreeWalk.Call) {
    c.BeginTree? || c.PutSetupNode? || c.PutComment?
  }

  /** `t` is the one token the formatter writes for call `c`. */
  ghost predicate CallEncodes(t: Token, c: TreeWalk.Call, w: int, h: int)
    requires Dims(w, h)
  {
    match c
    case EndTree(_) => t == EndBranch
    case EndBranch(_, _) => t == EndBranch
    case BeginBranch(_, _) => t == BeginBranch
    case PutResign(_) => t == Resign
    case PutPass(_) => t == Pass
    case PutPlace(pos, _) => pos >= 0 && t == Place(pos)
    case PutSetupProperty(cs, setupTurn, turn) => IsSetupTokenFor(t, cs, setupTurn, turn, w, h)
    case _ => false
  }

  /** The tokens `ts` are what the formatter writes for the calls `cs`, in order. */
  ghost predicate Encodes(ts: seq<Token>, cs: seq<TreeWalk.Call>, w: int, h: int)
    requires Dims(w, h)
    decreases |cs|
  {
    if cs == [] then ts == []
    else if Silent(cs[0]) then Encodes(ts, cs[1..], w, h)
    else ts != [] && CallEncodes(ts[0], cs[0], w, h) && Encodes(ts[1..], cs[1..], w, h)
  }

  /** A call the formatter can write on a `w` by `h` board: a move on the board, a setup that fits it. */
  ghost predicate CallFits(c: TreeWalk.Call, w: int, h: int) {
    && (c.PutPlace? ==> 0 <= c.pos < w * h)
    && (c.PutSetupProperty? ==> Fits(c.intersections, w, h))
  }

  /** The points a call writes as SGF letters, its move and its setup's changed points, all have letters. */
  predicate CallLettered(c: TreeWalk.Call, w: int)
    requires w >= 1
  {
    && (c.PutPlace? ==> Lettered(w, c.pos))
    && (c.PutSetupProperty? ==> ChangesLettered(c.intersections, w))
  }

  lemma EncodesSilent(c: TreeWalk.Call, w: int, h: int)
    requires Dims(w, h) && Silent(c)
    ensures Encodes([], [c], w, h)
  {
    assert [c][1..] == [];
  }

  lemma EncodesOne(t: Token, c: TreeWalk.Call, w: int, h: int)
    requires Dims(w, h) && !Silent(c) && CallEncodes(t, c, w, h)
    ensures Encodes([t], [c], w, h)
  {
    assert [c][1..] == [] && [t][1..] == [];
  }

  lemma {:induction false} EncodesAppend(ts: seq<Token>, cs: seq<TreeWalk.Call>, us: seq<Token>, ds: seq<TreeWalk.Call>, w: int, h: int)
    requires Dims(w, h) && Encodes(ts, cs, w, h) && Encodes(us, ds, w, h)
    ensures Encodes(ts + us, cs + ds, w, h)
    decreases |cs|
  {
    if cs == [] {
      assert ts + us == us && cs + ds == ds;
    } else {
      assert (cs + ds)[0] == cs[0] && (cs + ds)[1..] == cs[1..] + ds;
      if Silent(cs[0]) {
        EncodesAppend(ts, cs[1..], us, ds, w, h);
      } else {
        assert (ts + us)[0] == ts[0] && (ts + us)[1..] == ts[1..] + us;
        EncodesAppend(ts[1..], cs[1..], us, ds, w, h);
      }
    }
  }

  /**
   * The tokens of a record whose calls before the last keep the branches
   * nested and whose last call closes the tree are read to their end and
   * no further.
   */
  lemma {:induction false} EncodedClosed(ts: seq<Token>, cs: seq<TreeWalk.Call>, depth: nat, w: int, h: int)
    requires Dims(w, h) && Encodes(ts, cs, w, h) && cs != []
    requires TreeWalk.CallsRun(cs[..|cs| - 1], depth) == Some(0) && cs[|cs| - 1].EndTree?
    ensures ClosedAt(ts, depth)
    decreases |cs|
  {
    var c := cs[0];
    if |cs| == 1 {
      assert cs[..0] == [];
      assert ts == [EndBranch] + ts[1..] && Encodes(ts[1..], [], w, h);
      assert depth == 0;
    } else {
      assert cs[..|cs| - 1][0] == c && cs[..|cs| - 1][1..] == cs[1..][..|cs[1..]| - 1];
      var d := TreeWalk.CallStep(c, depth);
      assert d.Some?;
      if Silent(c) {
        EncodedClosed(ts, cs[1..], d.value, w, h);
        assert d.value == depth;
      } else {
        EncodedClosed(ts[1..], cs[1..], d.value, w, h);
        assert DepthAfter(ts[0], depth) == d.value;
        assert !(ts[0] == EndBranch && depth == 0);
      }
    }
  }

  /** The rectangles of a description lie on the board, corners in order. */
  lemma DescribesPlaced(out: seq<Rect>, cs: seq<Change>, w: int, h: int)
    requires Dims(w, h) && Describes(out, cs, w, h)
    ensures AllPlaced(out)
    ensures forall i | 0 <= i < |out| :: 0 <= out[i].left <= out[i].right < w && 0 <= out[i].top <= out[i].bottom < h
  {
    forall i | 0 <= i < |out|
      ensures Placed(out[i]) && IsState(out[i].state)
      ensures 0 <= out[i].left <= out[i].right < w && 0 <= out[i].top <= out[i].bottom < h
    {
      assert Proper(out[i]);
      assert Contains(out[i], out[i].left, out[i].top);
      assert Contains(out[i], out[i].right, out[i].bottom);
    }
  }

  /** The groups of a setup token: the change list compressed, then sorted by state into points and proper rectangles. */
  method SetupGroups(intersections: seq<Change>, w: int, h: int) returns (groups: seq<Group>)
    requires Dims(w, h) && Fits(intersections, w, h)
    ensures GroupsDescribe(groups, intersections, w, h)
    ensures |groups| == 3 && forall si | 0 <= si < 3 :: ValidGroup(groups[si], w * h)
    ensures ChangesLettered(intersections, w) ==> forall si | 0 <= si < 3 :: GroupLettered(groups[si], w)
  {
    var out := CompressIntersections(intersections, w, h);
    DescribesPlaced(out, intersections, w, h);
    groups := Classify(out, w);
    GroupForValid(out, EMPTY, w, h);
    GroupForValid(out, BLACK, w, h);
    GroupForValid(out, WHITE, w, h);
    if ChangesLettered(intersections, w) {
      DescribesLettered(out, intersections, w, h);
      GroupForLettered(out, EMPTY, w);
      GroupForLettered(out, BLACK, w);
      GroupForLettered(out, WHITE, w);
    }
  }

  // ----- the formatter -----

  /**
   * The program's base64 formatter: the tokens of a tree walk, written
   * through a BitWriter and turned into URL-safe base64 at the end.
   */
  class Base64Formatter {
    const w: nat
    const h: nat
    const boardSize: nat
    const bitWidth: nat
    const bitWriter: BitWriter
    /** The tokens written so far. */
    ghost var tokens: seq<Token>

    /** The board size and the token width. */
    ghost predicate Sized() {
      Dims(w, h) && boardSize == w * h && bitWidth == BitWidth(boardSize) && bitWidth <= 31
    }

    ghost predicate Valid()
      reads this, bitWriter
    {
      && Sized() && bitWriter.Valid() && bitWriter.bits == TokensBits(tokens, boardSize, bitWidth)
      && forall i | 0 <= i < |tokens| :: ValidToken(tokens[i], boardSize)
    }

    constructor(w: nat, h: nat)
      requires Dims(w, h) && w * h + CMD_UPPER <= TOKEN_LIMIT
      ensures Valid() && tokens == [] && this.w == w && this.h == h && fresh(bitWriter)
    {
      this.w := w;
      this.h := h;
      boardSize := w * h;
      bitWriter := new BitWriter();
      bitWidth := BitWidth(w * h);
      tokens := [];
      new;
      WithinTokenLimit(w * h);
    }

    method PutPos(pos: nat)
      requires Sized() && bitWriter.Valid()
      modifies bitWriter
      ensures bitWriter.Valid() && bitWriter.bits == old(bitWriter.bits) + Bits(pos, bitWidth)
    {
      PutBits(bitWriter, pos, bitWidth);
    }

    method PutCmd(cmd: nat)
      requires Sized() && bitWriter.Valid()
      modifies bitWriter
      ensures bitWriter.Valid() && bitWriter.bits == old(bitWriter.bits) + CmdBits(cmd, boardSize, bitWidth)
    {
      PutPos(boardSize + cmd);
    }

    method PutSubCmd(subcmd: nat)
      requires Sized() && bitWriter.Valid()
      modifies bitWriter
      ensures bitWriter.Valid() && bitWriter.bits == old(bitWriter.bits) + SpecialBits(subcmd, [], boardSize, bitWidth)
    {
      ghost var start := bitWriter.bits;
      PutCmd(CMD_SPECIAL);
      PutBits(bitWriter, subcmd, BITWIDTH_SUBCMD);
      ConcatAssoc(start, CmdBits(CMD_SPECIAL, boardSize, bitWidth), Bits(subcmd, BITWIDTH_SUBCMD),
        start + CmdBits(CMD_SPECIAL, boardSize, bitWidth), SpecialBits(subcmd, [], boardSize, bitWidth));
    }

    /** Appends one token to the record. */
    method PutToken(t: Token)
      requires Valid() && ValidToken(t, boardSize) && !t.Setup?
      modifies this, bitWriter
      ensures Valid() && tokens == old(tokens) + [t]
    {
      ghost var before := bitWriter.bits;
      match t {
        case Place(pos) => PutPos(pos);
        case Pass => PutCmd(CMD_PASS);
        case BeginBranch => PutCmd(CMD_BEGIN_BRANCH);
        case EndBranch => PutCmd(CMD_END_BRANCH);
        case Resign => PutSubCmd(SUBCMD_RESIGN);
      }
      TokensBitsAppend(tokens, t, boardSize, bitWidth);
      tokens := tokens + [t];
    }

    method PutPlace(pos: nat)
      requires Valid() && pos < boardSize
      modifies this, bitWriter
      ensures Valid() && tokens == old(tokens) + [Place(pos)]
    {
      PutToken(Place(pos));
    }

    method PutPass()
      requires Valid()
      modifies this, bitWriter
      ensures Valid() && tokens == old(tokens) + [Pass]
    {
      PutToken(Pass);
    }

    method PutResign()
      requires Valid()
      modifies this, bitWriter
      ensures Valid() && tokens == old(tokens) + [Resign]
    {
      PutToken(Resign);
    }

    method BeginBranch()
      requires Valid()
      modifies this, bitWriter
      ensures Valid() && tokens == old(tokens) + [Token.BeginBranch]
    {
      PutToken(Token.BeginBranch);
    }

    /** Closes a branch; the end of the tree is written the same way. */
    method EndBranch()
      requires Valid()
      modifies this, bitWriter
      ensures Valid() && tokens == old(tokens) + [Token.EndBranch]
    {
      PutToken(Token.EndBranch);
    }

    /** The points of a group, its end marker, its corner pairs, its end marker. */
    method PutGroup(g: Group)
      requires Sized() && bitWriter.Valid()
      modifies bitWriter
      ensures bitWriter.Valid() && bitWriter.bits == old(bitWriter.bits) + GroupBits(g, boardSize, bitWidth)
    {
      ghost var start := bitWriter.bits;
      PutPoints(g.points);
      PutPos(boardSize);
      PutRects(g.rects);
      PutPos(boardSize);
      Append4(start, PointsBits(g.points, bitWidth), Bits(boardSize, bitWidth), RectsBits(g.rects, bitWidth), Bits(boardSize, bitWidth));
    }

    method PutPoints(ps: seq<nat>)
      requires Sized() && bitWriter.Valid()
      modifies bitWriter
      ensures bitWriter.Valid() && bitWriter.bits == old(bitWriter.bits) + PointsBits(ps, bitWidth)
    {
      var k := 0;
      while k < |ps|
        invariant 0 <= k <= |ps| && bitWriter.Valid()
        invariant bitWriter.bits == old(bitWriter.bits) + PointsBits(ps[..k], bitWidth)
      {
        PointsBitsAppend(ps[..k], ps[k], bitWidth);
        Seqs.TakeNext(ps, k);
        Seqs.ConcatAssoc(old(bitWriter.bits), PointsBits(ps[..k], bitWidth), Bits(ps[k], bitWidth));
        PutPos(ps[k]);
        k := k + 1;
      }
      Seqs.TakeAll(ps);
    }

    method PutRects(rs: seq<(nat, nat)>)
      requires Sized() && bitWriter.Valid()
      modifies bitWriter
      ensures bitWriter.Valid() && bitWriter.bits == old(bitWriter.bits) + RectsBits(rs, bitWidth)
    {
      var k := 0;
      while k < |rs|
        invariant 0 <= k <= |rs| && bitWriter.Valid()
        invariant bitWriter.bits == old(bitWriter.bits) + RectsBits(rs[..k], bitWidth)
      {
        RectsBitsAppend(rs[..k], rs[k], bitWidth);
        Seqs.TakeNext(rs, k);
        PutRect(rs[k]);
        Append3(old(bitWriter.bits), RectsBits(rs[..k], bitWidth), Bits(rs[k].0, bitWidth) + Bits(rs[k].1, bitWidth));
        k := k + 1;
      }
      Seqs.TakeAll(rs);
    }

    method PutRect(r: (nat, nat))
      requires Sized() && bitWriter.Valid()
      modifies bitWriter
      ensures bitWriter.Valid() && bitWriter.bits == old(bitWriter.bits) + (Bits(r.0, bitWidth) + Bits(r.1, bitWidth))
    {
      PutPos(r.0);
      PutPos(r.1);
      Append3(old(bitWriter.bits), Bits(r.0, bitWidth), Bits(r.1, bitWidth));
    }

    /**
     * A setup token for a setup with change list `intersections` and turn
     * change `setupTurn`, written with `turn` to move.
     */
    method PutSetupProperty(intersections: seq<Change>, setupTurn: Option<TurnChange>, turn: int)
      requires Valid() && Fits(intersections, w, h)
      modifies this, bitWriter
      ensures Valid() && |tokens| == |old(tokens)| + 1 && tokens[..|old(tokens)|] == old(tokens)
      ensures IsSetupTokenFor(tokens[|old(tokens)|], intersections, setupTurn, turn, w, h)
    {
      ghost var start := bitWriter.bits;
      PutSubCmd(SUBCMD_SETUP);
      ghost var afterSub := bitWriter.bits;
      var gs := PutIntersections(intersections);
      ghost var afterIsects := bitWriter.bits;
      var newTurn := TurnColor(TurnOf(setupTurn, turn));
      PutSetupTurn(newTurn);
      var t := Setup(gs, newTurn);
      SetupBits(start, afterSub, afterIsects, bitWriter.bits, gs, newTurn, boardSize, bitWidth);
      TokensBitsAppend(tokens, t, boardSize, bitWidth);
      tokens := tokens + [t];
      assert tokens[..|old(tokens)|] == old(tokens);
    }

    /**
     * The "intersections" flag, and for a change list (the program's
     * non-null list) the compressed rectangles sorted by state into points
     * and proper rectangles.
     */
    method PutIntersections(intersections: seq<Change>) returns (gs: Option<seq<Group>>)
      requires Sized() && bitWriter.Valid() && Fits(intersections, w, h)
      modifies bitWriter
      ensures bitWriter.Valid() && bitWriter.bits == old(bitWriter.bits) + IntersectionsBits(gs, boardSize, bitWidth)
      ensures gs.Some? <==> intersections != []
      ensures gs.Some? ==> GroupsDescribe(gs.value, intersections, w, h)
      ensures gs.Some? ==> |gs.value| == 3 && forall si | 0 <= si < 3 :: ValidGroup(gs.value[si], boardSize)
    {
      if intersections == [] {
        PutBits(bitWriter, 0, 1);
        return None;
      }
      PutBits(bitWriter, 1, 1);
      var groups := SetupGroups(intersections, w, h);
      PutGroups(groups);
      Seqs.ConcatAssoc(old(bitWriter.bits), Bits(1, 1), GroupsBits(groups, boardSize, bitWidth));
      gs := Some(groups);
    }

    method PutGroups(groups: seq<Group>)
      requires Sized() && bitWriter.Valid() && |groups| == 3
      modifies bitWriter
      ensures bitWriter.Valid() && bitWriter.bits == old(bitWriter.bits) + GroupsBits(groups, boardSize, bitWidth)
    {
      var si := 0;
      while si < 3
        invariant 0 <= si <= 3 && bitWriter.Valid()
        invariant bitWriter.bits == old(bitWriter.bits) + GroupsBits(groups[..si], boardSize, bitWidth)
      {
        GroupsBitsAppend(groups[..si], groups[si], boardSize, bitWidth);
        Seqs.TakeNext(groups, si);
        Seqs.ConcatAssoc(old(bitWriter.bits), GroupsBits(groups[..si], boardSize, bitWidth), GroupBits(groups[si], boardSize, bitWidth));
        PutGroup(groups[si]);
        si := si + 1;
      }
      Seqs.TakeAll(groups);
    }

    /** The "turn" flag and, when a turn is carried, its colour bit (0 for BLACK). */
    method PutSetupTurn(newTurn: Option<int>)
      requires Sized() && bitWriter.Valid()
      modifies bitWriter
      ensures bitWriter.Valid() && bitWriter.bits == old(bitWriter.bits) + TurnBits(newTurn)
    {
      if newTurn.Some? {
        PutBits(bitWriter, 1, 1);
        PutBits(bitWriter, if newTurn.value == BLACK then 0 else 1, 1);
      } else {
        PutBits(bitWriter, 0, 1);
      }
    }

    /** Writes what the formatter writes for one call of the walk; `out` is the tokens written. */
    method PutCall(c: TreeWalk.Call) returns (ghost out: seq<Token>)
      requires Valid() && CallFits(c, w, h)
      modifies this, bitWriter
      ensures Valid() && tokens == old(tokens) + out && Encodes(out, [c], w, h)
    {
      match c {
        case BeginTree(_) => out := [];
        case EndTree(_) => EndBranch(); out := [Token.EndBranch];
        case PutResign(_) => PutResign(); out := [Resign];
        case PutPass(_) => PutPass(); out := [Pass];
        case PutPlace(pos, _) => PutPlace(pos); out := [Place(pos)];
        case PutSetupNode(_, _) => out := [];
        case PutSetupProperty(cs, setupTurn, turn) =>
          PutSetupProperty(cs, setupTurn, turn);
          out := [tokens[|old(tokens)|]];
          Seqs.TakeNext(tokens, |old(tokens)|);
          Seqs.TakeAll(tokens);
        case PutComment(_, _) => out := [];
        case BeginBranch(_, _) => BeginBranch(); out := [Token.BeginBranch];
        case EndBranch(_, _) => EndBranch(); out := [Token.EndBranch];
      }
      if Silent(c) {
        EncodesSilent(c, w, h);
      } else {
        EncodesOne(out[0], c, w, h);
      }
    }

    /** Writes the calls in order; `out` is the tokens written. */
    method PutCalls(cs: seq<TreeWalk.Call>) returns (ghost out: seq<Token>)
      requires Valid() && forall i | 0 <= i < |cs| :: CallFits(cs[i], w, h)
      modifies this, bitWriter
      ensures Valid() && tokens == old(tokens) + out && Encodes(out, cs, w, h)
    {
      out := [];
      var k := 0;
      while k < |cs|
        invariant 0 <= k <= |cs| && Valid()
        invariant tokens == old(tokens) + out && Encodes(out, cs[..k], w, h)
      {
        var more := PutCall(cs[k]);
        EncodesAppend(out, cs[..k], more, [cs[k]], w, h);
        Seqs.TakeNext(cs, k);
        out := out + more;
        k := k + 1;
      }
      Seqs.TakeAll(cs);
    }

    /**
     * The URL-safe base64 text of everything written; the writer starts
     * over empty.
     */
    method ToString() returns (s: string)
      requires Valid()
      modifies this, bitWriter
      ensures Valid() && tokens == []
      ensures exists bytes :: Base64.AtobSafe(s) == Success(bytes) && ZeroPadded(StreamBits(bytes), TokensBits(old(tokens), boardSize, bitWidth))
    {
      var bytes := bitWriter.Flush();
      assert ZeroPadded(StreamBits(bytes), old(bitWriter.bits));
      s := Base64.BtoaSafe(bytes);
      Base64.AtobSafeBtoaSafe(bytes);
      tokens := [];
    }
  }

  /** The bits of a setup token are its sub-command's bits, its intersections and its turn, written in that order. */
  lemma SetupBits(start: seq<bool>, afterSub: seq<bool>, afterIsects: seq<bool>, end: seq<bool>,
                  gs: Option<seq<Group>>, turn: Option<int>, size: nat, bw: nat)
    requires afterSub == start + SpecialBits(SUBCMD_SETUP, [], size, bw)
    requires afterIsects == afterSub + IntersectionsBits(gs, size, bw)
    requires end == afterIsects + TurnBits(turn)
    ensures end == start + TokenBits(Setup(gs, turn), size, bw)
  {
    SpecialBitsSplit(SUBCMD_SETUP, IntersectionsBits(gs, size, bw), TurnBits(turn), size, bw, start);
  }

  lemma SpecialBitsSplit(sub: nat, isects: seq<bool>, turn: seq<bool>, size: nat, bw: nat, start: seq<bool>)
    ensures start + SpecialBits(sub, [], size, bw) + isects + turn == start + SpecialBits(sub, isects + turn, size, bw)
  {
    var cmd := CmdBits(CMD_SPECIAL, size, bw);
    var b := Bits(sub, BITWIDTH_SUBCMD);
    assert SpecialBits(sub, [], size, bw) == cmd + (b + []);
    assert b + [] == b;
    Append4(start, cmd, b, isects, turn);
    assert cmd + b + isects + turn == cmd + (b + (isects + turn));
  }

  lemma Append3<T>(s: seq<T>, a: seq<T>, b: seq<T>)
    ensures s + a + b == s + (a + b)
  {
  }

  lemma Append4<T>(s: seq<T>, a: seq<T>, b: seq<T>, c: seq<T>, d: seq<T>)
    ensures s + a + b + c + d == s + (a + b + c + d)
  {
  }

  /** `stream` is `bits` followed by zero bits only. */
  ghost predicate ZeroPadded(stream: seq<bool>, bits: seq<bool>) {
    |bits| <= |stream| && stream[..|bits|] == bits && forall k | |bits| <= k < |stream| :: !stream[k]
  }

  /** Appends the low `width` bits of `value`, as the program's `put` does for widths up to 31. */
  method PutBits(writer: BitWriter, value: nat, width: nat)
    requires writer.Valid() && width <= 31
    modifies writer
    ensures writer.Valid() && writer.bits == old(writer.bits) + Bits(value, width)
  {
    writer.Put(value, width);
    BitsLowWider(value, width, 32);
  }

  /** The values a 31-bit read can return: the model's reader takes at most 31 bits at once. */
  const TOKEN_LIMIT := 0x8000_0000

  lemma TokenLimitIsPow2()
    ensures Pow2(31) == TOKEN_LIMIT
  {
    Pow2Eight();
    assert Pow2(16) == 0x1_0000;
    assert Pow2(24) == 0x100_0000;
  }

  /** Boards whose positions and commands stay below `TOKEN_LIMIT` have tokens of at most 31 bits. */
  lemma WithinTokenLimit(size: nat)
    requires size + CMD_UPPER <= TOKEN_LIMIT
    ensures BitWidth(size) <= 31
  {
    TokenLimitIsPow2();
    WidthAtMost(size + CMD_UPPER, 31);
  }

  /** A width `k` suffices for any `n <= 2^k`. */
  lemma WidthAtMost(n: nat, k: nat)
    requires n <= Pow2(k)
    ensures CeilLog2(n) <= k
  {
    var r := CeilLog2(n);
    if r > 0 {
      Pow2Below(r - 1, k);
    }
  }

  lemma Pow2Below(a: nat, b: nat)
    requires Pow2(a) < Pow2(b)
    ensures a < b
  {
    if b <= a {
      Pow2Monotone(b, a);
    }
  }
}
