/**
 * The base64 decoder's reading side: the tokens read from a `BitReader`
 * over the decoded bytes, each reading method proved to deliver what the
 * matching function of `TreeBase64` reads from the unread rest of the
 * stream.  A read that needs more bits than are left fails instead of
 * reading zeros past the end.
 */
module TreeRead {
  import opened Stones
  import opened Wrappers
  import opened BitIo
  import opened TreeTokens
  import opened TreeBase64
  import Seqs

  /** A reader at a bit of its stream, or at its end. */
  ghost predicate Readable(reader: BitReader)
    reads reader
  {
    reader.Valid() && reader.Position() <= 8 * |reader.str|
  }

  /** The bits not read yet. */
  ghost function Rest(reader: BitReader): seq<bool>
    reads reader
    requires Readable(reader)
  {
    StreamBits(reader.str)[reader.Position()..]
  }

  /** `r` is what `spec` reads, and `rest` is what `spec` leaves unread when it succeeds. */
  ghost predicate Delivers<T>(r: Result<T>, spec: Parsed<T>, rest: seq<bool>) {
    match spec
    case Failure(e) => r == Failure(e)
    case Success((v, after)) => r == Success(v) && rest == after
  }

  /** Inside the string, the reader's window is a slice of the stream. */
  lemma WindowInside(str: seq<Byte>, p: nat, w: nat)
    requires p + w <= 8 * |str|
    ensures Window(str, p, w) == StreamBits(str)[p..p + w]
  {
    var bits := StreamBits(str);
    forall k | 0 <= k < w ensures Window(str, p, w)[k] == bits[p..p + w][k] {
      WindowBit(str, p, w, k);
      Seqs.SliceAt(bits, p, p + w, k);
    }
  }

  lemma WindowBit(str: seq<Byte>, p: nat, w: nat, k: nat)
    requires k < w && p + w <= 8 * |str|
    ensures Window(str, p, w)[k] == StreamBits(str)[p + k]
  {
    StreamBitAt(str, p + k);
  }

  /** The next `width` bits, or a failure when fewer are left. */
  method ReadBits(reader: BitReader, width: nat) returns (r: Result<nat>)
    requires Readable(reader) && width <= 31
    modifies reader
    ensures Readable(reader)
    ensures Delivers(r, Take(old(Rest(reader)), width), Rest(reader))
  {
    var remaining := 8 * |reader.str| - (8 * (reader.strIndex - 1) + reader.bitIndex);
    if remaining < width {
      return Failure(TRUNCATED);
    }
    ghost var s := Rest(reader);
    ghost var p := reader.Position();
    var v := reader.Get(width);
    WindowInside(reader.str, p, width);
    assert s[..width] == StreamBits(reader.str)[p..p + width];
    assert s[width..] == Rest(reader);
    r := Success(v);
  }

  /** The program's points loop: positions until one of `size` or more. */
  method ReadPoints(reader: BitReader, size: nat, bw: nat) returns (r: Result<seq<nat>>)
    requires Readable(reader) && 1 <= bw <= 31
    modifies reader
    ensures Readable(reader)
    ensures Delivers(r, PointsOf(old(Rest(reader)), size, bw), Rest(reader))
  {
    ghost var s0 := Rest(reader);
    var points: seq<nat> := [];
    PrependNothing(PointsOf(s0, size, bw));
    while true
      invariant Readable(reader)
      invariant PointsOf(s0, size, bw) == Prepend(points, PointsOf(Rest(reader), size, bw))
      decreases |Rest(reader)|
    {
      ghost var s := Rest(reader);
      var v := ReadBits(reader, bw);
      if v.Failure? {
        return v.PropagateFailure();
      }
      if v.value >= size {
        assert PointsOf(s, size, bw) == Success(([], Rest(reader)));
        assert points + [] == points;
        return Success(points);
      }
      PrependPrepend(points, [v.value], PointsOf(Rest(reader), size, bw));
      points := points + [v.value];
    }
  }

  /** The program's rectangles loop: corner pairs until a top-left corner of `size` or more. */
  method ReadRects(reader: BitReader, size: nat, bw: nat) returns (r: Result<seq<(nat, nat)>>)
    requires Readable(reader) && 1 <= bw <= 31
    modifies reader
    ensures Readable(reader)
    ensures Delivers(r, RectsOf(old(Rest(reader)), size, bw), Rest(reader))
  {
    ghost var s0 := Rest(reader);
    var rects: seq<(nat, nat)> := [];
    PrependNothing(RectsOf(s0, size, bw));
    while true
      invariant Readable(reader)
      invariant RectsOf(s0, size, bw) == Prepend(rects, RectsOf(Rest(reader), size, bw))
      decreases |Rest(reader)|
    {
      ghost var s := Rest(reader);
      var lt := ReadBits(reader, bw);
      if lt.Failure? {
        return lt.PropagateFailure();
      }
      if lt.value >= size {
        assert RectsOf(s, size, bw) == Success(([], Rest(reader)));
        assert rects + [] == rects;
        return Success(rects);
      }
      var rb := ReadBits(reader, bw);
      if rb.Failure? {
        return rb.PropagateFailure();
      }
      if rb.value >= size {
        return Failure(BAD_CORNER);
      }
      PrependPrepend(rects, [(lt.value, rb.value)], RectsOf(Rest(reader), size, bw));
      rects := rects + [(lt.value, rb.value)];
    }
  }

  method ReadGroup(reader: BitReader, size: nat, bw: nat) returns (r: Result<Group>)
    requires Readable(reader) && 1 <= bw <= 31
    modifies reader
    ensures Readable(reader)
    ensures Delivers(r, GroupOf(old(Rest(reader)), size, bw), Rest(reader))
  {
    var points := ReadPoints(reader, size, bw);
    if points.Failure? {
      return points.PropagateFailure();
    }
    var rects := ReadRects(reader, size, bw);
    if rects.Failure? {
      return rects.PropagateFailure();
    }
    r := Success(Group(points.value, rects.value));
  }

  /** The groups of EMPTY, BLACK and WHITE, in that order. */
  method ReadGroups(reader: BitReader, size: nat, bw: nat) returns (r: Result<seq<Group>>)
    requires Readable(reader) && 1 <= bw <= 31
    modifies reader
    ensures Readable(reader)
    ensures Delivers(r, GroupsOf(old(Rest(reader)), size, bw), Rest(reader))
  {
    var g0 := ReadGroup(reader, size, bw);
    if g0.Failure? {
      return g0.PropagateFailure();
    }
    var g1 := ReadGroup(reader, size, bw);
    if g1.Failure? {
      return g1.PropagateFailure();
    }
    var g2 := ReadGroup(reader, size, bw);
    if g2.Failure? {
      return g2.PropagateFailure();
    }
    r := Success([g0.value, g1.value, g2.value]);
  }

  method ReadIntersections(reader: BitReader, size: nat, bw: nat) returns (r: Result<Option<seq<Group>>>)
    requires Readable(reader) && 1 <= bw <= 31
    modifies reader
    ensures Readable(reader)
    ensures Delivers(r, IntersectionsOf(old(Rest(reader)), size, bw), Rest(reader))
  {
    var flag := ReadBits(reader, 1);
    if flag.Failure? {
      return flag.PropagateFailure();
    }
    if flag.value == 0 {
      return Success(None);
    }
    var groups := ReadGroups(reader, size, bw);
    if groups.Failure? {
      return groups.PropagateFailure();
    }
    r := Success(Some(groups.value));
  }

  method ReadSetupTurn(reader: BitReader) returns (r: Result<Option<int>>)
    requires Readable(reader)
    modifies reader
    ensures Readable(reader)
    ensures Delivers(r, SetupTurnOf(old(Rest(reader))), Rest(reader))
  {
    var flag := ReadBits(reader, 1);
    if flag.Failure? {
      return flag.PropagateFailure();
    }
    if flag.value == 0 {
      return Success(None);
    }
    var color := ReadBits(reader, 1);
    if color.Failure? {
      return color.PropagateFailure();
    }
    r := Success(Some(if color.value == 0 then BLACK else WHITE));
  }

  method ReadSetup(reader: BitReader, size: nat, bw: nat) returns (r: Result<Token>)
    requires Readable(reader) && 1 <= bw <= 31
    modifies reader
    ensures Readable(reader)
    ensures Delivers(r, SetupOf(old(Rest(reader)), size, bw), Rest(reader))
  {
    var gs := ReadIntersections(reader, size, bw);
    if gs.Failure? {
      return gs.PropagateFailure();
    }
    var turn := ReadSetupTurn(reader);
    if turn.Failure? {
      return turn.PropagateFailure();
    }
    r := Success(Setup(gs.value, turn.value));
  }

  /** One token: a position, or a command with what it carries. */
  method ReadToken(reader: BitReader, size: nat, bw: nat) returns (r: Result<Token>)
    requires Readable(reader) && 1 <= bw <= 31
    modifies reader
    ensures Readable(reader)
    ensures Delivers(r, TokenOf(old(Rest(reader)), size, bw), Rest(reader))
  {
    var pos := ReadBits(reader, bw);
    if pos.Failure? {
      return pos.PropagateFailure();
    }
    var v := pos.value;
    if v < size {
      return Success(Place(v));
    }
    var cmd := v - size;
    if cmd == CMD_PASS {
      r := Success(Pass);
    } else if cmd == CMD_BEGIN_BRANCH {
      r := Success(BeginBranch);
    } else if cmd == CMD_END_BRANCH {
      r := Success(EndBranch);
    } else if cmd == CMD_SPECIAL {
      var sub := ReadBits(reader, BITWIDTH_SUBCMD);
      if sub.Failure? {
        return sub.PropagateFailure();
      }
      if sub.value == SUBCMD_RESIGN {
        r := Success(Resign);
      } else if sub.value == SUBCMD_SETUP {
        r := ReadSetup(reader, size, bw);
      } else {
        r := Failure(UNKNOWN_SUBCMD);
      }
    } else {
      r := Failure(UNKNOWN_CMD);
    }
  }

  // ----- the points loop as the program writes it -----

  /**
   * The program's points loop on its own reader, which reads zeros past
   * the end of the string: from bit `p`, positions below `size` are
   * collected until one of `size` or more, and the bit after it is
   * returned.  `None` when the loop has not stopped after `fuel`
   * positions.
   */
  function PointsLoopAsWritten(str: seq<Byte>, p: nat, size: nat, bw: nat, fuel: nat): Option<(seq<nat>, nat)>
    decreases fuel
  {
    if fuel == 0 then None
    else
      var v := Value(Window(str, p, bw));
      if v >= size then Some(([], p + bw))
      else
        match PointsLoopAsWritten(str, p + bw, size, bw, fuel - 1)
        case None => None
        case Some((ps, q)) => Some(([v] + ps, q))
  }

  lemma {:induction false} ValueOfZeros(bs: seq<bool>)
    requires forall k | 0 <= k < |bs| :: !bs[k]
    ensures Value(bs) == 0
    decreases |bs|
  {
    if bs != [] {
      ValueOfZeros(bs[1..]);
    }
  }

  /** Past the end of the string the program's reader reads 0. */
  lemma ZeroPastEnd(str: seq<Byte>, p: nat, w: nat)
    requires p >= 8 * |str|
    ensures Value(Window(str, p, w)) == 0
  {
    BitsOfZero(8);
    forall k | 0 <= k < w ensures !Window(str, p, w)[k] {
      assert Window(str, p, w)[k] == BitAt(str, p + k);
      assert (p + k) / 8 >= |str|;
      assert ByteAt(str, (p + k) / 8) == 0;
      assert 0 <= (p + k) % 8 < 8;
    }
    ValueOfZeros(Window(str, p, w));
  }

  /** Once past the end of the string, the program's points loop never stops: 0 is always a position. */
  lemma {:induction false} PointsLoopHangsPastEnd(str: seq<Byte>, p: nat, size: nat, bw: nat, fuel: nat)
    requires p >= 8 * |str| && size >= 1
    ensures PointsLoopAsWritten(str, p, size, bw, fuel) == None
    decreases fuel
  {
    if fuel > 0 {
      ZeroPastEnd(str, p, bw);
      PointsLoopHangsPastEnd(str, p + bw, size, bw, fuel - 1);
    }
  }

  /**
   * The record of the two bytes 20 and 2 on a 1 x 1 board (tokens of 3
   * bits) is a setup token whose intersection flag is set, and its string
   * ends inside the EMPTY points list, which starts at bit 10: the
   * program's points loop from there never stops.
   */
  lemma ShortSetupHangs(str: seq<Byte>, fuel: nat)
    requires str == [20, 2]
    ensures BitWidth(1) == 3
    ensures Value(Window(str, 0, 3)) == 1 + CMD_SPECIAL
    ensures Value(Window(str, 3, 6)) == SUBCMD_SETUP && Value(Window(str, 9, 1)) == 1
    ensures PointsLoopAsWritten(str, 10, 1, 3, fuel) == None
  {
    assert CeilLog2(5) == 3;
    ShortSetupWindows(str);
    if fuel > 1 {
      PointsLoopHangsPastEnd(str, 16, 1, 3, fuel - 2);
    }
  }

  /** The values of the windows of the two bytes 20 and 2 that a 3-bit reader sees. */
  lemma ShortSetupWindows(str: seq<Byte>)
    requires str == [20, 2]
    ensures Value(Window(str, 0, 3)) == 4 && Value(Window(str, 3, 6)) == 2
    ensures Value(Window(str, 9, 1)) == 1
    ensures Value(Window(str, 10, 3)) == 0 && Value(Window(str, 13, 3)) == 0
  {
    assert ByteAt(str, 0) == 20 && ByteAt(str, 1) == 2 && ByteAt(str, 2) == 0;
    HeaderWindows(str);
    PointWindows(str);
  }

  lemma HeaderWindows(str: seq<Byte>)
    requires ByteAt(str, 0) == 20 && ByteAt(str, 1) == 2
    ensures Value(Window(str, 0, 3)) == 4 && Value(Window(str, 3, 6)) == 2
    ensures Value(Window(str, 9, 1)) == 1
  {
    CommandWindow(str);
    SubCommandWindow(str);
    FlagWindow(str);
  }

  lemma CommandWindow(str: seq<Byte>)
    requires ByteAt(str, 0) == 20
    ensures Value(Window(str, 0, 3)) == 4
  {
    ReadWithin(str, 0, 0, 3);
    assert Low(5, 1) == 1;
    assert Low(10, 2) == 2;
    assert Low(Shr(20, 0), 3) == 4;
  }

  lemma FlagWindow(str: seq<Byte>)
    requires ByteAt(str, 1) == 2
    ensures Value(Window(str, 9, 1)) == 1
  {
    ReadWithin(str, 1, 1, 1);
    assert Shr(2, 1) == 1;
    assert Low(1, 1) == 1;
  }

  lemma SubCommandWindow(str: seq<Byte>)
    requires ByteAt(str, 0) == 20 && ByteAt(str, 1) == 2
    ensures Value(Window(str, 3, 6)) == 2
  {
    ReadAcross(str, 0, 3, 6);
    SubCommandBits();
  }

  lemma SubCommandBits()
    ensures Low(Shr(20, 3), 6) + Shl(Low(2, 1), 5) == 2
  {
    assert Shr(20, 3) == 2;
    assert Low(2, 1) == 0;
  }

  lemma PointWindows(str: seq<Byte>)
    requires ByteAt(str, 1) == 2 && ByteAt(str, 2) == 0
    ensures Value(Window(str, 10, 3)) == 0 && Value(Window(str, 13, 3)) == 0
  {
    ReadWithin(str, 1, 2, 3);
    assert Low(Shr(2, 2), 3) == 0;
    ReadAcross(str, 1, 5, 3);
    assert Low(Shr(2, 5), 3) + Shl(Low(0, 0), 3) == 0;
  }

  /** Inside the string, taking `w` bits of its stream at bit `p` reads the window there. */
  lemma TakeAt(str: seq<Byte>, p: nat, w: nat)
    requires p + w <= 8 * |str|
    ensures Take(StreamBits(str)[p..], w) == Success((Value(Window(str, p, w)), StreamBits(str)[p + w..]))
  {
    var s := StreamBits(str);
    var t := s[p..];
    WindowInside(str, p, w);
    assert t[..w] == s[p..p + w];
    assert t[w..] == s[p + w..];
  }

  /** The same record is refused by the token reader here as ending inside a token. */
  lemma ShortSetupRefused(str: seq<Byte>)
    requires str == [20, 2]
    ensures TokenOf(StreamBits(str), 1, 3) == Failure(TRUNCATED)
  {
    var s := StreamBits(str);
    ShortSetupWindows(str);
    TakeAt(str, 0, 3);
    TakeAt(str, 3, 6);
    TakeAt(str, 9, 1);
    TakeAt(str, 10, 3);
    TakeAt(str, 13, 3);
    assert s[..] == s[0..];
    assert s[16..] == [];
    assert PointsOf(s[13..], 1, 3) == Failure(TRUNCATED);
    assert PointsOf(s[10..], 1, 3) == Failure(TRUNCATED);
    assert IntersectionsOf(s[9..], 1, 3) == Failure(TRUNCATED);
  }
}
