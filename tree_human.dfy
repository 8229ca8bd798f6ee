/**
 * The human-readable record of a game tree, the text twin of the base64
 * record: the same tokens, each written as characters.  A move is "_"
 * and the two SGF letters of its point; a pass, a branch start and a
 * resignation are "-P", "-B" and "-R"; the end of a branch (and of the
 * tree) is "."; a setup is "-S", then "I" and three groups (EMPTY, BLACK,
 * WHITE) of points and of rectangle corner pairs, each list closed by
 * ".", when it changes intersections, then "T" and "B" or "W" when it
 * changes the turn, then "--".
 *
 * The reading functions work on the unread rest of the text, as the
 * program's parser does through its `strIndex`.  Between tokens, any
 * character other than "_", "-" and "." is skipped.  A read that needs
 * more characters than are left fails; see `Findings` in the accompanying
 * README for what the program does instead.
 */
module TreeHuman {
  import opened Stones
  import Seqs
  import opened Wrappers
  import opened Geometry
  import opened Diffs
  import opened Compression
  import opened SgfPoints
  import opened TreeTokens
  import opened TreeReplay
  import TreeWalk
  import TreeBase64

  const TRUNCATED := TreeBase64.TRUNCATED
  const UNKNOWN_CMD := TreeBase64.UNKNOWN_CMD
  const NOT_TERMINATED := "setup node not terminated"

  predicate AllValid(ts: seq<Token>, size: int) {
    forall i | 0 <= i < |ts| :: ValidToken(ts[i], size)
  }

  /** Tokens whose points all have SGF letters: the program throws on any other. */
  predicate TokensLettered(ts: seq<Token>, w: int)
    requires w >= 1
  {
    forall i | 0 <= i < |ts| :: TokenLettered(ts[i], w)
  }

  // ----- writing -----

  /** The SGF letter of a coordinate; the formatter writes only coordinates that have one. */
  function Letter(n: int): char {
    match ToSGFPointLetter(n)
    case Success(c) => c
    case Failure(_) => '?'
  }

  /** The two letters of a position on a board `w` points wide, column then row. */
  function PosText(pos: nat, w: nat): string
    requires w >= 1
  {
    [Letter(Column(pos, w)), Letter(Row(pos, w))]
  }

  /** The column of a position, by taking off whole rows. */
  function Column(pos: nat, w: nat): nat
    requires w >= 1
    decreases pos
  {
    if pos < w then pos else Column(pos - w, w)
  }

  /** The row of a position, by counting whole rows. */
  function Row(pos: nat, w: nat): nat
    requires w >= 1
    decreases pos
  {
    if pos < w then 0 else Row(pos - w, w) + 1
  }

  lemma {:induction false} ColumnRow(pos: nat, w: nat)
    requires w >= 1
    ensures Column(pos, w) == ToX(w, pos) && Row(pos, w) == ToY(w, pos)
    decreases pos
  {
    if pos < w {
      DivModUnique(w, pos, 0, pos);
    } else {
      ColumnRow(pos - w, w);
      DivModFacts(w, pos - w);
      DivModUnique(w, pos, Row(pos - w, w) + 1, Column(pos - w, w));
    }
  }

  function PointsText(ps: seq<nat>, w: nat): string
    requires w >= 1
  {
    if ps == [] then "" else PosText(ps[0], w) + PointsText(ps[1..], w)
  }

  function RectsText(rs: seq<(nat, nat)>, w: nat): string
    requires w >= 1
  {
    if rs == [] then "" else PosText(rs[0].0, w) + PosText(rs[0].1, w) + RectsText(rs[1..], w)
  }

  /** A group's points, ".", its corner pairs, ".". */
  function GroupText(g: Group, w: nat): string
    requires w >= 1
  {
    PointsText(g.points, w) + "." + RectsText(g.rects, w) + "."
  }

  function GroupsText(gs: seq<Group>, w: nat): string
    requires w >= 1
  {
    if gs == [] then "" else GroupText(gs[0], w) + GroupsText(gs[1..], w)
  }

  function IntersectionsText(gs: Option<seq<Group>>, w: nat): string
    requires w >= 1
  {
    match gs
    case None => ""
    case Some(groups) => "I" + GroupsText(groups, w)
  }

  function TurnText(turn: Option<int>): string {
    match turn
    case None => ""
    case Some(c) => "T" + (if c == BLACK then "B" else "W")
  }

  function TokenText(t: Token, w: nat): string
    requires w >= 1
  {
    match t
    case Place(pos) => "_" + PosText(pos, w)
    case Pass => "-P"
    case BeginBranch => "-B"
    case EndBranch => "."
    case Resign => "-R"
    case Setup(gs, turn) => "-S" + IntersectionsText(gs, w) + TurnText(turn) + "--"
  }

  function TokensText(ts: seq<Token>, w: nat): string
    requires w >= 1
  {
    if ts == [] then "" else TokenText(ts[0], w) + TokensText(ts[1..], w)
  }

  // ----- reading -----

  /** A value read from the front of a text, with the text after it. */
  type Scanned<T> = Result<(T, string)>

  function Prepended<T>(p: seq<T>, r: Scanned<seq<T>>): Scanned<seq<T>> {
    match r
    case Success((v, rest)) => Success((p + v, rest))
    case Failure(e) => Failure(e)
  }

  lemma PrependedNothing<T>(r: Scanned<seq<T>>)
    ensures Prepended([], r) == r
  {
    if r.Success? {
      assert [] + r.value.0 == r.value.0;
    }
  }

  lemma PrependedTwice<T>(p: seq<T>, q: seq<T>, r: Scanned<seq<T>>)
    ensures Prepended(p, Prepended(q, r)) == Prepended(p + q, r)
  {
    if r.Success? {
      assert p + (q + r.value.0) == (p + q) + r.value.0;
    }
  }

  /** A point the program's point parser accepts lies on the board. */
  lemma ParsedOnBoard(value: string, w: int, h: int)
    requires Dims(w, h) && ParseSGFPoint(value, w, h).Success?
    ensures OnBoard(w, h, ParseSGFPoint(value, w, h).value)
  {
    var (x, y) := ParseSGFPointXY(value, w, h).value;
    CornerOnBoard(x, y, w, h);
  }

  /** Two characters read as an SGF point of the board. */
  function PosOf(s: string, w: int, h: int): (r: Scanned<nat>)
    requires Dims(w, h)
    ensures r.Success? <==> |s| >= 2 && ParseSGFPoint(s[..2], w, h).Success?
    ensures r.Success? ==> OnBoard(w, h, r.value.0) && r.value.1 == s[2..]
  {
    if |s| < 2 then Failure(TRUNCATED)
    else
      var p :- ParseSGFPoint(s[..2], w, h);
      ParsedOnBoard(s[..2], w, h);
      Success((p, s[2..]))
  }

  /** Points up to a ".". */
  function PointsTextOf(s: string, w: int, h: int): (r: Scanned<seq<nat>>)
    requires Dims(w, h)
    ensures r.Success? ==> |r.value.1| < |s| && forall i | 0 <= i < |r.value.0| :: OnBoard(w, h, r.value.0[i])
    decreases |s|
  {
    if s == [] then Failure(TRUNCATED)
    else if s[0] == '.' then Success(([], s[1..]))
    else
      var (p, rest) :- PosOf(s, w, h);
      Prepended([p], PointsTextOf(rest, w, h))
  }

  /** Corner pairs up to a ".". */
  function RectsTextOf(s: string, w: int, h: int): (r: Scanned<seq<(nat, nat)>>)
    requires Dims(w, h)
    ensures r.Success? ==> |r.value.1| < |s|
    ensures r.Success? ==> forall i | 0 <= i < |r.value.0| :: OnBoard(w, h, r.value.0[i].0) && OnBoard(w, h, r.value.0[i].1)
    decreases |s|
  {
    if s == [] then Failure(TRUNCATED)
    else if s[0] == '.' then Success(([], s[1..]))
    else
      var (lt, rest) :- PosOf(s, w, h);
      var (rb, rest') :- PosOf(rest, w, h);
      Prepended([(lt, rb)], RectsTextOf(rest', w, h))
  }

  function GroupTextOf(s: string, w: int, h: int): (r: Scanned<Group>)
    requires Dims(w, h)
    ensures r.Success? ==> |r.value.1| < |s| && ValidGroup(r.value.0, w * h)
  {
    var (points, rest) :- PointsTextOf(s, w, h);
    var (rects, rest') :- RectsTextOf(rest, w, h);
    Success((Group(points, rects), rest'))
  }

  /** `n` groups, one after the other. */
  function GroupsTextOf(s: string, w: int, h: int, n: nat): (r: Scanned<seq<Group>>)
    requires Dims(w, h)
    ensures r.Success? ==> |r.value.1| <= |s| && |r.value.0| == n
    ensures r.Success? ==> forall si | 0 <= si < n :: ValidGroup(r.value.0[si], w * h)
    ensures r.Success? && n > 0 ==> |r.value.1| < |s|
    decreases n
  {
    if n == 0 then Success(([], s))
    else
      var (g, rest) :- GroupTextOf(s, w, h);
      var (gs, rest') :- GroupsTextOf(rest, w, h, n - 1);
      Success(([g] + gs, rest'))
  }

  /** "I" and the three groups, or nothing. */
  function IntersectionsTextOf(s: string, w: int, h: int): (r: Scanned<Option<seq<Group>>>)
    requires Dims(w, h)
    ensures r.Success? ==> |r.value.1| <= |s|
    ensures r.Success? && r.value.0.Some? ==> |r.value.0.value| == 3 && forall si | 0 <= si < 3 :: ValidGroup(r.value.0.value[si], w * h)
  {
    if s == [] || s[0] != 'I' then Success((None, s))
    else
      var (groups, rest) :- GroupsTextOf(s[1..], w, h, 3);
      Success((Some(groups), rest))
  }

  /**
   * "T" and the colour, "B" for BLACK and anything else for WHITE, or
   * nothing.  A "T" at the very end reads as WHITE, as the program's
   * comparison of a missing character with "B" does; the terminator
   * check after it then fails.
   */
  function TurnTextOf(s: string): (r: (Option<int>, string))
    ensures |r.1| <= |s| && (r.0.Some? ==> IsValidColor(r.0.value) && |r.1| < |s|)
  {
    if s == [] || s[0] != 'T' then (None, s)
    else if |s| == 1 then (Some(WHITE), [])
    else (Some(if s[1] == 'B' then BLACK else WHITE), s[2..])
  }

  /** The part of a setup token after its "-S": the intersections, the turn, and "--". */
  function SetupTextOf(s: string, w: int, h: int): (r: Scanned<Token>)
    requires Dims(w, h)
    ensures r.Success? ==> |r.value.1| < |s| && ValidToken(r.value.0, w * h)
  {
    var (gs, rest) :- IntersectionsTextOf(s, w, h);
    var (turn, rest') := TurnTextOf(rest);
    if |rest'| >= 2 && rest'[0] == '-' && rest'[1] == '-' then Success((Setup(gs, turn), rest'[2..]))
    else Failure(NOT_TERMINATED)
  }

  /**
   * One token, after any characters that start none: "_" and a point,
   * "-" and a command letter, or ".".  An unknown command letter, or none,
   * is refused as the program refuses it.
   */
  function TokenTextOf(s: string, w: int, h: int): (r: Scanned<Token>)
    requires Dims(w, h)
    ensures r.Success? ==> |r.value.1| < |s| && ValidToken(r.value.0, w * h)
    decreases |s|
  {
    if s == [] then Failure(TRUNCATED)
    else if s[0] == '_' then
      var (pos, rest) :- PosOf(s[1..], w, h);
      Success((Place(pos), rest))
    else if s[0] == '-' then
      if |s| < 2 then Failure(UNKNOWN_CMD)
      else if s[1] == 'P' then Success((Pass, s[2..]))
      else if s[1] == 'B' then Success((BeginBranch, s[2..]))
      else if s[1] == 'R' then Success((Resign, s[2..]))
      else if s[1] == 'S' then SetupTextOf(s[2..], w, h)
      else Failure(UNKNOWN_CMD)
    else if s[0] == '.' then Success((EndBranch, s[1..]))
    else TokenTextOf(s[1..], w, h)
  }

  /** The tokens up to and including the "." that closes depth 0, the end of the tree. */
  function TokensTextOf(s: string, w: int, h: int, depth: nat): (r: Result<seq<Token>>)
    requires Dims(w, h)
    ensures r.Success? ==> AllValid(r.value, w * h)
    decreases |s|
  {
    var (t, rest) :- TokenTextOf(s, w, h);
    if t == EndBranch && depth == 0 then Success([EndBranch])
    else
      var ts :- TokensTextOf(rest, w, h, TreeBase64.DepthAfter(t, depth));
      Success([t] + ts)
  }

  // ----- what is written is read back -----

  /** The letters written for an on-board position are two point letters that the program's point parser reads as that position. */
  lemma PosTextParses(pos: nat, w: nat, h: nat)
    requires Dims(w, h) && pos < w * h && Lettered(w, pos)
    ensures IsPointLetter(PosText(pos, w)[0]) && IsPointLetter(PosText(pos, w)[1])
    ensures ParseSGFPoint(PosText(pos, w), w, h) == Success(pos)
  {
    RowOnBoard(w, h, pos);
    DivModFacts(w, pos);
    ColumnRow(pos, w);
    LetterRoundTrip(ToX(w, pos));
    LetterRoundTrip(ToY(w, pos));
  }

  lemma PosRoundTrip(pos: nat, w: nat, h: nat, rest: string)
    requires Dims(w, h) && pos < w * h && Lettered(w, pos)
    ensures PosOf(PosText(pos, w) + rest, w, h) == Success((pos, rest))
  {
    PosTextParses(pos, w, h);
    var s := PosText(pos, w) + rest;
    assert s[..2] == PosText(pos, w) && s[2..] == rest;
  }

  lemma {:induction false} PointsTextRoundTrip(ps: seq<nat>, w: nat, h: nat, rest: string)
    requires Dims(w, h) && forall i | 0 <= i < |ps| :: ps[i] < w * h && Lettered(w, ps[i])
    ensures PointsTextOf(PointsText(ps, w) + "." + rest, w, h) == Success((ps, rest))
    decreases |ps|
  {
    if ps == [] {
      assert PointsText(ps, w) + "." + rest == "." + rest;
    } else {
      var tail := PointsText(ps[1..], w) + "." + rest;
      var s := PointsText(ps, w) + "." + rest;
      assert s == PosText(ps[0], w) + tail;
      assert s[0] == PosText(ps[0], w)[0];
      PosRoundTrip(ps[0], w, h, tail);
      assert forall i | 0 <= i < |ps[1..]| :: ps[1..][i] == ps[i + 1];
      PointsTextRoundTrip(ps[1..], w, h, rest);
      assert [ps[0]] + ps[1..] == ps;
    }
  }

  lemma {:induction false} RectsTextRoundTrip(rs: seq<(nat, nat)>, w: nat, h: nat, rest: string)
    requires Dims(w, h) && forall i | 0 <= i < |rs| :: rs[i].0 < w * h && rs[i].1 < w * h && Lettered(w, rs[i].0) && Lettered(w, rs[i].1)
    ensures RectsTextOf(RectsText(rs, w) + "." + rest, w, h) == Success((rs, rest))
    decreases |rs|
  {
    if rs == [] {
      assert RectsText(rs, w) + "." + rest == "." + rest;
    } else {
      var tail := RectsText(rs[1..], w) + "." + rest;
      assert RectsText(rs, w) + "." + rest == PosText(rs[0].0, w) + (PosText(rs[0].1, w) + tail);
      PosRoundTrip(rs[0].0, w, h, PosText(rs[0].1, w) + tail);
      PosRoundTrip(rs[0].1, w, h, tail);
      assert forall i | 0 <= i < |rs[1..]| :: rs[1..][i] == rs[i + 1];
      RectsTextRoundTrip(rs[1..], w, h, rest);
      RectsTextStep(rs, tail, w, h, rest);
    }
  }

  /** Reading the first corner pair, then the others. */
  lemma RectsTextStep(rs: seq<(nat, nat)>, tail: string, w: nat, h: nat, rest: string)
    requires Dims(w, h) && rs != []
    requires PosOf(PosText(rs[0].0, w) + (PosText(rs[0].1, w) + tail), w, h) == Success((rs[0].0, PosText(rs[0].1, w) + tail))
    requires PosOf(PosText(rs[0].1, w) + tail, w, h) == Success((rs[0].1, tail))
    requires RectsTextOf(tail, w, h) == Success((rs[1..], rest))
    ensures RectsTextOf(PosText(rs[0].0, w) + (PosText(rs[0].1, w) + tail), w, h) == Success((rs, rest))
  {
    var s := PosText(rs[0].0, w) + (PosText(rs[0].1, w) + tail);
    assert s[0] == PosText(rs[0].0, w)[0];
    assert [rs[0]] + rs[1..] == rs;
  }

  lemma GroupTextRoundTrip(g: Group, w: nat, h: nat, rest: string)
    requires Dims(w, h) && ValidGroup(g, w * h) && GroupLettered(g, w)
    ensures GroupTextOf(GroupText(g, w) + rest, w, h) == Success((g, rest))
  {
    var after := RectsText(g.rects, w) + "." + rest;
    assert GroupText(g, w) + rest == PointsText(g.points, w) + "." + after;
    PointsTextRoundTrip(g.points, w, h, after);
    RectsTextRoundTrip(g.rects, w, h, rest);
  }

  lemma {:induction false} GroupsTextRoundTrip(gs: seq<Group>, w: nat, h: nat, rest: string)
    requires Dims(w, h) && forall si | 0 <= si < |gs| :: ValidGroup(gs[si], w * h) && GroupLettered(gs[si], w)
    ensures GroupsTextOf(GroupsText(gs, w) + rest, w, h, |gs|) == Success((gs, rest))
    decreases |gs|
  {
    if gs == [] {
      assert GroupsText(gs, w) + rest == rest;
    } else {
      var tail := GroupsText(gs[1..], w) + rest;
      assert GroupsText(gs, w) + rest == GroupText(gs[0], w) + tail;
      GroupTextRoundTrip(gs[0], w, h, tail);
      assert forall si | 0 <= si < |gs[1..]| :: gs[1..][si] == gs[si + 1];
      GroupsTextRoundTrip(gs[1..], w, h, rest);
      GroupsTextStep(gs, tail, w, h, rest);
    }
  }

  /** Reading the first group, then the others. */
  lemma GroupsTextStep(gs: seq<Group>, tail: string, w: nat, h: nat, rest: string)
    requires Dims(w, h) && gs != []
    requires GroupTextOf(GroupText(gs[0], w) + tail, w, h) == Success((gs[0], tail))
    requires GroupsTextOf(tail, w, h, |gs| - 1) == Success((gs[1..], rest))
    ensures GroupsTextOf(GroupText(gs[0], w) + tail, w, h, |gs|) == Success((gs, rest))
  {
    assert [gs[0]] + gs[1..] == gs;
  }

  lemma IntersectionsTextRoundTrip(gs: Option<seq<Group>>, w: nat, h: nat, rest: string)
    requires Dims(w, h)
    requires gs.Some? ==> |gs.value| == 3 && forall si | 0 <= si < 3 :: ValidGroup(gs.value[si], w * h) && GroupLettered(gs.value[si], w)
    requires gs.None? ==> rest == [] || rest[0] != 'I'
    ensures IntersectionsTextOf(IntersectionsText(gs, w) + rest, w, h) == Success((gs, rest))
  {
    if gs.Some? {
      var body := GroupsText(gs.value, w) + rest;
      assert IntersectionsText(gs, w) + rest == "I" + body;
      assert ("I" + body)[1..] == body;
      GroupsTextRoundTrip(gs.value, w, h, rest);
    } else {
      assert IntersectionsText(gs, w) + rest == rest;
    }
  }

  lemma TurnTextRoundTrip(turn: Option<int>, rest: string)
    requires turn.Some? ==> IsValidColor(turn.value)
    requires turn.None? ==> rest == [] || rest[0] != 'T'
    ensures TurnTextOf(TurnText(turn) + rest) == (turn, rest)
  {
    if turn.Some? {
      var s := TurnText(turn) + rest;
      assert s[0] == 'T' && s[1] == (if turn.value == BLACK then 'B' else 'W') && s[2..] == rest;
    } else {
      assert TurnText(turn) + rest == rest;
    }
  }

  lemma SetupTextRoundTrip(gs: Option<seq<Group>>, turn: Option<int>, w: nat, h: nat, rest: string)
    requires Dims(w, h) && ValidToken(Setup(gs, turn), w * h) && TokenLettered(Setup(gs, turn), w)
    ensures SetupTextOf(IntersectionsText(gs, w) + (TurnText(turn) + ("--" + rest)), w, h) == Success((Setup(gs, turn), rest))
  {
    var afterTurn := "--" + rest;
    var afterIsects := TurnText(turn) + afterTurn;
    assert afterIsects[0] == 'T' || afterIsects[0] == '-';
    IntersectionsTextRoundTrip(gs, w, h, afterIsects);
    TurnTextRoundTrip(turn, afterTurn);
    assert afterTurn[2..] == rest;
  }

  lemma PlaceTextRoundTrip(pos: nat, w: nat, h: nat, rest: string)
    requires Dims(w, h) && pos < w * h && Lettered(w, pos)
    ensures TokenTextOf(TokenText(Place(pos), w) + rest, w, h) == Success((Place(pos), rest))
  {
    var s := TokenText(Place(pos), w) + rest;
    assert s == "_" + (PosText(pos, w) + rest);
    assert s[1..] == PosText(pos, w) + rest;
    PosRoundTrip(pos, w, h, rest);
  }

  /** After "-S", a token is read as the rest of a setup. */
  lemma SetupPrefix(x: string, w: int, h: int)
    requires Dims(w, h)
    ensures TokenTextOf("-S" + x, w, h) == SetupTextOf(x, w, h)
  {
    var s := "-S" + x;
    assert s[0] == '-' && s[1] == 'S' && s[2..] == x;
  }

  lemma SetupTokenTextRoundTrip(gs: Option<seq<Group>>, turn: Option<int>, w: nat, h: nat, rest: string)
    requires Dims(w, h) && ValidToken(Setup(gs, turn), w * h) && TokenLettered(Setup(gs, turn), w)
    ensures TokenTextOf(TokenText(Setup(gs, turn), w) + rest, w, h) == Success((Setup(gs, turn), rest))
  {
    var body := IntersectionsText(gs, w) + (TurnText(turn) + ("--" + rest));
    assert TokenText(Setup(gs, turn), w) + rest == "-S" + body;
    SetupPrefix(body, w, h);
    SetupTextRoundTrip(gs, turn, w, h, rest);
  }

  /** Every token the formats can carry is read back from its text, whatever follows. */
  lemma TokenTextRoundTrip(t: Token, w: nat, h: nat, rest: string)
    requires Dims(w, h) && ValidToken(t, w * h) && TokenLettered(t, w)
    ensures TokenTextOf(TokenText(t, w) + rest, w, h) == Success((t, rest))
  {
    match t {
      case Place(pos) => PlaceTextRoundTrip(pos, w, h, rest);
      case Setup(gs, turn) => SetupTokenTextRoundTrip(gs, turn, w, h, rest);
      case Pass => assert (TokenText(t, w) + rest)[2..] == rest;
      case BeginBranch => assert (TokenText(t, w) + rest)[2..] == rest;
      case Resign => assert (TokenText(t, w) + rest)[2..] == rest;
      case EndBranch => assert (TokenText(t, w) + rest)[1..] == rest;
    }
  }

  /** What the token loop reads once the first token is read. */
  lemma TokensStep(s: string, t: Token, after: string, w: int, h: int, depth: nat)
    requires Dims(w, h) && TokenTextOf(s, w, h) == Success((t, after))
    ensures t == EndBranch && depth == 0 ==> TokensTextOf(s, w, h, depth) == Success([EndBranch])
    ensures !(t == EndBranch && depth == 0) && TokensTextOf(after, w, h, TreeBase64.DepthAfter(t, depth)).Success? ==>
      TokensTextOf(s, w, h, depth) == Success([t] + TokensTextOf(after, w, h, TreeBase64.DepthAfter(t, depth)).value)
  {
  }

  /** A closed list of tokens the formats can carry is read back from its text, whatever follows. */
  lemma {:induction false} TokensTextRoundTrip(ts: seq<Token>, w: nat, h: nat, depth: nat, rest: string)
    requires Dims(w, h) && TreeBase64.ClosedAt(ts, depth) && AllValid(ts, w * h) && TokensLettered(ts, w)
    ensures TokensTextOf(TokensText(ts, w) + rest, w, h, depth) == Success(ts)
    decreases |ts|
  {
    var tail := TokensText(ts[1..], w) + rest;
    var s := TokensText(ts, w) + rest;
    TokensTextFront(ts, w, rest);
    TokenTextRoundTrip(ts[0], w, h, tail);
    TokensStep(s, ts[0], tail, w, h, depth);
    if !(ts[0] == EndBranch && depth == 0) {
      AllValidTail(ts, w * h, w);
      TokensTextRoundTrip(ts[1..], w, h, TreeBase64.DepthAfter(ts[0], depth), rest);
      Seqs.HeadTail(ts);
    } else {
      assert ts == [EndBranch];
    }
  }

  lemma TokensTextFront(ts: seq<Token>, w: nat, rest: string)
    requires w >= 1 && ts != []
    ensures TokensText(ts, w) + rest == TokenText(ts[0], w) + (TokensText(ts[1..], w) + rest)
  {
    Seqs.ConcatAssoc(TokenText(ts[0], w), TokensText(ts[1..], w), rest);
  }

  lemma AllValidTail(ts: seq<Token>, size: int, w: nat)
    requires w >= 1 && ts != [] && AllValid(ts, size) && TokensLettered(ts, w)
    ensures ValidToken(ts[0], size) && AllValid(ts[1..], size)
    ensures TokenLettered(ts[0], w) && TokensLettered(ts[1..], w)
  {
    assert forall i | 0 <= i < |ts[1..]| :: ts[1..][i] == ts[i + 1];
  }

  lemma {:induction false} TokensTextAppend(ts: seq<Token>, t: Token, w: nat)
    requires w >= 1
    ensures TokensText(ts + [t], w) == TokensText(ts, w) + TokenText(t, w)
    decreases |ts|
  {
    if ts == [] {
      assert [] + [t] == [t] && [t][1..] == [];
    } else {
      assert (ts + [t])[0] == ts[0] && (ts + [t])[1..] == ts[1..] + [t];
      TokensTextAppend(ts[1..], t, w);
      Seqs.ConcatAssoc(TokenText(ts[0], w), TokensText(ts[1..], w), TokenText(t, w));
    }
  }

  lemma {:induction false} PointsTextAppend(ps: seq<nat>, p: nat, w: nat)
    requires w >= 1
    ensures PointsText(ps + [p], w) == PointsText(ps, w) + PosText(p, w)
    decreases |ps|
  {
    if ps == [] {
      assert [] + [p] == [p] && [p][1..] == [];
    } else {
      assert (ps + [p])[0] == ps[0] && (ps + [p])[1..] == ps[1..] + [p];
      PointsTextAppend(ps[1..], p, w);
      Seqs.ConcatAssoc(PosText(ps[0], w), PointsText(ps[1..], w), PosText(p, w));
    }
  }

  lemma {:induction false} RectsTextAppend(rs: seq<(nat, nat)>, r: (nat, nat), w: nat)
    requires w >= 1
    ensures RectsText(rs + [r], w) == RectsText(rs, w) + PosText(r.0, w) + PosText(r.1, w)
    decreases |rs|
  {
    if rs == [] {
      assert [] + [r] == [r] && [r][1..] == [];
    } else {
      assert (rs + [r])[0] == rs[0] && (rs + [r])[1..] == rs[1..] + [r];
      RectsTextAppend(rs[1..], r, w);
    }
  }

  lemma {:induction false} GroupsTextAppend(gs: seq<Group>, g: Group, w: nat)
    requires w >= 1
    ensures GroupsText(gs + [g], w) == GroupsText(gs, w) + GroupText(g, w)
    decreases |gs|
  {
    if gs == [] {
      assert [] + [g] == [g] && [g][1..] == [];
    } else {
      assert (gs + [g])[0] == gs[0] && (gs + [g])[1..] == gs[1..] + [g];
      GroupsTextAppend(gs[1..], g, w);
      Seqs.ConcatAssoc(GroupText(gs[0], w), GroupsText(gs[1..], w), GroupText(g, w));
    }
  }

  lemma PointsPrefixStep(ps: seq<nat>, k: nat, w: nat)
    requires w >= 1 && k < |ps|
    ensures PointsText(ps[..k + 1], w) == PointsText(ps[..k], w) + PosText(ps[k], w)
  {
    Seqs.TakeNext(ps, k);
    PointsTextAppend(ps[..k], ps[k], w);
  }

  lemma RectsPrefixStep(rs: seq<(nat, nat)>, k: nat, w: nat)
    requires w >= 1 && k < |rs|
    ensures RectsText(rs[..k + 1], w) == RectsText(rs[..k], w) + PosText(rs[k].0, w) + PosText(rs[k].1, w)
  {
    Seqs.TakeNext(rs, k);
    RectsTextAppend(rs[..k], rs[k], w);
  }

  lemma GroupsPrefixStep(gs: seq<Group>, k: nat, w: nat)
    requires w >= 1 && k < |gs|
    ensures GroupsText(gs[..k + 1], w) == GroupsText(gs[..k], w) + GroupText(gs[k], w)
  {
    Seqs.TakeNext(gs, k);
    GroupsTextAppend(gs[..k], gs[k], w);
  }

  /** Text appended piece by piece to `start` makes the text of a setup token. */
  lemma SetupTextPieces(start: string, afterIsects: string, afterTurn: string, end: string, gs: Option<seq<Group>>, turn: Option<int>, w: nat)
    requires w >= 1
    requires afterIsects == start + "-S" + IntersectionsText(gs, w)
    requires afterTurn == afterIsects + TurnText(turn)
    requires end == afterTurn + "--"
    ensures end == start + TokenText(Setup(gs, turn), w)
  {
  }

  /** Text appended piece by piece to `start` makes the text of a group. */
  lemma GroupTextPieces(start: string, afterPoints: string, afterRects: string, end: string, g: Group, w: nat)
    requires w >= 1
    requires afterPoints == start + PointsText(g.points, w)
    requires afterRects == afterPoints + "." + RectsText(g.rects, w)
    requires end == afterRects + "."
    ensures end == start + GroupText(g, w)
  {
  }

  // ----- the command scan as the program writes it -----

  /** A character that starts a token: "_", "-" or ".". */
  predicate IsCommandChar(c: char) {
    c == '_' || c == '-' || c == '.'
  }

  /**
   * The program's scan for the next token: characters that start no token
   * are skipped, and past the end of the text its `get()` yields undefined,
   * which starts no token either, so the scan stays where it is.  `None`
   * when no token has started after `fuel` reads.
   */
  function NextCommandAsWritten(s: string, fuel: nat): Option<string>
    decreases fuel
  {
    if fuel == 0 then None
    else if s != [] && IsCommandChar(s[0]) then Some(s)
    else NextCommandAsWritten(if s == [] then [] else s[1..], fuel - 1)
  }

  /** On a text in which no token starts, the empty text among them, the program's scan never stops. */
  lemma {:induction false} NoCommandHangs(s: string, fuel: nat)
    requires forall i | 0 <= i < |s| :: !IsCommandChar(s[i])
    ensures NextCommandAsWritten(s, fuel) == None
    decreases fuel
  {
    if fuel > 0 {
      if s != [] {
        assert !IsCommandChar(s[0]);
        NoCommandHangs(s[1..], fuel - 1);
      } else {
        NoCommandHangs(s, fuel - 1);
      }
    }
  }

  /** The same text is refused by the token reader here as ending before a token. */
  lemma {:induction false} NoCommandRefused(s: string, w: int, h: int)
    requires Dims(w, h)
    requires forall i | 0 <= i < |s| :: !IsCommandChar(s[i])
    ensures TokenTextOf(s, w, h) == Failure(TRUNCATED)
    decreases |s|
  {
    if s != [] {
      assert !IsCommandChar(s[0]);
      NoCommandRefused(s[1..], w, h);
    }
  }

  /** Where the program's scan does find a token, the token reader here reads what follows it. */
  lemma {:induction false} NextCommandAgrees(s: string, w: int, h: int, fuel: nat)
    requires Dims(w, h) && NextCommandAsWritten(s, fuel).Some?
    ensures TokenTextOf(s, w, h) == TokenTextOf(NextCommandAsWritten(s, fuel).value, w, h)
    decreases fuel
  {
    if !(s != [] && IsCommandChar(s[0])) {
      if s == [] {
        NoCommandHangs(s, fuel - 1);
      } else {
        NextCommandAgrees(s[1..], w, h, fuel - 1);
      }
    }
  }

  // ----- the formatter -----

  /** The program's human-readable formatter: the tokens of a tree walk, appended to a string as text. */
  class HumanFormatter {
    const w: nat
    const h: nat
    var str: string
    /** The tokens written so far. */
    ghost var tokens: seq<Token>

    ghost predicate Valid()
      reads this
    {
      Dims(w, h) && AllValid(tokens, w * h) && TokensLettered(tokens, w) && str == TokensText(tokens, w)
    }

    constructor(w: nat, h: nat)
      requires Dims(w, h)
      ensures Valid() && this.w == w && this.h == h && tokens == []
    {
      this.w := w;
      this.h := h;
      str := "";
      tokens := [];
    }

    /** The two letters of a position, column then row. */
    method PutPos(pos: nat)
      requires Dims(w, h) && pos < w * h && Lettered(w, pos)
      modifies this
      ensures str == old(str) + PosText(pos, w) && tokens == old(tokens)
    {
      RowOnBoard(w, h, pos);
      ColumnRow(pos, w);
      var x := ToSGFPointLetter(pos % w);
      var y := ToSGFPointLetter(pos / w);
      str := str + [x.value, y.value];
    }

    /** Appends a token that is not a setup. */
    method PutToken(t: Token)
      requires Valid() && ValidToken(t, w * h) && TokenLettered(t, w) && !t.Setup?
      modifies this
      ensures Valid() && tokens == old(tokens) + [t]
    {
      match t {
        case Place(pos) =>
          str := str + "_";
          PutPos(pos);
        case Pass => str := str + "-P";
        case BeginBranch => str := str + "-B";
        case EndBranch => str := str + ".";
        case Resign => str := str + "-R";
      }
      TokensTextAppend(tokens, t, w);
      tokens := tokens + [t];
    }

    method PutPoints(ps: seq<nat>)
      requires Dims(w, h) && forall i | 0 <= i < |ps| :: ps[i] < w * h && Lettered(w, ps[i])
      modifies this
      ensures str == old(str) + PointsText(ps, w) && tokens == old(tokens)
    {
      var k := 0;
      while k < |ps|
        invariant 0 <= k <= |ps| && tokens == old(tokens)
        invariant str == old(str) + PointsText(ps[..k], w)
      {
        PointsPrefixStep(ps, k, w);
        PutPos(ps[k]);
        k := k + 1;
      }
      Seqs.TakeAll(ps);
    }

    method PutRects(rs: seq<(nat, nat)>)
      requires Dims(w, h) && forall i | 0 <= i < |rs| :: rs[i].0 < w * h && rs[i].1 < w * h && Lettered(w, rs[i].0) && Lettered(w, rs[i].1)
      modifies this
      ensures str == old(str) + RectsText(rs, w) && tokens == old(tokens)
    {
      var k := 0;
      while k < |rs|
        invariant 0 <= k <= |rs| && tokens == old(tokens)
        invariant str == old(str) + RectsText(rs[..k], w)
      {
        RectsPrefixStep(rs, k, w);
        PutPos(rs[k].0);
        PutPos(rs[k].1);
        k := k + 1;
      }
      Seqs.TakeAll(rs);
    }

    /** A state's points, ".", its corner pairs, ".". */
    method PutGroup(g: Group)
      requires Dims(w, h) && ValidGroup(g, w * h) && GroupLettered(g, w)
      modifies this
      ensures str == old(str) + GroupText(g, w) && tokens == old(tokens)
    {
      ghost var start := str;
      PutPoints(g.points);
      ghost var afterPoints := str;
      str := str + ".";
      PutRects(g.rects);
      ghost var afterRects := str;
      str := str + ".";
      GroupTextPieces(start, afterPoints, afterRects, str, g, w);
    }

    /** The groups of EMPTY, BLACK and WHITE, in that order. */
    method PutGroups(groups: seq<Group>)
      requires Dims(w, h) && |groups| == 3 && forall si | 0 <= si < 3 :: ValidGroup(groups[si], w * h) && GroupLettered(groups[si], w)
      modifies this
      ensures str == old(str) + GroupsText(groups, w) && tokens == old(tokens)
    {
      var si := 0;
      while si < 3
        invariant 0 <= si <= 3 && tokens == old(tokens)
        invariant str == old(str) + GroupsText(groups[..si], w)
      {
        GroupsPrefixStep(groups, si, w);
        PutGroup(groups[si]);
        si := si + 1;
      }
      Seqs.TakeAll(groups);
    }

    /** "I" and the groups of a non-empty change list, or nothing for an empty one. */
    method PutIntersections(intersections: seq<Change>) returns (gs: Option<seq<Group>>)
      requires Dims(w, h) && Fits(intersections, w, h) && ChangesLettered(intersections, w)
      modifies this
      ensures str == old(str) + IntersectionsText(gs, w) && tokens == old(tokens)
      ensures gs.Some? <==> intersections != []
      ensures gs.Some? ==> TreeBase64.GroupsDescribe(gs.value, intersections, w, h)
      ensures gs.Some? ==> |gs.value| == 3 && forall si | 0 <= si < 3 :: ValidGroup(gs.value[si], w * h) && GroupLettered(gs.value[si], w)
    {
      if intersections == [] {
        return None;
      }
      str := str + "I";
      var groups := TreeBase64.SetupGroups(intersections, w, h);
      assert forall si | 0 <= si < 3 :: ValidGroup(groups[si], w * h) && GroupLettered(groups[si], w);
      PutGroups(groups);
      Seqs.ConcatAssoc(old(str), "I", GroupsText(groups, w));
      gs := Some(groups);
    }

    /** "T" and the colour to move, or nothing. */
    method PutTurn(turn: Option<int>)
      modifies this
      ensures str == old(str) + TurnText(turn) && tokens == old(tokens)
    {
      if turn.Some? {
        str := str + "T";
        str := str + if turn.value == BLACK then "B" else "W";
      }
    }

    /** The text of a setup token: "-S", the intersections of the change list, the turn `newTurn`, "--". */
    method PutSetupText(intersections: seq<Change>, newTurn: Option<int>) returns (gs: Option<seq<Group>>)
      requires Dims(w, h) && Fits(intersections, w, h) && ChangesLettered(intersections, w)
      modifies this
      ensures str == old(str) + TokenText(Setup(gs, newTurn), w) && tokens == old(tokens)
      ensures gs.Some? <==> intersections != []
      ensures gs.Some? ==> TreeBase64.GroupsDescribe(gs.value, intersections, w, h)
      ensures gs.Some? ==> |gs.value| == 3 && forall si | 0 <= si < 3 :: ValidGroup(gs.value[si], w * h) && GroupLettered(gs.value[si], w)
    {
      ghost var start := str;
      str := str + "-S";
      gs := PutIntersections(intersections);
      ghost var afterIsects := str;
      PutTurn(newTurn);
      ghost var afterTurn := str;
      str := str + "--";
      SetupTextPieces(start, afterIsects, afterTurn, str, gs, newTurn, w);
    }

    /**
     * A setup token for a setup with change list `intersections` and turn
     * change `setupTurn`, written with `turn` to move.
     */
    method PutSetupProperty(intersections: seq<Change>, setupTurn: Option<TurnChange>, turn: int)
      requires Valid() && Fits(intersections, w, h) && ChangesLettered(intersections, w)
      modifies this
      ensures Valid() && |tokens| == |old(tokens)| + 1 && tokens[..|old(tokens)|] == old(tokens)
      ensures TreeBase64.IsSetupTokenFor(tokens[|old(tokens)|], intersections, setupTurn, turn, w, h)
    {
      var newTurn := TreeBase64.TurnColor(TurnOf(setupTurn, turn));
      var gs := PutSetupText(intersections, newTurn);
      var t := Setup(gs, newTurn);
      TokensTextAppend(tokens, t, w);
      tokens := tokens + [t];
      assert tokens[..|old(tokens)|] == old(tokens);
    }

    /** Writes what the formatter writes for one call of the walk; `out` is the tokens written. */
    method PutCall(c: TreeWalk.Call) returns (ghost out: seq<Token>)
      requires Valid() && TreeBase64.CallFits(c, w, h) && TreeBase64.CallLettered(c, w)
      modifies this
      ensures Valid() && tokens == old(tokens) + out && TreeBase64.Encodes(out, [c], w, h)
    {
      match c {
        case BeginTree(_) =>
        case EndTree(_) => PutToken(EndBranch);
        case PutResign(_) => PutToken(Resign);
        case PutPass(_) => PutToken(Pass);
        case PutPlace(pos, _) => PutToken(Place(pos));
        case PutSetupNode(_, _) =>
        case PutSetupProperty(cs, setupTurn, turn) => PutSetupProperty(cs, setupTurn, turn);
        case PutComment(_, _) =>
        case BeginBranch(_, _) => PutToken(Token.BeginBranch);
        case EndBranch(_, _) => PutToken(Token.EndBranch);
      }
      out := tokens[|old(tokens)|..];
      assert tokens == old(tokens) + out;
      assert [c][1..] == [];
    }

    /** Writes the calls in order; `out` is the tokens written. */
    method PutCalls(cs: seq<TreeWalk.Call>) returns (ghost out: seq<Token>)
      requires Valid() && forall i | 0 <= i < |cs| :: TreeBase64.CallFits(cs[i], w, h) && TreeBase64.CallLettered(cs[i], w)
      modifies this
      ensures Valid() && tokens == old(tokens) + out && TreeBase64.Encodes(out, cs, w, h)
    {
      out := [];
      var k := 0;
      while k < |cs|
        invariant 0 <= k <= |cs| && Valid()
        invariant tokens == old(tokens) + out && TreeBase64.Encodes(out, cs[..k], w, h)
      {
        var more := PutCall(cs[k]);
        TreeBase64.EncodesAppend(out, cs[..k], more, [cs[k]], w, h);
        Seqs.TakeNext(cs, k);
        out := out + more;
        k := k + 1;
      }
      Seqs.TakeAll(cs);
    }

    /** The text written so far. */
    method ToString() returns (s: string)
      requires Valid()
      ensures s == TokensText(tokens, w)
    {
      s := str;
    }
  }

  // ----- the reader -----

  /** The parser's text and its `strIndex`, with the program's `scan` and `get`; past the end there is no character. */
  class TextReader {
    const str: string
    var index: nat

    ghost predicate Valid()
      reads this
    {
      index <= |str|
    }

    /** The characters not read yet. */
    ghost function Rest(): string
      reads this
      requires Valid()
    {
      str[index..]
    }

    constructor(str: string)
      ensures Valid() && this.str == str && Rest() == str
    {
      this.str := str;
      index := 0;
    }

    /** The next character, not consumed. */
    method Scan() returns (c: Option<char>)
      requires Valid()
      ensures c == if Rest() == [] then None else Some(Rest()[0])
    {
      c := if index < |str| then Some(str[index]) else None;
    }

    /** The next character, consumed. */
    method Get() returns (c: Option<char>)
      requires Valid()
      modifies this
      ensures Valid()
      ensures c == if old(Rest()) == [] then None else Some(old(Rest())[0])
      ensures Rest() == if old(Rest()) == [] then [] else old(Rest())[1..]
    {
      if index < |str| {
        c := Some(str[index]);
        index := index + 1;
      } else {
        c := None;
      }
    }
  }

  /** `r` is what `spec` reads, and `rest` is what `spec` leaves unread when it succeeds. */
  ghost predicate Yields<T>(r: Result<T>, spec: Scanned<T>, rest: string) {
    match spec
    case Failure(e) => r == Failure(e)
    case Success((v, after)) => r == Success(v) && rest == after
  }

  /** The program's `readPos`: two characters read as an SGF point. */
  method ReadPos(reader: TextReader, w: int, h: int) returns (r: Result<nat>)
    requires reader.Valid() && Dims(w, h)
    modifies reader
    ensures reader.Valid() && Yields(r, PosOf(old(reader.Rest()), w, h), reader.Rest())
  {
    ghost var s := reader.Rest();
    var c1 := reader.Get();
    var c2 := reader.Get();
    if c1.None? || c2.None? {
      return Failure(TRUNCATED);
    }
    assert s[..2] == [c1.value, c2.value] && reader.Rest() == s[2..];
    var p := ParseSGFPoint([c1.value, c2.value], w, h);
    if p.Failure? {
      return Failure(p.error);
    }
    ParsedOnBoard([c1.value, c2.value], w, h);
    r := Success(p.value);
  }

  /** The points loop of a setup: positions until a ".". */
  method ReadTextPoints(reader: TextReader, w: int, h: int) returns (r: Result<seq<nat>>)
    requires reader.Valid() && Dims(w, h)
    modifies reader
    ensures reader.Valid() && Yields(r, PointsTextOf(old(reader.Rest()), w, h), reader.Rest())
  {
    ghost var s0 := reader.Rest();
    var points: seq<nat> := [];
    PrependedNothing(PointsTextOf(s0, w, h));
    while true
      invariant reader.Valid()
      invariant PointsTextOf(s0, w, h) == Prepended(points, PointsTextOf(reader.Rest(), w, h))
      decreases |reader.Rest()|
    {
      var c := reader.Scan();
      if c.None? {
        return Failure(TRUNCATED);
      }
      if c.value == '.' {
        var _ := reader.Get();
        assert points + [] == points;
        return Success(points);
      }
      var pos := ReadPos(reader, w, h);
      if pos.Failure? {
        return pos.PropagateFailure();
      }
      PrependedTwice(points, [pos.value], PointsTextOf(reader.Rest(), w, h));
      points := points + [pos.value];
    }
  }

  /** The rectangles loop of a setup: corner pairs until a ".". */
  method ReadTextRects(reader: TextReader, w: int, h: int) returns (r: Result<seq<(nat, nat)>>)
    requires reader.Valid() && Dims(w, h)
    modifies reader
    ensures reader.Valid() && Yields(r, RectsTextOf(old(reader.Rest()), w, h), reader.Rest())
  {
    ghost var s0 := reader.Rest();
    var rects: seq<(nat, nat)> := [];
    PrependedNothing(RectsTextOf(s0, w, h));
    while true
      invariant reader.Valid()
      invariant RectsTextOf(s0, w, h) == Prepended(rects, RectsTextOf(reader.Rest(), w, h))
      decreases |reader.Rest()|
    {
      var c := reader.Scan();
      if c.None? {
        return Failure(TRUNCATED);
      }
      if c.value == '.' {
        var _ := reader.Get();
        assert rects + [] == rects;
        return Success(rects);
      }
      var lt := ReadPos(reader, w, h);
      if lt.Failure? {
        return lt.PropagateFailure();
      }
      var rb := ReadPos(reader, w, h);
      if rb.Failure? {
        return rb.PropagateFailure();
      }
      PrependedTwice(rects, [(lt.value, rb.value)], RectsTextOf(reader.Rest(), w, h));
      rects := rects + [(lt.value, rb.value)];
    }
  }

  method ReadTextGroup(reader: TextReader, w: int, h: int) returns (r: Result<Group>)
    requires reader.Valid() && Dims(w, h)
    modifies reader
    ensures reader.Valid() && Yields(r, GroupTextOf(old(reader.Rest()), w, h), reader.Rest())
  {
    var points := ReadTextPoints(reader, w, h);
    if points.Failure? {
      return points.PropagateFailure();
    }
    var rects := ReadTextRects(reader, w, h);
    if rects.Failure? {
      return rects.PropagateFailure();
    }
    r := Success(Group(points.value, rects.value));
  }

  /** The groups of EMPTY, BLACK and WHITE, in that order. */
  method ReadTextGroups(reader: TextReader, w: int, h: int) returns (r: Result<seq<Group>>)
    requires reader.Valid() && Dims(w, h)
    modifies reader
    ensures reader.Valid() && Yields(r, GroupsTextOf(old(reader.Rest()), w, h, 3), reader.Rest())
  {
    ghost var s0 := reader.Rest();
    var groups: seq<Group> := [];
    PrependedNothing(GroupsTextOf(s0, w, h, 3));
    for si := 0 to 3
      invariant reader.Valid() && |groups| == si
      invariant GroupsTextOf(s0, w, h, 3) == Prepended(groups, GroupsTextOf(reader.Rest(), w, h, 3 - si))
    {
      ghost var s := reader.Rest();
      var g := ReadTextGroup(reader, w, h);
      if g.Failure? {
        return g.PropagateFailure();
      }
      assert GroupsTextOf(s, w, h, 3 - si) == Prepended([g.value], GroupsTextOf(reader.Rest(), w, h, 3 - si - 1));
      PrependedTwice(groups, [g.value], GroupsTextOf(reader.Rest(), w, h, 3 - si - 1));
      groups := groups + [g.value];
    }
    assert groups + [] == groups;
    r := Success(groups);
  }

  /** "I" and the groups when the next character is "I", or nothing. */
  method ReadTextIntersections(reader: TextReader, w: int, h: int) returns (r: Result<Option<seq<Group>>>)
    requires reader.Valid() && Dims(w, h)
    modifies reader
    ensures reader.Valid() && Yields(r, IntersectionsTextOf(old(reader.Rest()), w, h), reader.Rest())
  {
    var i := reader.Scan();
    if i != Some('I') {
      return Success(None);
    }
    var _ := reader.Get();
    var groups := ReadTextGroups(reader, w, h);
    if groups.Failure? {
      return groups.PropagateFailure();
    }
    r := Success(Some(groups.value));
  }

  /** "T" and the colour when the next character is "T", or nothing. */
  method ReadTextTurn(reader: TextReader) returns (turn: Option<int>)
    requires reader.Valid()
    modifies reader
    ensures reader.Valid() && TurnTextOf(old(reader.Rest())) == (turn, reader.Rest())
  {
    var t := reader.Scan();
    if t != Some('T') {
      return None;
    }
    var _ := reader.Get();
    var color := reader.Get();
    turn := Some(if color == Some('B') then BLACK else WHITE);
  }

  /** What follows "-S": the intersections, the turn, then "--". */
  method ReadTextSetup(reader: TextReader, w: int, h: int) returns (r: Result<Token>)
    requires reader.Valid() && Dims(w, h)
    modifies reader
    ensures reader.Valid() && Yields(r, SetupTextOf(old(reader.Rest()), w, h), reader.Rest())
  {
    var gs := ReadTextIntersections(reader, w, h);
    if gs.Failure? {
      return gs.PropagateFailure();
    }
    var turn := ReadTextTurn(reader);
    ghost var afterTurn := reader.Rest();
    var d1 := reader.Get();
    if d1 != Some('-') {
      return Failure(NOT_TERMINATED);
    }
    var d2 := reader.Get();
    if d2 != Some('-') {
      return Failure(NOT_TERMINATED);
    }
    assert afterTurn[2..] == reader.Rest();
    r := Success(Setup(gs.value, turn));
  }

  /**
   * The program's main loop, up to one token: a prefix character is read;
   * "_" reads a point, "-" a command letter, "." ends a branch, and any
   * other character is skipped.
   */
  method ReadTextToken(reader: TextReader, w: int, h: int) returns (r: Result<Token>)
    requires reader.Valid() && Dims(w, h)
    modifies reader
    ensures reader.Valid() && Yields(r, TokenTextOf(old(reader.Rest()), w, h), reader.Rest())
  {
    ghost var s0 := reader.Rest();
    while true
      invariant reader.Valid() && TokenTextOf(s0, w, h) == TokenTextOf(reader.Rest(), w, h)
      decreases |reader.Rest()|
    {
      ghost var s := reader.Rest();
      var prefix := reader.Get();
      if prefix.None? {
        return Failure(TRUNCATED);
      }
      if prefix.value == '_' {
        var pos := ReadPos(reader, w, h);
        if pos.Failure? {
          return pos.PropagateFailure();
        }
        return Success(Place(pos.value));
      } else if prefix.value == '-' {
        var cmd := reader.Get();
        if cmd == Some('P') {
          return Success(Pass);
        } else if cmd == Some('B') {
          return Success(BeginBranch);
        } else if cmd == Some('R') {
          return Success(Resign);
        } else if cmd == Some('S') {
          r := ReadTextSetup(reader, w, h);
          return;
        } else {
          return Failure(UNKNOWN_CMD);
        }
      } else if prefix.value == '.' {
        return Success(EndBranch);
      }
    }
  }
}
