/**
 * The program's BoardStringizer: the intersections of a board as text.
 * The packed form puts twenty intersections in each 32-bit word, as the
 * base-3 number whose digits, least significant first, are their states
 * (3^20 < 2^32); each word becomes four characters, low byte first, and
 * the whole string goes through the URL-safe base 64 wrapper.  The
 * human-readable form is one character of ".xo" per intersection.
 */
module BoardStringizer {
  import opened Stones
  import opened Wrappers
  import opened Geometry
  import opened Rules
  import opened Boards
  import opened BitIo
  import opened Base64
  import Seqs

  /** Every cell holds one of the three states. */
  predicate States(c: seq<int>) {
    forall p :: 0 <= p < |c| ==> IsState(c[p])
  }

  function Pow3(n: nat): (r: nat)
    ensures r >= 1
  {
    if n == 0 then 1 else 3 * Pow3(n - 1)
  }

  /** The number whose base-3 digits, least significant first, are `g`. */
  function Horner(g: seq<int>): (r: nat)
    requires States(g)
    ensures r < Pow3(|g|)
  {
    if g == [] then 0 else g[0] + 3 * Horner(g[1..])
  }

  /** The `n` lowest base-3 digits of `dw`, least significant first. */
  function Digits3(dw: nat, n: nat): (r: seq<int>)
    ensures |r| == n && States(r)
  {
    if n == 0 then [] else [dw % 3] + Digits3(dw / 3, n - 1)
  }

  /** The four bytes of a 32-bit word, low byte first (`dw & 255`, `(dw >>> 8) & 255`, ...). */
  function LittleEndian(dw: nat): (r: seq<Byte>)
    ensures |r| == 4
  {
    [dw % 256, dw / 256 % 256, dw / 65536 % 256, dw / 16777216 % 256]
  }

  /** The number held by bytes, low byte first. */
  function LittleEndianValue(b: seq<Byte>): nat {
    if b == [] then 0 else b[0] + 256 * LittleEndianValue(b[1..])
  }

  function Min(a: int, b: int): int {
    if a < b then a else b
  }

  /** The bytes `to20Per32bits` encodes: four per group of twenty intersections, the last group possibly shorter. */
  function Pack(c: seq<int>): (r: seq<Byte>)
    requires States(c)
    decreases |c|
  {
    if c == [] then [] else
      var n := Min(20, |c|);
      LittleEndian(Horner(c[..n])) + Pack(c[n..])
  }

  /** The intersections `from20Per32bits` decodes: twenty per group of four bytes, a short last group read as zeros. */
  function Unpack(str: seq<Byte>): (r: seq<int>)
    decreases |str|
  {
    if str == [] then [] else
      var n := Min(4, |str|);
      Digits3(LittleEndianValue(str[..n]), 20) + Unpack(str[n..])
  }

  lemma {:induction false} Pow3Add(a: nat, b: nat)
    ensures Pow3(a + b) == Pow3(a) * Pow3(b)
    decreases a
  {
    if a > 0 {
      Pow3Add(a - 1, b);
    }
  }

  /** 3^20 = 0xcfd41b91 fits in 32 bits. */
  lemma Pow3Bound()
    ensures Pow3(20) < 4294967296
  {
    assert Pow3(5) == 243;
    Pow3Add(5, 5);
    Pow3Add(10, 10);
  }

  /** Four bytes, low byte first. */
  lemma FourBytes(b: seq<Byte>)
    requires |b| == 4
    ensures LittleEndianValue(b) == b[0] as int + 256 * b[1] as int + 65536 * b[2] as int + 16777216 * b[3] as int
  {
    assert b[1..][1..][1..][1..] == [];
    assert LittleEndianValue(b[1..][1..][1..]) == b[3] as int;
    assert LittleEndianValue(b[1..][1..]) == b[2] as int + 256 * b[3] as int;
    assert LittleEndianValue(b[1..]) == b[1] as int + 256 * b[2] as int + 65536 * b[3] as int;
  }

  lemma LittleEndianRoundTrip(dw: nat)
    requires dw < 4294967296
    ensures LittleEndianValue(LittleEndian(dw)) == dw
  {
    FourBytes(LittleEndian(dw));
    var q1, q2, q3 := dw / 256, dw / 65536, dw / 16777216;
    assert q2 == q1 / 256 && q3 == q2 / 256 && q3 < 256;
    assert dw == dw % 256 + 256 * q1;
    assert q1 == q1 % 256 + 256 * q2;
    assert q2 == q2 % 256 + 256 * q3;
  }

  /** Reading the digits of a number written from digits gives the digits back, then zeros. */
  lemma {:induction false} DigitsOfHorner(g: seq<int>, n: nat)
    requires States(g) && |g| <= n
    ensures Digits3(Horner(g), n) == g + Empties(n - |g|)
    decreases n
  {
    if n > 0 {
      if g == [] {
        DigitsOfHorner([], n - 1);
      } else {
        DigitsOfHorner(g[1..], n - 1);
        assert g == [g[0]] + g[1..];
      }
    }
  }

  /** One group: its four bytes decode to its digits, then zeros. */
  lemma GroupRoundTrip(g: seq<int>)
    requires States(g) && |g| <= 20
    ensures Digits3(LittleEndianValue(LittleEndian(Horner(g))), 20) == g + Empties(20 - |g|)
  {
    Pow3Bound();
    Pow3Monotone(|g|, 20);
    LittleEndianRoundTrip(Horner(g));
    DigitsOfHorner(g, 20);
  }

  /** The first four bytes decode to one group of twenty. */
  lemma UnpackFront(word: seq<Byte>, rest: seq<Byte>)
    requires |word| == 4
    ensures Unpack(word + rest) == Digits3(LittleEndianValue(word), 20) + Unpack(rest)
  {
    var str := word + rest;
    assert str[..4] == word && str[4..] == rest;
  }

  /** `n` EMPTY intersections. */
  function Empties(n: nat): (r: seq<int>)
    ensures |r| == n
  {
    seq(n, _ => EMPTY)
  }

  /** The number of EMPTY cells decoding adds after `n` intersections. */
  function Padding(n: nat): nat {
    (20 - n % 20) % 20
  }

  lemma PaddingSmall(n: nat)
    requires 1 <= n <= 20
    ensures Padding(n) == 20 - n
  {
    if n < 20 {
      assert n % 20 == n;
    }
  }

  lemma PaddingShift(n: nat)
    requires n >= 20
    ensures Padding(n) == Padding(n - 20)
  {
    assert n % 20 == (n - 20) % 20 by {
      var q := (n - 20) / 20;
      assert n - 20 == 20 * q + (n - 20) % 20;
      assert n == 20 * (q + 1) + (n - 20) % 20;
    }
  }

  /** Decoding the packed bytes gives back the intersections, then EMPTY up to a multiple of twenty. */
  lemma {:induction false} UnpackPack(c: seq<int>)
    requires States(c)
    ensures Unpack(Pack(c)) == c + Empties(Padding(|c|))
    decreases |c|
  {
    if c != [] {
      var n := Min(20, |c|);
      var g := c[..n];
      var word := LittleEndian(Horner(g));
      var rest := c[n..];
      assert Pack(c) == word + Pack(rest);
      UnpackFront(word, Pack(rest));
      GroupRoundTrip(g);
      UnpackPack(rest);
      var digits := Digits3(LittleEndianValue(word), 20);
      assert Unpack(Pack(c)) == digits + Unpack(Pack(rest));
      if |c| > 20 {
        assert digits == g;
        PaddingShift(|c|);
        ConcatAssoc(g, rest, Empties(Padding(|c|)), c, Unpack(Pack(rest)));
      } else {
        assert rest == [] && g == c;
        assert Unpack(Pack(rest)) == [];
        PaddingSmall(|c|);
        assert digits + [] == c + Empties(Padding(|c|));
      }
    }
  }

  lemma {:induction false} Pow3Monotone(a: nat, b: nat)
    requires a <= b
    ensures Pow3(a) <= Pow3(b)
    decreases b
  {
    if a < b {
      Pow3Monotone(a, b - 1);
    }
  }

  /** The word of the group of `n` intersections from `pos`, built from its last digit down. */
  method GroupWord(board: Board, pos: int, n: int) returns (dw: nat)
    requires board.Valid() && 0 <= pos && 0 <= n && pos + n <= |board.cells|
    ensures dw == Horner(board.cells[pos..pos + n])
  {
    ghost var c := board.cells;
    dw := 0;
    var i := n - 1;
    while i >= 0
      invariant -1 <= i < n && dw == Horner(c[pos + i + 1..pos + n])
      decreases i
    {
      assert c[pos + i..pos + n] == [c[pos + i]] + c[pos + i + 1..pos + n];
      dw := dw * 3 + board.GetAt(pos + i);
      i := i - 1;
    }
  }

  /** `to20Per32bits`: the packed, URL-safe base 64 text of the board's intersections. */
  method To20Per32Bits(board: Board) returns (s: string)
    requires board.Valid()
    ensures s == BtoaSafe(Pack(board.cells))
  {
    ghost var c := board.cells;
    assert States(c);
    var size := board.GetIntersectionCount();
    var str: seq<Byte> := [];
    var pos := 0;
    while pos < size
      invariant 0 <= pos <= size && str + Pack(c[pos..]) == Pack(c)
      decreases size - pos
    {
      var n := Min(20, size - pos);
      var dw := GroupWord(board, pos, n);
      PackStep(c, pos, n);
      ConcatAssoc(str, LittleEndian(dw), Pack(c[pos + n..]), str + LittleEndian(dw), Pack(c[pos..]));
      str := str + LittleEndian(dw);
      pos := pos + n;
    }
    assert c[pos..] == [] && Pack(c[pos..]) == [];
    assert str == Pack(c);
    s := BtoaSafe(str);
  }

  lemma PackStep(c: seq<int>, pos: nat, n: nat)
    requires States(c) && pos < |c| && n == Min(20, |c| - pos)
    ensures Pack(c[pos..]) == LittleEndian(Horner(c[pos..pos + n])) + Pack(c[pos + n..])
  {
    assert c[pos..][..n] == c[pos..pos + n] && c[pos..][n..] == c[pos + n..];
  }

  lemma UnpackStep(str: seq<Byte>, si: nat, n: nat)
    requires si < |str| && n == Min(4, |str| - si)
    ensures Unpack(str[si..]) == Digits3(LittleEndianValue(str[si..si + n]), 20) + Unpack(str[si + n..])
  {
    assert str[si..][..n] == str[si..si + n] && str[si..][n..] == str[si + n..];
  }

  /** The byte at `i`, or 0 past the end. */
  function ByteOr0(str: seq<Byte>, i: int): int {
    if 0 <= i < |str| then str[i] else 0
  }

  /** The bytes from `si` on, as `from20Per32bits` adds them up: missing bytes count as zero. */
  lemma {:induction false} WordAt(str: seq<Byte>, si: nat)
    requires si <= |str|
    ensures LittleEndianValue(str[si..si + Min(4, |str| - si)])
         == ByteOr0(str, si) + 256 * ByteOr0(str, si + 1) + 65536 * ByteOr0(str, si + 2) + 16777216 * ByteOr0(str, si + 3)
    decreases |str| - si
  {
    var n := Min(4, |str| - si);
    var b := str[si..si + n];
    if n == 4 {
      FourBytes(b);
    } else if n > 0 {
      assert b[1..] == str[si + 1..si + 1 + Min(4, |str| - (si + 1))];
      WordAt(str, si + 1);
    }
  }

  /** One base-3 digit taken off the front of `Digits3(dw, n)` and moved onto `r`. */
  lemma DigitsStep(r: seq<int>, dw: nat, n: nat)
    requires n > 0
    ensures r + Digits3(dw, n) == (r + [dw % 3]) + Digits3(dw / 3, n - 1)
  {
    Seqs.ConcatAssoc(r, [dw % 3], Digits3(dw / 3, n - 1));
  }

  /** The twenty digits of a word, appended one at a time. */
  method AppendDigits(intersections: seq<int>, word: nat) returns (r: seq<int>)
    ensures r == intersections + Digits3(word, 20)
  {
    r := intersections;
    var dw: nat := word;
    var left: nat := 20;
    ghost var goal := intersections + Digits3(word, 20);
    while left > 0
      invariant r + Digits3(dw, left) == goal
    {
      DigitsStep(r, dw, left);
      r := r + [dw % 3];
      dw := dw / 3;
      left := left - 1;
    }
    assert r + Digits3(dw, 0) == r + [] == r;
  }

  /** `from20Per32bits`: the intersections packed in a URL-safe base 64 text, or the decoder's error. */
  method From20Per32Bits(b64str: string) returns (r: Result<seq<int>>)
    ensures r == match AtobSafe(b64str)
      case Success(str) => Success(Unpack(str))
      case Failure(e) => Failure(e)
  {
    var decoded := AtobSafe(b64str);
    if decoded.Failure? {
      return Failure(decoded.error);
    }
    var str := decoded.value;
    var intersections: seq<int> := [];
    var si := 0;
    while si < |str|
      invariant 0 <= si <= |str| && intersections + Unpack(str[si..]) == Unpack(str)
      decreases |str| - si
    {
      var dw := ByteOr0(str, si) + 256 * ByteOr0(str, si + 1) + 65536 * ByteOr0(str, si + 2) + 16777216 * ByteOr0(str, si + 3);
      var n := Min(4, |str| - si);
      WordAt(str, si);
      UnpackStep(str, si, n);
      ghost var digits := Digits3(dw, 20);
      ConcatAssoc(intersections, digits, Unpack(str[si + n..]), intersections + digits, Unpack(str[si..]));
      intersections := AppendDigits(intersections, dw);
      si := si + n;
    }
    assert str[si..] == [] && intersections == Unpack(str);
    r := Success(intersections);
  }

  /** Packing then unpacking, across the base 64 text, gives the intersections back (then EMPTY up to a multiple of twenty). */
  lemma PackedRoundTrip(c: seq<int>)
    requires States(c)
    ensures AtobSafe(BtoaSafe(Pack(c))) == Success(Pack(c))
    ensures Unpack(Pack(c)) == c + Empties(Padding(|c|))
  {
    AtobSafeBtoaSafe(Pack(c));
    UnpackPack(c);
  }

  // ----- the human-readable form -----

  /** The mark of a state in ".xo". */
  function Mark(s: int): char
    requires IsState(s)
  {
    if s == EMPTY then '.' else if s == BLACK then 'x' else 'o'
  }

  /** The state of a mark; any other character reads as EMPTY. */
  function StateOfMark(ch: char): (s: int)
    ensures IsState(s)
  {
    if ch == 'x' then BLACK else if ch == 'o' then WHITE else EMPTY
  }

  lemma MarkRoundTrip(s: int)
    requires IsState(s)
    ensures StateOfMark(Mark(s)) == s
  {
  }

  /** `toHumanReadable`: one mark per intersection, in position order. */
  method ToHumanReadable(board: Board) returns (s: string)
    requires board.Valid()
    ensures |s| == |board.cells| && forall p :: 0 <= p < |s| ==> s[p] == Mark(board.cells[p])
  {
    var size := board.GetIntersectionCount();
    s := "";
    var pos := 0;
    while pos < size
      invariant 0 <= pos <= size && |s| == pos && forall p :: 0 <= p < pos ==> s[p] == Mark(board.cells[p])
      decreases size - pos
    {
      s := s + [Mark(board.GetAt(pos))];
      pos := pos + 1;
    }
  }

  /** `fromHumanReadable`: one state per character. */
  method FromHumanReadable(str: string) returns (r: seq<int>)
    ensures |r| == |str| && forall p :: 0 <= p < |r| ==> r[p] == StateOfMark(str[p])
  {
    r := [];
    var pos := 0;
    while pos < |str|
      invariant 0 <= pos <= |str| && |r| == pos && forall p :: 0 <= p < pos ==> r[p] == StateOfMark(str[p])
      decreases |str| - pos
    {
      r := r + [StateOfMark(str[pos])];
      pos := pos + 1;
    }
  }

  /** The human-readable text of a board reads back as its intersections. */
  lemma HumanReadableRoundTrip(c: seq<int>, s: string)
    requires States(c) && |s| == |c| && forall p :: 0 <= p < |s| ==> s[p] == Mark(c[p])
    ensures forall p :: 0 <= p < |c| ==> StateOfMark(s[p]) == c[p]
  {
    forall p | 0 <= p < |c| ensures StateOfMark(s[p]) == c[p] {
      MarkRoundTrip(c[p]);
    }
  }

  /** Reading text back out marks every character again exactly when it is one of ".xo". */
  lemma MarksRoundTrip(s: string)
    ensures (forall p :: 0 <= p < |s| ==> Mark(StateOfMark(s[p])) == s[p]) <==> (forall p :: 0 <= p < |s| ==> s[p] in ".xo")
  {
  }
}
