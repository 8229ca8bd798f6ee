/**
 * The bit streams of the compact record format: a writer that packs
 * values of given widths into the characters of a binary string, least
 * significant bit first, and a reader that takes them out again in the
 * same order.  The program's 32-bit operators on non-negative numbers
 * are written with `Low` (`x & ((1 << k) - 1)`), `Shr` (`x >> k`) and
 * `Shl` (`x << k`, which the program only uses where the result
 * stays below 2^31); `a | b` where the bits of `a` and
 * `b` do not overlap is written `a + b`.
 */
module BitIo {

  /** A character code of a binary string. */
  type Byte = b: int | 0 <= b < 256

  function Pow2(n: nat): (r: nat)
    ensures r >= 1
  {
    if n == 0 then 1 else 2 * Pow2(n - 1)
  }

  /** `x << k`, for results the program keeps below 2^31. */
  function Shl(x: nat, k: nat): nat {
    if k == 0 then x else 2 * Shl(x, k - 1)
  }

  lemma {:induction false} Pow2Monotone(a: nat, b: nat)
    requires a <= b
    ensures Pow2(a) <= Pow2(b)
    decreases b
  {
    if a < b {
      Pow2Monotone(a, b - 1);
    }
  }

  /** `x & ((1 << k) - 1)`: the number held by the low `k` bits of `x`. */
  function Low(x: nat, k: nat): (r: nat)
    ensures r < Pow2(k)
  {
    if k == 0 then 0 else x % 2 + 2 * Low(x / 2, k - 1)
  }

  /** `x >> k`: the number held by the bits of `x` above the low `k`. */
  function Shr(x: nat, k: nat): nat {
    if k == 0 then x else Shr(x / 2, k - 1)
  }

  /** A number is its low bits plus its high bits shifted back up. */
  lemma {:induction false} LowShr(x: nat, k: nat)
    ensures x == Low(x, k) + Shl(Shr(x, k), k)
    decreases k
  {
    if k > 0 {
      LowShr(x / 2, k - 1);
    }
  }

  /** Splitting `lo + (hi << k)`, where `lo` fits in `k` bits, at bit `k` gives back `lo` and `hi`. */
  lemma {:induction false} Decompose(lo: nat, hi: nat, k: nat)
    requires lo < Pow2(k)
    ensures Low(lo + Shl(hi, k), k) == lo && Shr(lo + Shl(hi, k), k) == hi
    decreases k
  {
    if k > 0 {
      var x := lo + Shl(hi, k);
      assert x % 2 == lo % 2 && x / 2 == lo / 2 + Shl(hi, k - 1);
      Decompose(lo / 2, hi, k - 1);
    }
  }

  /** The low bits of a number that fits in them are the number itself. */
  lemma LowOfSmall(x: nat, k: nat)
    requires x < Pow2(k)
    ensures Low(x, k) == x && Shr(x, k) == 0
  {
    Decompose(x, 0, k);
  }

  /** Shifting the low `m` bits down by `k` leaves the low `m - k` bits of the shifted number. */
  lemma {:induction false} ShrLow(x: nat, m: nat, k: nat)
    requires k <= m
    ensures Shr(Low(x, m), k) == Low(Shr(x, k), m - k)
    decreases k
  {
    if k > 0 {
      assert Low(x, m) / 2 == Low(x / 2, m - 1);
      ShrLow(x / 2, m - 1, k - 1);
    }
  }

  // ----- numbers as bit sequences -----

  /** The low `w` bits of `v`, least significant first. */
  function Bits(v: nat, w: nat): (r: seq<bool>)
    ensures |r| == w
  {
    if w == 0 then [] else [v % 2 == 1] + Bits(v / 2, w - 1)
  }

  /** The number whose bits, least significant first, are `bs`. */
  function Value(bs: seq<bool>): (r: nat)
    ensures r < Pow2(|bs|)
  {
    if bs == [] then 0 else (if bs[0] then 1 else 0) + 2 * Value(bs[1..])
  }

  /** The value of the low `w` bits of `v` is `v`'s low part. */
  lemma {:induction false} ValueOfBits(v: nat, w: nat)
    ensures Value(Bits(v, w)) == Low(v, w)
    decreases w
  {
    if w > 0 {
      assert Bits(v, w)[1..] == Bits(v / 2, w - 1);
      ValueOfBits(v / 2, w - 1);
    }
  }

  /** Writing out the value of a bit sequence gives the sequence back. */
  lemma {:induction false} BitsOfValue(bs: seq<bool>)
    ensures Bits(Value(bs), |bs|) == bs
    decreases |bs|
  {
    if bs != [] {
      var v := Value(bs);
      assert v % 2 == (if bs[0] then 1 else 0) && v / 2 == Value(bs[1..]);
      BitsOfValue(bs[1..]);
    }
  }

  /** The low `w` bits of `v` are those of its low part. */
  lemma BitsLow(v: nat, w: nat)
    ensures Bits(Low(v, w), w) == Bits(v, w)
  {
    ValueOfBits(v, w);
    BitsOfValue(Bits(v, w));
  }

  /** The low `a + b` bits are the low `a` bits, then `b` bits of what lies above them. */
  lemma {:induction false} BitsSplit(v: nat, a: nat, b: nat)
    ensures Bits(v, a + b) == Bits(v, a) + Bits(Shr(v, a), b)
    decreases a
  {
    if a > 0 {
      BitsSplit(v / 2, a - 1, b);
    }
  }

  /** The low `w` bits of the low `m` bits are the low `w` bits, when `w <= m`. */
  lemma BitsLowWider(v: nat, w: nat, m: nat)
    requires w <= m
    ensures Bits(Low(v, m), w) == Bits(v, w)
  {
    BitsSplit(Low(v, m), w, m - w);
    BitsSplit(v, w, m - w);
    BitsLow(v, m);
    assert Bits(Low(v, m), w) == Bits(Low(v, m), m)[..w];
  }

  lemma {:induction false} BitsOfZero(w: nat)
    ensures Bits(0, w) == seq(w, _ => false)
    decreases w
  {
    if w > 0 {
      BitsOfZero(w - 1);
    }
  }

  lemma ValueSplit(whole: seq<bool>, a: seq<bool>, b: seq<bool>)
    requires whole == a + b
    ensures Value(whole) == Value(a) + Shl(Value(b), |a|)
  {
    ValueConcat(a, b);
  }

  lemma {:induction false} ValueConcat(a: seq<bool>, b: seq<bool>)
    ensures Value(a + b) == Value(a) + Shl(Value(b), |a|)
    decreases |a|
  {
    if a != [] {
      assert (a + b)[0] == a[0] && (a + b)[1..] == a[1..] + b;
      ValueConcat(a[1..], b);
      assert Shl(Value(b), |a|) == 2 * Shl(Value(b), |a[1..]|);
      assert Value(a + b) == (if a[0] then 1 else 0) + 2 * Value(a[1..] + b);
    } else {
      assert a + b == b;
    }
  }

  /** `lo + (hi << a)`, where `lo` fits in `a` bits, has the bits of `lo` and then those of `hi`, and fits in `a + b` bits when `hi` fits in `b`. */
  lemma Join(lo: nat, hi: nat, a: nat, b: nat)
    requires lo < Pow2(a)
    ensures Bits(lo + Shl(hi, a), a + b) == Bits(lo, a) + Bits(hi, b)
    ensures hi < Pow2(b) ==> lo + Shl(hi, a) < Pow2(a + b)
  {
    var x := lo + Shl(hi, a);
    BitsSplit(x, a, b);
    Decompose(lo, hi, a);
    BitsLow(x, a);
    LowOfSmall(lo, a);
    if hi < Pow2(b) {
      ValueConcat(Bits(lo, a), Bits(hi, b));
      ValueOfBits(lo, a);
      ValueOfBits(hi, b);
      LowOfSmall(hi, b);
    }
  }

  // ----- binary strings as bit sequences -----

  /** The bits of a binary string, each character's eight bits least significant first. */
  function StreamBits(str: seq<Byte>): (r: seq<bool>)
    ensures |r| == 8 * |str|
  {
    if str == [] then [] else StreamBits(str[..|str| - 1]) + Bits(str[|str| - 1], 8)
  }

  /** The character code at `i`; past the end the program's `charCodeAt` gives NaN, which bit operations read as 0. */
  function ByteAt(str: seq<Byte>, i: int): Byte {
    if 0 <= i < |str| then str[i] else 0
  }

  /** Bit `k` of the stream, zero past the end. */
  function BitAt(str: seq<Byte>, k: nat): bool {
    Bits(ByteAt(str, k / 8), 8)[k % 8]
  }

  /** The `w` bits of the stream from bit `p` on. */
  function Window(str: seq<Byte>, p: nat, w: nat): (r: seq<bool>)
    ensures |r| == w
  {
    seq(w, k requires 0 <= k => BitAt(str, p + k))
  }

  /** Inside the string, a stream bit is the bit of its character. */
  lemma {:induction false} StreamBitAt(str: seq<Byte>, k: nat)
    requires k < 8 * |str|
    ensures StreamBits(str)[k] == BitAt(str, k)
    decreases |str|
  {
    var init := str[..|str| - 1];
    if k < 8 * |init| {
      StreamBitAt(init, k);
      assert ByteAt(init, k / 8) == ByteAt(str, k / 8);
    } else {
      assert k / 8 == |str| - 1;
    }
  }

  lemma StreamBitsAppend(str: seq<Byte>, b: Byte)
    ensures StreamBits(str + [b]) == StreamBits(str) + Bits(b, 8)
  {
    assert (str + [b])[..|str|] == str;
  }

  /** `WindowSplit` with the sums named, so that callers need not rewrite them. */
  lemma WindowSplitAt(str: seq<Byte>, p: nat, a: nat, b: nat, q: nat, n: nat)
    requires q == p + a && n == a + b
    ensures Window(str, p, n) == Window(str, p, a) + Window(str, q, b)
  {
    WindowSplit(str, p, a, b);
  }

  lemma WindowSplit(str: seq<Byte>, p: nat, a: nat, b: nat)
    ensures Window(str, p, a + b) == Window(str, p, a) + Window(str, p + a, b)
  {
  }

  /** A window inside character `i` holds the bits of that character shifted down. */
  lemma WindowInByte(str: seq<Byte>, i: nat, lo: nat, w: nat)
    requires lo + w <= 8
    ensures Window(str, 8 * i + lo, w) == Bits(Shr(ByteAt(str, i), lo), w)
  {
    var b := ByteAt(str, i);
    var up := Bits(Shr(b, lo), 8 - lo);
    BitsSplit(b, lo, 8 - lo);
    assert Bits(b, 8) == Bits(b, lo) + up;
    BitsSplit(Shr(b, lo), w, 8 - lo - w);
    assert up == Bits(Shr(b, lo), w) + Bits(Shr(Shr(b, lo), w), 8 - lo - w);
    forall k | 0 <= k < w ensures Window(str, 8 * i + lo, w)[k] == Bits(Shr(b, lo), w)[k] {
      var q := 8 * i + lo + k;
      assert q / 8 == i && q % 8 == lo + k;
      assert Window(str, 8 * i + lo, w)[k] == BitAt(str, q) == Bits(b, 8)[lo + k];
      assert Bits(b, 8)[lo + k] == up[k];
    }
  }

  /** Put8 when the bits fit in the open character: it holds the old bits and then the new ones. */
  lemma FillWithin(b: nat, bi: nat, value: nat, w: nat)
    requires b < Pow2(bi) && bi + w < 8
    ensures var filled := b + Shl(Low(Low(value, w), 8 - bi), bi);
      filled < Pow2(bi + w) && Bits(filled, bi + w) == Bits(b, bi) + Bits(value, w)
  {
    var v := Low(value, w);
    Pow2Monotone(w, 8 - bi);
    LowOfSmall(v, 8 - bi);
    Join(b, v, bi, w);
    BitsLow(value, w);
  }

  /** Put8 when the bits reach the end of the open character: it is completed, and the rest opens the next one. */
  lemma FillAcross(b: nat, bi: nat, value: nat, w: nat, v: nat, filled: int, next: nat)
    requires bi < 8 && b < Pow2(bi) && bi + w >= 8 && w <= 8
    requires v == Low(value, w) && filled == b + Shl(Low(v, 8 - bi), bi) && next == Shr(v, 8 - bi)
    ensures 0 <= filled < 256 && next < Pow2(bi + w - 8)
    ensures Bits(b, bi) + Bits(value, w) == Bits(filled, 8) + Bits(next, bi + w - 8)
  {
    var boundary := 8 - bi;
    var low := Low(v, boundary);
    Join(b, low, bi, boundary);
    Pow2Eight();
    ShrLow(value, w, boundary);
    FillAcrossBits(b, bi, v, value, w);
  }

  lemma FillAcrossBits(b: nat, bi: nat, v: nat, value: nat, w: nat)
    requires bi < 8 && b < Pow2(bi) && bi + w >= 8 && w <= 8 && v == Low(value, w)
    ensures Bits(b, bi) + Bits(value, w) == Bits(b + Shl(Low(v, 8 - bi), bi), 8) + Bits(Shr(v, 8 - bi), bi + w - 8)
  {
    var boundary := 8 - bi;
    var low := Low(v, boundary);
    var rest := bi + w - 8;
    Join(b, low, bi, boundary);
    BitsLow(v, boundary);
    BitsLow(value, w);
    BitsSplit(v, boundary, rest);
    ConcatAssoc(Bits(b, bi), Bits(v, boundary), Bits(Shr(v, boundary), rest),
      Bits(b + Shl(low, bi), 8), Bits(value, w));
  }

  /** Put8's stream when the open character is completed. */
  lemma AppendAcross(str: seq<Byte>, bits: seq<bool>, b: int, bi: int, value: nat, w: nat, v: nat, filled: int, next: nat)
    requires WriterState(bits, str, b, bi) && bi + w >= 8 && w <= 8
    requires v == Low(value, w) && filled == b + Shl(Low(v, 8 - bi), bi) && next == Shr(v, 8 - bi)
    ensures 0 <= filled < 256 && WriterState(bits + Bits(value, w), str + [filled], next, bi + w - 8)
  {
    FillAcross(b, bi, value, w, v, filled, next);
    StreamBitsAppend(str, filled);
    Regroup(StreamBits(str), Bits(b, bi), Bits(value, w), Bits(filled, 8), Bits(next, bi + w - 8), StreamBits(str + [filled]));
  }

  /** Put8's stream when the open character still has room. */
  lemma AppendWithin(str: seq<Byte>, bits: seq<bool>, b: int, bi: int, value: nat, w: nat, filled: int)
    requires WriterState(bits, str, b, bi) && bi + w < 8
    requires filled == b + Shl(Low(Low(value, w), 8 - bi), bi)
    ensures WriterState(bits + Bits(value, w), str, filled, bi + w)
  {
    FillWithin(b, bi, value, w);
    ConcatAssoc(StreamBits(str), Bits(b, bi), Bits(value, w), bits, Bits(filled, bi + w));
  }

  lemma Regroup<T>(s: seq<T>, b: seq<T>, v: seq<T>, f: seq<T>, r: seq<T>, sf: seq<T>)
    requires b + v == f + r && sf == s + f
    ensures (s + b) + v == sf + r
  {
    assert (s + b) + v == s + (b + v);
  }

  lemma ConcatAssoc<T>(x: seq<T>, y: seq<T>, z: seq<T>, xy: seq<T>, yz: seq<T>)
    requires xy == x + y && yz == y + z
    ensures x + yz == xy + z
  {
  }

  lemma Pow2Eight()
    ensures Pow2(8) == 256
  {
  }

  /** Get8 inside character `i`. */
  lemma ReadWithin(str: seq<Byte>, i: nat, bi: nat, w: nat)
    requires bi + w < 8
    ensures Low(Shr(ByteAt(str, i), bi), w) == Value(Window(str, 8 * i + bi, w))
  {
    WindowInByte(str, i, bi, w);
    ValueOfBits(Shr(ByteAt(str, i), bi), w);
  }

  /** Get8 across the end of character `i`: its top bits, then the low bits of the next one. */
  lemma ReadAcross(str: seq<Byte>, i: nat, bi: nat, w: nat)
    requires bi < 8 && bi + w >= 8 && w <= 8
    ensures Low(Shr(ByteAt(str, i), bi), w) + Shl(Low(ByteAt(str, i + 1), bi + w - 8), 8 - bi)
         == Value(Window(str, 8 * i + bi, w))
  {
    WindowAcross(str, i, bi, w);
    LowOfSmall(Shr(ByteAt(str, i), bi), w);
  }

  /** The bits from `bi` in character `i` on, `w` of them reaching into character `i + 1`, as a number. */
  lemma WindowAcross(str: seq<Byte>, i: nat, bi: nat, w: nat)
    requires bi < 8 && bi + w >= 8 && w <= 8
    ensures Shr(ByteAt(str, i), bi) < Pow2(w)
    ensures Value(Window(str, 8 * i + bi, w))
         == Shr(ByteAt(str, i), bi) + Shl(Low(ByteAt(str, i + 1), bi + w - 8), 8 - bi)
  {
    var boundary := 8 - bi;
    var rest := bi + w - 8;
    var top := Shr(ByteAt(str, i), bi);
    TopBitsSmall(ByteAt(str, i), bi);
    Pow2Monotone(boundary, w);
    WindowValueInByte(str, i, bi, boundary);
    LowOfSmall(top, boundary);
    WindowValueAtByte(str, 8 * (i + 1), i + 1, rest);
    WindowValueSplit(str, 8 * i + bi, boundary, rest, w, 8 * (i + 1), top, Low(ByteAt(str, i + 1), rest));
  }

  /** A byte shifted down by `k` fits in its top `8 - k` bits. */
  lemma TopBitsSmall(b: Byte, k: nat)
    requires k <= 8
    ensures Shr(b, k) < Pow2(8 - k)
  {
    Pow2Eight();
    LowOfSmall(b, 8);
    ShrLow(b, 8, k);
  }

  /** A window of `a + b` bits is worth its first `a` bits plus the next `b` shifted up by `a`. */
  lemma WindowValueSplit(str: seq<Byte>, p: nat, a: nat, b: nat, n: nat, q: nat, x: nat, y: nat)
    requires n == a + b && q == p + a
    requires Value(Window(str, p, a)) == x && Value(Window(str, q, b)) == y
    ensures Value(Window(str, p, n)) == x + Shl(y, a)
  {
    WindowSplit(str, p, a, b);
    ValueSplit(Window(str, p, n), Window(str, p, a), Window(str, q, b));
  }

  /** `w` bits from bit `lo` of character `i` are worth the character shifted down by `lo`, cut to `w` bits. */
  lemma WindowValueInByte(str: seq<Byte>, i: nat, lo: nat, w: nat)
    requires lo + w <= 8
    ensures Value(Window(str, 8 * i + lo, w)) == Low(Shr(ByteAt(str, i), lo), w)
  {
    WindowInByte(str, i, lo, w);
    ValueOfBits(Shr(ByteAt(str, i), lo), w);
  }

  /** The first `w` bits of character `i`, which starts at bit `q`, are worth its low `w` bits. */
  lemma WindowValueAtByte(str: seq<Byte>, q: nat, i: nat, w: nat)
    requires q == 8 * i && w <= 8
    ensures Value(Window(str, q, w)) == Low(ByteAt(str, i), w)
  {
    WindowInByte(str, i, 0, w);
    assert q + 0 == q && Shr(ByteAt(str, i), 0) == ByteAt(str, i);
    ValueOfBits(ByteAt(str, i), w);
  }

  /** One round of Put on an `m`-bit value: the low eight bits go first, the value shifted down by eight follows. */
  lemma PutStep(v: nat, m: nat, width: nat)
    requires width > 8 && m >= 8
    ensures Bits(Low(v, m), width) == Bits(Low(v, 8), 8) + Bits(Low(Shr(Low(v, m), 8), m), width - 8)
  {
    var rest := Shr(Low(v, m), 8);
    BitsSplit(Low(v, m), 8, width - 8);
    BitsLowWider(v, 8, m);
    BitsLow(v, 8);
    ShrLow(v, m, 8);
    Pow2Monotone(m - 8, m);
    LowOfSmall(rest, m);
  }

  /** One round of Get: the value read so far, then the next part above it. */
  lemma ReadStep(str: seq<Byte>, p: nat, pos: nat, w: nat)
    ensures Value(Window(str, p, pos + w)) == Value(Window(str, p, pos)) + Shl(Value(Window(str, p + pos, w)), pos)
  {
    WindowSplit(str, p, pos, w);
    ValueConcat(Window(str, p, pos), Window(str, p + pos, w));
  }

  // ----- the writer -----

  /** `bits` are the finished characters `str` and then the `bitIndex` low bits of the open character `byte`. */
  ghost predicate WriterState(bits: seq<bool>, str: seq<Byte>, byte: int, bitIndex: int) {
    0 <= bitIndex < 8 && 0 <= byte < Pow2(bitIndex) && bits == StreamBits(str) + Bits(byte, bitIndex)
  }

  /** The program's BitWriter: finished characters, and the bits of a character not yet complete. */
  class BitWriter {
    var str: seq<Byte>
    var byte: int
    var bitIndex: int
    /** Every bit written since the last flush, in order. */
    ghost var bits: seq<bool>

    ghost predicate Valid()
      reads this
    {
      WriterState(bits, str, byte, bitIndex)
    }

    constructor()
      ensures Valid() && bits == []
    {
      str := [];
      byte := 0;
      bitIndex := 0;
      bits := [];
    }

    /** Appends the low `bitWidth` (at most eight) bits of `value`. */
    method Put8(value: nat, bitWidth: nat)
      requires Valid() && bitWidth <= 8
      modifies this
      ensures Valid() && bits == old(bits) + Bits(value, bitWidth)
    {
      var v := Low(value, bitWidth);
      var boundary := 8 - bitIndex;
      var filled := byte + Shl(Low(v, boundary), bitIndex);
      ghost var target := bits + Bits(value, bitWidth);
      if bitIndex + bitWidth >= 8 {
        var next := Shr(v, boundary);
        var nextIndex := bitIndex + bitWidth - 8;
        AppendAcross(str, bits, byte, bitIndex, value, bitWidth, v, filled, next);
        str, byte, bitIndex := str + [filled], next, nextIndex;
      } else {
        var nextIndex := bitIndex + bitWidth;
        AppendWithin(str, bits, byte, bitIndex, value, bitWidth, filled);
        byte, bitIndex := filled, nextIndex;
      }
      bits := target;
    }

    /**
     * Appends the low `bitWidth` bits of `value`, eight at a time; the
     * unsigned shift `>>>` wraps to 32 bits, so past bit 32 only zeros
     * are written.
     */
    method Put(value: nat, bitWidth: nat)
      requires Valid()
      modifies this
      ensures Valid() && bits == old(bits) + Bits(Low(value, 32), bitWidth)
    {
      var v := value;
      var width := bitWidth;
      while width > 8
        invariant Valid() && bits + Bits(Low(v, 32), width) == old(bits) + Bits(Low(value, 32), bitWidth)
        decreases width
      {
        var rest := Shr(Low(v, 32), 8);
        PutStep(v, 32, width);
        ghost var before := bits;
        Put8(Low(v, 8), 8);
        ConcatAssoc(before, Bits(Low(v, 8), 8), Bits(Low(rest, 32), width - 8), bits, Bits(Low(v, 32), width));
        v := rest;
        width := width - 8;
      }
      BitsLowWider(v, width, 32);
      Put8(v, width);
    }

    /**
     * Completes the last character with zero bits and returns every
     * character written since the last flush; the writer starts over
     * empty.
     */
    method Flush() returns (result: seq<Byte>)
      requires Valid()
      modifies this
      ensures Valid() && bits == [] && str == []
      ensures |result| == (|old(bits)| + 7) / 8
      ensures StreamBits(result) == old(bits) + seq(8 * |result| - |old(bits)|, _ => false)
    {
      if bitIndex > 0 {
        ghost var rest := 8 - bitIndex;
        BitsSplit(byte, bitIndex, rest);
        LowOfSmall(byte, bitIndex);
        BitsOfZero(rest);
        Pow2Monotone(bitIndex, 8);
        assert Pow2(8) == 256;
        StreamBitsAppend(str, byte);
        str := str + [byte];
        byte := 0;
        bitIndex := 0;
      }
      result := str;
      str := [];
      bits := [];
    }
  }

  // ----- the reader -----

  /** The program's BitReader over a binary string, from character `strIndex` on. */
  class BitReader {
    const str: seq<Byte>
    var strIndex: int
    var byte: int
    var bitIndex: int

    ghost predicate Valid()
      reads this
    {
      1 <= strIndex && byte == ByteAt(str, strIndex - 1) && 0 <= bitIndex < 8
    }

    /** The number of the next bit of the stream to read. */
    ghost function Position(): nat
      reads this
      requires Valid()
    {
      8 * (strIndex - 1) + bitIndex
    }

    constructor(str: seq<Byte>, strIndex: nat)
      ensures Valid() && this.str == str && Position() == 8 * strIndex
    {
      this.str := str;
      this.byte := ByteAt(str, strIndex);
      this.strIndex := strIndex + 1;
      this.bitIndex := 0;
    }

    /** Takes the next `bitWidth` (at most eight) bits. */
    method Get8(bitWidth: nat) returns (value: nat)
      requires Valid() && bitWidth <= 8
      modifies this
      ensures Valid() && Position() == old(Position()) + bitWidth
      ensures value == Value(Window(str, old(Position()), bitWidth))
    {
      ghost var p := Position();
      var boundary := 8 - bitIndex;
      value := Low(Shr(byte, bitIndex), bitWidth);
      if bitIndex + bitWidth >= 8 {
        var next := ByteAt(str, strIndex);
        var nextIndex := bitIndex + bitWidth - 8;
        ReadAcross(str, strIndex - 1, bitIndex, bitWidth);
        value := value + Shl(Low(next, nextIndex), boundary);
        assert value == Value(Window(str, p, bitWidth));
        byte, strIndex, bitIndex := next, strIndex + 1, nextIndex;
      } else {
        ReadWithin(str, strIndex - 1, bitIndex, bitWidth);
        assert value == Value(Window(str, p, bitWidth));
        bitIndex := bitIndex + bitWidth;
      }
    }

    /** Takes the next `bitWidth` bits, eight at a time, least significant first. */
    method Get(bitWidth: nat) returns (value: nat)
      requires Valid() && bitWidth <= 31
      modifies this
      ensures Valid() && Position() == old(Position()) + bitWidth
      ensures value == Value(Window(str, old(Position()), bitWidth))
    {
      if bitWidth <= 8 {
        value := Get8(bitWidth);
      } else {
        ghost var p := Position();
        var pos := 0;
        value := 0;
        var width := bitWidth;
        while width > 8
          invariant Valid() && 0 <= pos && pos + width == bitWidth && Position() == p + pos
          invariant value == Value(Window(str, p, pos))
          decreases width
        {
          var part := Get8(8);
          ReadStep(str, p, pos, 8);
          value := value + Shl(part, pos);
          pos := pos + 8;
          width := width - 8;
        }
        var part := Get8(width);
        ReadStep(str, p, pos, width);
        value := value + Shl(part, pos);
      }
    }
  }

  // ----- reading back what was written -----

  /**
   * Reading the flushed characters of a writer at bit `p` gives back the
   * value written there, cut to its width.
   */
  lemma ReadWhatWasWritten(str: seq<Byte>, bits: seq<bool>, p: nat, v: nat, w: nat)
    requires |bits| <= |StreamBits(str)| && StreamBits(str)[..|bits|] == bits
    requires p + w <= |bits| && bits[p..p + w] == Bits(v, w)
    ensures Value(Window(str, p, w)) == Low(v, w)
  {
    forall k | 0 <= k < w ensures Window(str, p, w)[k] == Bits(v, w)[k] {
      StreamBitAt(str, p + k);
      assert bits[p + k] == bits[p..p + w][k];
    }
    assert Window(str, p, w) == Bits(v, w);
    ValueOfBits(v, w);
  }

  /** The bits of a sequence of writes of `vs[i]` in width `ws[i]`. */
  function Written(vs: seq<nat>, ws: seq<nat>): seq<bool>
    requires |vs| == |ws|
  {
    if vs == [] then [] else Written(vs[..|vs| - 1], ws[..|ws| - 1]) + Bits(Low(vs[|vs| - 1], 32), ws[|ws| - 1])
  }

  /** The bit where write `k` starts. */
  function Offset(ws: seq<nat>, k: nat): nat
    requires k <= |ws|
  {
    if k == 0 then 0 else Offset(ws, k - 1) + ws[k - 1]
  }

  /** Write `k` of a sequence sits at its offset. */
  lemma {:induction false} WrittenAt(vs: seq<nat>, ws: seq<nat>, k: nat)
    requires |vs| == |ws| && k < |vs|
    ensures Written(vs[..k + 1], ws[..k + 1]) == Written(vs[..k], ws[..k]) + Bits(Low(vs[k], 32), ws[k])
    ensures |Written(vs[..k], ws[..k])| == Offset(ws, k)
    decreases k
  {
    assert vs[..k + 1][..k] == vs[..k] && ws[..k + 1][..k] == ws[..k];
    if k > 0 {
      WrittenAt(vs, ws, k - 1);
    }
  }

  /** A written prefix stays a prefix of the whole. */
  lemma {:induction false} WrittenPrefix(vs: seq<nat>, ws: seq<nat>, k: nat)
    requires |vs| == |ws| && k <= |vs|
    ensures |Written(vs[..k], ws[..k])| <= |Written(vs, ws)|
    ensures Written(vs, ws)[..|Written(vs[..k], ws[..k])|] == Written(vs[..k], ws[..k])
    decreases |vs| - k
  {
    if k < |vs| {
      WrittenPrefix(vs, ws, k + 1);
      WrittenAt(vs, ws, k);
    } else {
      assert vs[..k] == vs && ws[..k] == ws;
    }
  }

  /**
   * Round trip: a reader over the flushed output of a writer that wrote
   * `vs` in widths `ws` (each at most 31) reads `vs[k]`, cut to
   * `ws[k]` bits, at the offset of write `k`.
   */
  lemma WriteThenRead(vs: seq<nat>, ws: seq<nat>, str: seq<Byte>, k: nat)
    requires |vs| == |ws| && k < |vs| && ws[k] <= 31
    requires |Written(vs, ws)| <= |StreamBits(str)| && StreamBits(str)[..|Written(vs, ws)|] == Written(vs, ws)
    ensures Value(Window(str, Offset(ws, k), ws[k])) == Low(vs[k], ws[k])
  {
    var all := Written(vs, ws);
    var upTo := Written(vs[..k + 1], ws[..k + 1]);
    WrittenAt(vs, ws, k);
    WrittenPrefix(vs, ws, k + 1);
    var o := Offset(ws, k);
    assert all[o..o + ws[k]] == upTo[o..o + ws[k]];
    assert upTo[o..o + ws[k]] == Bits(Low(vs[k], 32), ws[k]);
    BitsLowWider(vs[k], ws[k], 32);
    ReadWhatWasWritten(str, all, o, Low(vs[k], 32), ws[k]);
    ValueOfBits(Low(vs[k], 32), ws[k]);
    BitsLowWider(vs[k], ws[k], 32);
    ValueOfBits(vs[k], ws[k]);
    BitsLow(vs[k], ws[k]);
  }
}
