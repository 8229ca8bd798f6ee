/**
 * The packed board store: every intersection takes two bits of an array of
 * 32-bit words, cell `pos` living in word `pos / 16` at bit offset
 * `2 * (pos % 16)` (the program computes the same numbers as
 * `(pos << 1) >> 5` and `(pos << 1) & 31`).
 */
module Array2Bits {

  /** Words needed for `n` cells: ceil(2n / 32). */
  function WordCount(n: nat): nat {
    (2 * n + 31) / 32
  }

  lemma WordCountFits(n: nat, pos: nat)
    requires pos < n
    ensures pos / 16 < WordCount(n)
  {
  }

  /** The words of a store of `n` cells hold at least `n` cells. */
  lemma WordCountCovers(n: nat)
    ensures n <= 16 * WordCount(n)
  {
  }

  /** Bit offset of a cell inside its word. */
  function Shift(pos: nat): bv5 {
    ((pos % 16) as bv5) << 1
  }

  function GetWord(word: bv32, k: bv5): bv32 {
    (word >> k) & 3
  }

  function SetWord(word: bv32, k: bv5, state: bv32): bv32 {
    (word & !(3 << k)) | ((state & 3) << k)
  }

  /** The state stored for cell `pos`. */
  function Get(bits: seq<bv32>, pos: nat): (s: int)
    requires pos / 16 < |bits|
    ensures 0 <= s < 4
  {
    GetWord(bits[pos / 16], Shift(pos)) as int
  }

  /**
   * The words after storing `state & 3` for cell `pos`.  For every integer
   * `state`, `state & 3` of a two's-complement value equals Dafny's
   * Euclidean `state % 4`.
   */
  function Put(bits: seq<bv32>, pos: nat, state: int): (r: seq<bv32>)
    requires pos / 16 < |bits|
    ensures |r| == |bits|
  {
    bits[pos / 16 := SetWord(bits[pos / 16], Shift(pos), (state % 4) as bv32)]
  }

  /**
   * `cells` lists the states the words hold for the first `|cells|` cells,
   * in position order.  A fact about one cell is drawn out only where that
   * cell is read.
   */
  ghost predicate Holds(bits: seq<bv32>, cells: seq<int>) {
    && |cells| <= 16 * |bits|
    && forall p {:trigger Get(bits, p)} :: 0 <= p < |cells| ==> cells[p] == Get(bits, p)
  }

  lemma GetWordSetWordSame(word: bv32, k: bv5, state: bv32)
    requires k % 2 == 0
    ensures GetWord(SetWord(word, k, state), k) == state & 3
  {
  }

  lemma GetWordSetWordOther(word: bv32, k: bv5, j: bv5, state: bv32)
    requires k % 2 == 0 && j % 2 == 0 && j != k
    ensures GetWord(SetWord(word, k, state), j) == GetWord(word, j)
  {
  }

  lemma SetWordGetWord(word: bv32, k: bv5, state: bv32)
    requires k % 2 == 0
    ensures SetWord(SetWord(word, k, state), k, GetWord(word, k)) == word
  {
  }

  lemma ShiftIsEven(pos: nat)
    ensures Shift(pos) % 2 == 0
  {
  }

  lemma ShiftsDiffer(p: nat, q: nat)
    requires p / 16 == q / 16 && p != q
    ensures Shift(p) != Shift(q)
  {
    assert p % 16 != q % 16;
  }

  /** Storing a state and reading it back yields `state & 3`; every other cell keeps its two bits. */
  lemma {:induction false} GetPut(bits: seq<bv32>, pos: nat, state: int, q: nat)
    requires pos / 16 < |bits| && q / 16 < |bits|
    ensures Get(Put(bits, pos, state), q) == if q == pos then state % 4 else Get(bits, q)
  {
    var st := (state % 4) as bv32;
    ShiftIsEven(pos);
    ShiftIsEven(q);
    if q == pos {
      GetWordSetWordSame(bits[pos / 16], Shift(pos), st);
      assert st & 3 == st;
    } else if q / 16 == pos / 16 {
      ShiftsDiffer(pos, q);
      GetWordSetWordOther(bits[pos / 16], Shift(pos), Shift(q), st);
    }
  }

  /** Storing the state a cell already holds gives back the very same words. */
  lemma {:induction false} PutGetIsIdentity(bits: seq<bv32>, pos: nat, state: int)
    requires pos / 16 < |bits|
    ensures Put(Put(bits, pos, state), pos, Get(bits, pos)) == bits
  {
    var i := pos / 16;
    var st := (state % 4) as bv32;
    var old_ := GetWord(bits[i], Shift(pos));
    ShiftIsEven(pos);
    assert (Get(bits, pos) % 4) as bv32 == old_;
    SetWordGetWord(bits[i], Shift(pos), st);
  }

  /** After a store, the words hold the old cells with one entry replaced. */
  lemma HoldsPut(bits: seq<bv32>, cells: seq<int>, pos: nat, state: int)
    requires Holds(bits, cells) && pos < |cells|
    ensures Holds(Put(bits, pos, state), cells[pos := state % 4])
  {
    var c2 := cells[pos := state % 4];
    forall q | 0 <= q < |c2|
      ensures c2[q] == Get(Put(bits, pos, state), q)
    {
      GetPut(bits, pos, state, q);
    }
  }

  /** A zero-filled store of `n` cells: every intersection EMPTY. */
  method Create(n: nat) returns (bits: array<bv32>)
    ensures fresh(bits)
    ensures bits.Length == WordCount(n)
    ensures Holds(bits[..], seq(n, _ => 0))
  {
    bits := new bv32[WordCount(n)](_ => 0);
    var zeros := seq(n, _ => 0);
    forall p | 0 <= p < n
      ensures zeros[p] == Get(bits[..], p)
    {
      assert bits[..][p / 16] == 0;
    }
  }

  method Clone(bits: array<bv32>) returns (r: array<bv32>)
    ensures fresh(r)
    ensures r[..] == bits[..]
  {
    r := new bv32[bits.Length](i requires 0 <= i < bits.Length reads bits => bits[i]);
  }

  /** Store `state & 3` for cell `pos`, in place. */
  method Set(bits: array<bv32>, pos: nat, state: int)
    requires pos / 16 < bits.Length
    modifies bits
    ensures bits[..] == Put(old(bits[..]), pos, state)
  {
    var bitpos := pos * 2;
    var arrayIndex := bitpos / 32;
    assert arrayIndex == pos / 16;
    bits[arrayIndex] := SetWord(bits[arrayIndex], Shift(pos), (state % 4) as bv32);
  }
}
