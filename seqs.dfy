/** Small facts about sequences, stated once so that big proofs need not rediscover them. */
module Seqs {
  /** A prefix one element longer is the prefix followed by that element. */
  lemma TakeNext<T>(s: seq<T>, i: int)
    requires 0 <= i < |s|
    ensures s[..i + 1] == s[..i] + [s[i]]
  {
  }

  /** The whole sequence is its longest prefix. */
  lemma TakeAll<T>(s: seq<T>)
    ensures s[..|s|] == s
  {
  }

  lemma ConcatAssoc<T>(a: seq<T>, b: seq<T>, c: seq<T>)
    ensures (a + b) + c == a + (b + c)
  {
  }

  /** A sequence is its prefix followed by the rest. */
  lemma SplitAt<T>(s: seq<T>, i: int)
    requires 0 <= i <= |s|
    ensures s[..i] + s[i..] == s
  {
  }

  /** An element of a slice is the element of the whole at the shifted index. */
  lemma SliceAt<T>(s: seq<T>, lo: int, hi: int, k: int)
    requires 0 <= lo <= hi <= |s| && 0 <= k < hi - lo
    ensures s[lo..hi][k] == s[lo + k]
  {
  }

  /** A non-empty sequence is its head followed by its tail. */
  lemma HeadTail<T>(s: seq<T>)
    requires s != []
    ensures [s[0]] + s[1..] == s
  {
  }
}
