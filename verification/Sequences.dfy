/** Facts about slicing and concatenating sequences, kept apart so that the
    proofs about text and paragraphs use them as plain equalities. */
module Sequences {

  /** A non-empty slice is its first element followed by the rest. */
  lemma SliceCons<T>(s: seq<T>, i: nat, e: nat)
    requires i < e <= |s|
    ensures s[i..e] == [s[i]] + s[i + 1..e]
  {
  }

  /** The suffix from i, cut around the element at p. */
  lemma SliceAround<T>(s: seq<T>, i: nat, p: nat)
    requires i <= p < |s|
    ensures s[i..] == s[i..p] + [s[p]] + s[p + 1..]
  {
  }

  /** A slice of a suffix is a slice of the whole sequence, shifted. */
  lemma SliceOfDrop<T>(xs: seq<T>, a: nat, lo: nat, hi: nat)
    requires a <= |xs| && lo <= hi <= |xs| - a
    ensures xs[a..][lo..hi] == xs[a + lo..a + hi]
  {
  }

  /** Taking and dropping n elements and putting them back together. */
  lemma TakeDrop<T>(xs: seq<T>, n: nat)
    requires n <= |xs|
    ensures xs[..n] + xs[n..] == xs
  {
  }

  /** Prepending one element commutes with appending. */
  lemma ConsAppend<T>(x: T, a: seq<T>, b: seq<T>)
    ensures [x] + (a + b) == ([x] + a) + b
  {
  }

  /** The last n elements of a + b, when b has at least n, are those of b. */
  lemma SuffixOfAppend<T>(a: seq<T>, b: seq<T>, n: nat)
    requires n <= |b|
    ensures (a + b)[|a + b| - n..] == b[|b| - n..]
  {
  }
}
