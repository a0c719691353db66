/** Facts about slicing sequences, stated once for any element type so that
    the solver never proves them over strings. */
module Seqs {

  /** Taking one more element appends that element. */
  lemma TakeSnoc<T>(s: seq<T>, i: nat)
    requires i < |s|
    ensures s[..i + 1] == s[..i] + [s[i]]
  {
  }

  /** Taking every element gives the whole sequence. */
  lemma TakeAll<T>(s: seq<T>)
    ensures s[..|s|] == s
  {
  }

  /** A sequence is its two pieces around an index. */
  lemma SplitAt<T>(s: seq<T>, i: nat)
    requires i <= |s|
    ensures s == s[..i] + s[i..]
  {
  }

  /** A sequence is its three pieces around a slice. */
  lemma CutAround<T>(s: seq<T>, i: nat, j: nat)
    requires i <= j <= |s|
    ensures s == s[..i] + s[i..j] + s[j..]
  {
  }

  /** Two sequences with the same length and the same element at every
      index are equal. */
  lemma SameElements<T>(a: seq<T>, b: seq<T>)
    requires |a| == |b|
    requires forall k :: 0 <= k < |a| ==> a[k] == b[k]
    ensures a == b
  {
  }

  /** Replacing the last element of a concatenation with a non-empty right
      part replaces the last element of that part. */
  lemma UpdateLastOfAppend<T>(l: seq<T>, r: seq<T>, x: T)
    requires r != []
    ensures (l + r)[|l + r| - 1 := x] == l + r[|r| - 1 := x]
  {
  }
}
