/** Small facts about slicing and concatenating sequences, proved once so
    that larger proofs can cite them without unfolding their own terms. */
module Seqs {

  /** Taking `k` elements and then `j - k` more is taking `j`. */
  lemma TakeMore<T>(a: seq<T>, s: seq<T>, k: nat, j: nat)
    requires k <= j <= |s|
    ensures a + s[..k] + s[k..][..j - k] == a + s[..j]
    ensures s[k..][j - k..] == s[j..]
  {
    assert s[..j] == s[..k] + s[k..][..j - k];
  }

  /** The empty sequence is a right unit. */
  lemma AppendEmpty<T>(s: seq<T>)
    ensures s + [] == s
  {
  }

  /** Concatenation regroups. */
  lemma Assoc<T>(a: seq<T>, b: seq<T>, c: seq<T>)
    ensures a + b + c == a + (b + c)
  {
  }

  /** A sequence is its three consecutive slices. */
  lemma Split3<T>(s: seq<T>, i: nat, j: nat)
    requires i <= j <= |s|
    ensures s == s[..i] + s[i..j] + s[j..]
  {
  }
}
