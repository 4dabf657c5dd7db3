/** Small facts about sequence concatenation and slicing used by the proofs. */
module Sequences {

  lemma AppendAssoc<T>(a: seq<T>, b: seq<T>, c: seq<T>)
    ensures a + b + c == a + (b + c)
  {
  }

  /** The middle part of `a + b + c`, sliced relative to `b`. */
  lemma SliceOfMiddle<T>(a: seq<T>, b: seq<T>, c: seq<T>, i: nat, j: nat)
    requires i <= j <= |b|
    ensures (a + b + c)[|a| + i..|a| + j] == b[i..j]
  {
    assert forall m :: 0 <= m < j - i ==> (a + b + c)[|a| + i..|a| + j][m] == b[i..j][m];
  }

  /** When `all` starts with `pre + blk`, `blk` sits right after `pre`. */
  lemma SliceAfterPrefix<T>(all: seq<T>, pre: seq<T>, blk: seq<T>)
    requires |pre| + |blk| <= |all| && all[..|pre| + |blk|] == pre + blk
    ensures all[|pre|..|pre| + |blk|] == blk
  {
    assert forall m :: 0 <= m < |blk| ==> blk[m] == (pre + blk)[|pre| + m] == all[|pre| + m];
  }
}
