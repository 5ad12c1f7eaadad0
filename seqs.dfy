/**
 Generic facts about sequences, stated once for any element type so that
 proofs about sequences of audit entries and emissions can cite them
 without the solver unfolding those datatypes.
 */
module Seqs {

  lemma AppendAssoc<T>(a: seq<T>, b: seq<T>, c: seq<T>)
    ensures (a + b) + c == a + (b + c)
  {
  }

  lemma SplitAround<T>(s: seq<T>, i: nat)
    requires i < |s|
    ensures s[..i] + [s[i]] + s[i + 1..] == s
  {
  }

  lemma PrefixStep<T>(s: seq<T>, i: nat)
    requires i < |s|
    ensures s[..i + 1][..i] == s[..i]
  {
  }

  lemma PrefixEnds<T>(s: seq<T>)
    ensures s[..0] == [] && s[..|s|] == s
  {
  }
}
