/** Small facts about sequence concatenation and update, stated once so
    that larger proofs can cite them instead of re-deriving them. */
module Seqs {
  lemma ConsAppend<T>(s: seq<T>, x: T)
    requires s != []
    ensures s + [x] == [s[0]] + (s[1..] + [x])
  {
  }

  lemma AppendAssoc<T>(a: seq<T>, b: seq<T>, c: seq<T>)
    ensures a + (b + c) == (a + b) + c
  {
  }

  lemma AppendOne<T>(s: seq<T>, x: T)
    ensures |s + [x]| == |s| + 1 && (s + [x])[|s|] == x
    ensures forall i :: 0 <= i < |s| ==> (s + [x])[i] == s[i]
  {
  }

  lemma InitLast<T>(s: seq<T>)
    requires s != []
    ensures s == s[..|s| - 1] + [s[|s| - 1]]
  {
  }

  lemma SplitAt<T>(s: seq<T>, k: nat)
    requires k <= |s|
    ensures s == s[..k] + s[k..]
  {
  }

  /** Updating index i of a non-empty list, seen through its head and tail. */
  lemma UpdateCons<T>(s: seq<T>, i: nat, x: T)
    requires i < |s|
    ensures i == 0 ==> s[i := x] == [x] + s[1..]
    ensures i > 0 ==> s[i := x] == [s[0]] + s[1..][i - 1 := x]
  {
  }
}
