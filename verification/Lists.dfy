/** Sequences without repetition, which stand for linked lists. */
module Lists {
  ghost predicate NoDup(s: seq<int>) { forall i, j {:trigger s[i], s[j]} :: 0 <= i < j < |s| ==> s[i] != s[j] }

  /** The sequence without its k-th element. */
  function Without(s: seq<int>, k: nat): seq<int>
    requires k < |s|
  {
    s[..k] + s[k + 1..]
  }

  lemma WithoutAt(s: seq<int>, k: nat, i: nat)
    requires k < |s| && i < |s| - 1
    ensures |Without(s, k)| == |s| - 1 && Without(s, k)[i] == if i < k then s[i] else s[i + 1]
  {
  }
}
