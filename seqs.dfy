/** Generic facts about sequences used by the scan pipeline: subsequences, witnessed by index maps. */
module Seqs {

  /** `idx` embeds `a` into `b`: strictly increasing positions of `b` that hold the elements of `a`. */
  ghost predicate Embeds<T>(a: seq<T>, b: seq<T>, idx: seq<nat>)
  {
    && |idx| == |a|
    && (forall k :: 0 <= k < |a| ==> idx[k] < |b| && a[k] == b[idx[k]])
    && (forall k, l :: 0 <= k < l < |a| ==> idx[k] < idx[l])
  }

  /** `a` is `b` with some elements left out, the rest in their original order. */
  ghost predicate IsSubsequence<T>(a: seq<T>, b: seq<T>)
  {
    exists idx :: Embeds(a, b, idx)
  }

  /** No element occurs twice. */
  ghost predicate Distinct<T>(s: seq<T>)
  {
    forall i, j :: 0 <= i < j < |s| ==> s[i] != s[j]
  }

  /** Appending the same element to both sides extends an embedding by the new last position. */
  lemma EmbedsSnocBoth<T>(a: seq<T>, b: seq<T>, idx: seq<nat>, x: T)
    requires Embeds(a, b, idx)
    ensures Embeds(a + [x], b + [x], idx + [|b|])
  {
  }

  /** Appending an element to the larger side only keeps an embedding. */
  lemma EmbedsSnocRight<T>(a: seq<T>, b: seq<T>, idx: seq<nat>, x: T)
    requires Embeds(a, b, idx)
    ensures Embeds(a, b + [x], idx)
  {
  }

  /** Every element of a subsequence is an element of the sequence it was drawn from. */
  lemma SubsequenceElements<T>(a: seq<T>, b: seq<T>)
    requires IsSubsequence(a, b)
    ensures forall x :: x in a ==> x in b
  {
    var idx :| Embeds(a, b, idx);
    forall x | x in a ensures x in b {
      var k :| 0 <= k < |a| && a[k] == x;
      assert b[idx[k]] == x;
    }
  }

  /** Sequences that are equal after one element is appended to each were equal before. */
  lemma SnocCancel<T>(a: seq<T>, x: T, b: seq<T>, y: T)
    requires a + [x] == b + [y]
    ensures a == b && x == y
  {
    assert a == (a + [x])[..|a|] && b == (b + [y])[..|b|];
    assert x == (a + [x])[|a|] && y == (b + [y])[|b|];
  }
}
