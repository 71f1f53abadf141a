/** Generic facts about sequences: distinctness, index selections and subsequences. */
module Sequences {
  /** How often v occurs in vals. */
  function Count<T(==)>(vals: seq<T>, v: T): nat
  {
    multiset(vals)[v]
  }


  /** No element occurs twice. */
  predicate Distinct<T(==)>(s: seq<T>)
  {
    forall a, b :: 0 <= a < b < |s| ==> s[a] != s[b]
  }

  /** A strictly increasing list of positions. */
  predicate Increasing(idx: seq<nat>)
  {
    forall a, b :: 0 <= a < b < |idx| ==> idx[a] < idx[b]
  }

  /** Every position in idx is a valid position of a sequence of length n. */
  predicate InBounds(idx: seq<nat>, n: nat)
  {
    forall k :: 0 <= k < |idx| ==> idx[k] < n
  }

  /** The elements of s at the positions idx, in that order. */
  function Pick<T>(s: seq<T>, idx: seq<nat>): seq<T>
    requires InBounds(idx, |s|)
  {
    seq(|idx|, k requires 0 <= k < |idx| => s[idx[k]])
  }

  /** a can be obtained from b by deleting elements. */
  predicate IsSubsequence<T(==)>(a: seq<T>, b: seq<T>)
    decreases |b|
  {
    a == [] ||
    (b != [] && ((a[0] == b[0] && IsSubsequence(a[1..], b[1..])) || IsSubsequence(a, b[1..])))
  }

  /** Putting elements in front of b keeps a a subsequence of it. */
  lemma {:induction false} PrependKeepsSubsequence<T>(a: seq<T>, p: seq<T>, b: seq<T>)
    requires IsSubsequence(a, b)
    ensures IsSubsequence(a, p + b)
    decreases |p|
  {
    if p != [] && a != [] {
      PrependKeepsSubsequence(a, p[1..], b);
      assert (p + b)[1..] == p[1..] + b;
      assert p + b != [];
    } else if p == [] {
      assert p + b == b;
    }
  }

  /** Picking positions that lie inside a prefix reads the same elements from the prefix. */
  lemma PickFromPrefix<T>(s: seq<T>, n: nat, idx: seq<nat>)
    requires n <= |s| && InBounds(idx, n)
    ensures Pick(s, idx) == Pick(s[..n], idx)
  {
  }

  /** Picking one more position appends its element. */
  lemma PickAppend<T>(s: seq<T>, idx: seq<nat>, n: nat)
    requires InBounds(idx, |s|) && n < |s|
    ensures InBounds(idx + [n], |s|)
    ensures Pick(s, idx + [n]) == Pick(s, idx) + [s[n]]
  {
  }
}
