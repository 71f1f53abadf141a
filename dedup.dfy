/**
 * Removal of duplicate rows with the default keep-first policy: a row is kept
 * exactly when no equal row occurs before it.
 */
module Dedup {
  import opened Sequences

  /** The input with every element that equals an earlier one removed. */
  function Dedup<T(==)>(s: seq<T>): (r: seq<T>)
    ensures forall i :: 0 <= i < |s| ==> s[i] in r
    ensures forall k :: 0 <= k < |r| ==> r[k] in s
    ensures Distinct(r)
    ensures |r| <= |s|
    decreases |s|
  {
    if s == [] then []
    else
      var prefix := s[..|s| - 1];
      var last := s[|s| - 1];
      assert s == prefix + [last];
      var kept := Dedup(prefix);
      if last in kept then kept else kept + [last]
  }

  /** The positions of first occurrences: i is listed exactly when s[i] does not occur in s[..i]. */
  function FirstOccurrences<T(==)>(s: seq<T>): (idx: seq<nat>)
    ensures Increasing(idx)
    ensures InBounds(idx, |s|)
    ensures forall i :: 0 <= i < |s| ==> (i in idx <==> s[i] !in s[..i])
    decreases |s|
  {
    if s == [] then []
    else
      var n := |s| - 1;
      var idx := FirstOccurrences(s[..n]);
      var r := if s[n] in s[..n] then idx else idx + [n];
      FirstOccurrencesStep(s, idx, r);
      r
  }

  lemma FirstOccurrencesStep<T>(s: seq<T>, idx: seq<nat>, r: seq<nat>)
    requires s != []
    requires Increasing(idx) && InBounds(idx, |s| - 1)
    requires forall i :: 0 <= i < |s| - 1 ==> (i in idx <==> s[..|s| - 1][i] !in s[..|s| - 1][..i])
    requires r == if s[|s| - 1] in s[..|s| - 1] then idx else idx + [|s| - 1]
    ensures Increasing(r) && InBounds(r, |s|)
    ensures forall i :: 0 <= i < |s| ==> (i in r <==> s[i] !in s[..i])
  {
    var n := |s| - 1;
    forall i | 0 <= i < |s|
      ensures i in r <==> s[i] !in s[..i]
    {
      if i < n {
        assert s[..n][..i] == s[..i];
        assert s[..n][i] == s[i];
        assert i in r <==> i in idx;
      } else {
        assert s[..i] == s[..n];
      }
    }
  }

  /** De-duplication keeps exactly the first occurrences, in their original order. */
  lemma {:induction false} DedupKeepsFirstOccurrences<T>(s: seq<T>)
    ensures Dedup(s) == Pick(s, FirstOccurrences(s))
    decreases |s|
  {
    if s != [] {
      var n := |s| - 1;
      var prefix := s[..n];
      DedupKeepsFirstOccurrences(prefix);
      var kept := Dedup(prefix);
      var idx := FirstOccurrences(prefix);
      PickFromPrefix(s, n, idx);
      SameMembers(prefix, kept, s[n]);
      if s[n] !in prefix {
        PickAppend(s, idx, n);
      }
    }
  }

  lemma SameMembers<T>(s: seq<T>, kept: seq<T>, x: T)
    requires kept == Dedup(s)
    ensures x in kept <==> x in s
  {
    if x in s {
      var i :| 0 <= i < |s| && s[i] == x;
    }
  }

  /** A sequence without duplicates is left unchanged. */
  lemma {:induction false} DedupOfDistinct<T>(s: seq<T>)
    requires Distinct(s)
    ensures Dedup(s) == s
    decreases |s|
  {
    if s != [] {
      var n := |s| - 1;
      DedupOfDistinct(s[..n]);
      assert s == s[..n] + [s[n]];
    }
  }

  /** De-duplicating twice gives the same result as de-duplicating once. */
  lemma DedupIdempotent<T>(s: seq<T>)
    ensures Dedup(Dedup(s)) == Dedup(s)
  {
    DedupOfDistinct(Dedup(s));
  }
}
