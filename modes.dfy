/**
 * mode()[0] of a column of strings: among the values of highest frequency,
 * the first in sorted order (strings compare by code points, a proper prefix first).
 */
module Modes {
  import opened Wrappers
  import opened Sequences

  /** Strict lexicographic order on strings by character code. */
  predicate LexLess(a: string, b: string)
    decreases |a|
  {
    if a == [] then b != []
    else b != [] && (a[0] < b[0] || (a[0] == b[0] && LexLess(a[1..], b[1..])))
  }

  lemma {:induction false} LexLessIrreflexive(a: string)
    ensures !LexLess(a, a)
    decreases |a|
  {
    if a != [] {
      LexLessIrreflexive(a[1..]);
    }
  }

  lemma {:induction false} LexLessTransitive(a: string, b: string, c: string)
    requires LexLess(a, b) && LexLess(b, c)
    ensures LexLess(a, c)
    decreases |a|
  {
    if a != [] && a[0] == b[0] && b[0] == c[0] {
      LexLessTransitive(a[1..], b[1..], c[1..]);
    }
  }

  lemma {:induction false} LexLessTotal(a: string, b: string)
    ensures a == b || LexLess(a, b) || LexLess(b, a)
    decreases |a|
  {
    if a != [] && b != [] && a[0] == b[0] {
      LexLessTotal(a[1..], b[1..]);
      if a[1..] == b[1..] {
        assert a == [a[0]] + a[1..] && b == [b[0]] + b[1..];
      }
    }
  }

  lemma LexLessAsymmetric(a: string, b: string)
    requires LexLess(a, b)
    ensures !LexLess(b, a)
  {
    if LexLess(b, a) {
      LexLessTransitive(a, b, a);
      LexLessIrreflexive(a);
    }
  }

  /** m is the value mode()[0] returns: it occurs, no value is more frequent, and among equally frequent values it sorts first. */
  predicate IsFirstMode(m: string, vals: seq<string>)
  {
    && m in vals
    && forall v :: v in vals ==>
         Count(vals, v) < Count(vals, m) ||
         (Count(vals, v) == Count(vals, m) && (v == m || LexLess(m, v)))
  }

  /** a ranks before b: more frequent, or equally frequent and sorting first. */
  predicate RanksBefore(vals: seq<string>, a: string, b: string)
  {
    Count(vals, a) > Count(vals, b) ||
    (Count(vals, a) == Count(vals, b) && LexLess(a, b))
  }

  /** The best-ranked candidate of cands, with frequencies counted in vals. */
  function BestOf(vals: seq<string>, cands: seq<string>): (m: string)
    requires |cands| > 0
    ensures m in cands
    ensures forall c :: c in cands ==> c == m || RanksBefore(vals, m, c)
    decreases |cands|
  {
    if |cands| == 1 then cands[0]
    else
      var rest := BestOf(vals, cands[1..]);
      assert forall c :: c in cands ==> c == cands[0] || c in cands[1..];
      if RanksBefore(vals, cands[0], rest) then
        RanksBeforeTransitive(vals, cands[0], rest, cands[1..]);
        cands[0]
      else
        RanksBeforeTotal(vals, cands[0], rest);
        rest
  }

  lemma RanksBeforeTransitive(vals: seq<string>, a: string, b: string, cs: seq<string>)
    requires RanksBefore(vals, a, b)
    requires forall c :: c in cs ==> c == b || RanksBefore(vals, b, c)
    ensures forall c :: c in cs ==> c == a || RanksBefore(vals, a, c)
  {
    forall c | c in cs && c != a && c != b
      ensures RanksBefore(vals, a, c)
    {
      if Count(vals, a) == Count(vals, b) && Count(vals, b) == Count(vals, c) {
        LexLessTransitive(a, b, c);
      }
    }
  }

  lemma RanksBeforeTotal(vals: seq<string>, a: string, b: string)
    requires !RanksBefore(vals, a, b)
    ensures a == b || RanksBefore(vals, b, a)
  {
    LexLessTotal(a, b);
  }

  /** mode()[0]: None when there are no values (the lookup fails), otherwise the first mode. */
  function Mode(vals: seq<string>): (r: Option<string>)
    ensures r.None? <==> vals == []
    ensures r.Some? ==> IsFirstMode(r.value, vals)
  {
    if vals == [] then None
    else
      var m := BestOf(vals, vals);
      assert forall v :: v in vals && v != m ==> RanksBefore(vals, m, v);
      Some(m)
  }

  /** The first mode is unique: any value meeting its description is what Mode returns. */
  lemma FirstModeUnique(m: string, vals: seq<string>)
    requires IsFirstMode(m, vals)
    ensures Mode(vals) == Some(m)
  {
    var r := Mode(vals).value;
    if r != m {
      assert Count(vals, r) == Count(vals, m);
      LexLessAsymmetric(m, r);
    }
  }
}
