/**
 * The top-5-country filter: value_counts().nlargest(5) picks the five most frequent
 * present countries, and isin keeps exactly the rows whose country is one of them.
 * Among equally frequent values the choice order is the library's; the model takes
 * the earliest-appearing one, and no property below depends on that choice.
 */
module Countries {
  import opened Wrappers
  import opened Sequences
  import opened Tables
  import Dedup

  /** A candidate of highest frequency, the earliest one among ties. */
  function MostFrequent<T(==,!new)>(vals: seq<T>, cands: seq<T>): (m: T)
    requires |cands| > 0
    ensures m in cands
    ensures forall c :: c in cands ==> Count(vals, c) <= Count(vals, m)
    decreases |cands|
  {
    if |cands| == 1 then cands[0]
    else
      var rest := MostFrequent(vals, cands[1..]);
      assert forall c :: c in cands ==> c == cands[0] || c in cands[1..];
      if Count(vals, cands[0]) >= Count(vals, rest) then cands[0] else rest
  }

  /** s without the element x. */
  function Without<T(==,!new)>(s: seq<T>, x: T): (r: seq<T>)
    ensures forall y :: y in r <==> y in s && y != x
    ensures Distinct(s) ==> Distinct(r)
    ensures Distinct(s) && x in s ==> |r| == |s| - 1
    ensures x !in s ==> r == s
  {
    if s == [] then []
    else if s[0] == x then Without(s[1..], x)
    else
      var rest := Without(s[1..], x);
      assert Distinct(s) ==> s[0] !in s[1..] && Distinct(s[1..]);
      [s[0]] + rest
  }

  /**
   * The k most frequent candidates (frequencies counted in vals): no candidate left out is
   * more frequent than one chosen, and fewer than k are chosen only when all are.
   */
  function TopK<T(==,!new)>(vals: seq<T>, cands: seq<T>, k: nat): (top: seq<T>)
    requires Distinct(cands)
    ensures Distinct(top)
    ensures forall x :: x in top ==> x in cands
    ensures |top| == if k < |cands| then k else |cands|
    ensures |top| < k ==> forall y :: y in cands ==> y in top
    ensures forall x, y :: x in top && y in cands && y !in top ==> Count(vals, y) <= Count(vals, x)
    decreases k
  {
    if k == 0 || cands == [] then []
    else
      var b := MostFrequent(vals, cands);
      var rest := TopK(vals, Without(cands, b), k - 1);
      assert forall y :: y in cands && y !in [b] + rest ==> y in Without(cands, b) && y !in rest;
      [b] + rest
  }

  /** The five most frequent present values of a column (all of them if there are fewer). */
  function Top5(col: seq<Cell>): (top: seq<Value>)
    ensures Distinct(top) && |top| <= 5
    ensures forall v :: v in top ==> Some(v) in col
    ensures |top| < 5 ==> forall i :: 0 <= i < |col| && col[i].Some? ==> col[i].value in top
    ensures forall v, i :: v in top && 0 <= i < |col| && col[i].Some? && col[i].value !in top ==>
              Count(Present(col), col[i].value) <= Count(Present(col), v)
  {
    var vals := Present(col);
    var cands := Dedup.Dedup(vals);
    var top := TopK(vals, cands, 5);
    assert forall i :: 0 <= i < |col| && col[i].Some? ==> col[i].value in cands;
    assert forall v :: v in top ==> v in cands && v in vals;
    top
  }

  /** isin: a present value that belongs to the selection; a missing cell never does. */
  predicate IsIn(c: Cell, selection: seq<Value>)
  {
    c.Some? && c.value in selection
  }

  /** The positions of the rows whose cell j is in the selection, in increasing order. */
  function MatchingRows(rows: seq<Row>, j: nat, selection: seq<Value>): (idx: seq<nat>)
    requires HasColumn(rows, j)
    ensures Increasing(idx) && InBounds(idx, |rows|)
    ensures forall i :: 0 <= i < |rows| ==> (i in idx <==> IsIn(rows[i][j], selection))
    decreases |rows|
  {
    if rows == [] then []
    else
      var n := |rows| - 1;
      var idx := MatchingRows(rows[..n], j, selection);
      assert forall i :: 0 <= i < n ==> rows[..n][i] == rows[i];
      if IsIn(rows[n][j], selection) then idx + [n] else idx
  }

  /** The rows whose cell j is in the selection, in their original order. */
  function KeepRows(rows: seq<Row>, j: nat, selection: seq<Value>): (r: seq<Row>)
    requires HasColumn(rows, j)
    ensures HasColumn(r, j)
    ensures forall k :: 0 <= k < |r| ==> r[k] in rows && IsIn(r[k][j], selection)
    ensures forall i :: 0 <= i < |rows| && IsIn(rows[i][j], selection) ==> rows[i] in r
    decreases |rows|
  {
    if rows == [] then []
    else
      var n := |rows| - 1;
      var kept := KeepRows(rows[..n], j, selection);
      assert forall i :: 0 <= i < n ==> rows[..n][i] == rows[i];
      if IsIn(rows[n][j], selection) then kept + [rows[n]] else kept
  }

  /** The filter keeps exactly the matching rows, in their original order. */
  lemma {:induction false} KeepRowsInOrder(rows: seq<Row>, j: nat, selection: seq<Value>)
    requires HasColumn(rows, j)
    ensures KeepRows(rows, j, selection) == Pick(rows, MatchingRows(rows, j, selection))
    decreases |rows|
  {
    if rows != [] {
      var n := |rows| - 1;
      KeepRowsInOrder(rows[..n], j, selection);
      var idx := MatchingRows(rows[..n], j, selection);
      assert Pick(rows, idx) == Pick(rows[..n], idx);
      if IsIn(rows[n][j], selection) {
        assert Pick(rows, idx + [n]) == Pick(rows, idx) + [rows[n]];
      }
    }
  }

  /**
   * df_top_countries: the rows whose Country is among the five most frequent countries.
   * Fails with KeyError when there is no Country column.
   */
  function TopCountryRows(t: Table): (r: Result<Table, Error>)
    requires Valid(t)
    ensures r.Err? <==> "Country" !in t.columns
    ensures r.Ok? ==> Valid(r.value) && r.value.columns == t.columns && r.value.kinds == t.kinds
    ensures r.Ok? ==>
              var j := ColumnIndex(t.columns, "Country").value;
              r.value.rows == KeepRows(t.rows, j, Top5(Column(t.rows, j)))
  {
    match ColumnIndex(t.columns, "Country")
    case None => Err(KeyError("Country"))
    case Some(j) =>
      var kept := KeepRows(t.rows, j, Top5(Column(t.rows, j)));
      SubsetOfRowsValid(t, kept);
      Ok(Table(t.columns, t.kinds, kept))
  }
}
