/**
 * The data frame as a value: column names, the kind of each column, and the rows.
 * A cell is an optional value; None stands for a missing value (NaN).
 */
module Tables {
  import opened Wrappers

  /** What a cell may hold: a number, a string, a boolean flag or a category label. */
  datatype Value = Num(x: real) | Text(s: string) | Bool(b: bool) | Label(name: string)

  type Cell = Option<Value>
  type Row = seq<Cell>

  /** The kind of a column: numeric, object (strings), boolean, or categorical. */
  datatype Kind = Numeric | Object | Boolean | Categorical

  datatype Table = Table(columns: seq<string>, kinds: seq<Kind>, rows: seq<Row>)

  /** The errors the cleaning and feature steps can raise. */
  datatype Error =
    | KeyError(key: string)          // a column looked up by name does not exist
    | TypeError(column: string)      // the column's kind does not support the operation
    | EmptyMode(column: string)      // mode()[0] of a column with no present values

  /** A cell agrees with its column's kind; a missing cell agrees with every kind. */
  predicate Fits(k: Kind, c: Cell)
  {
    match c
    case None => true
    case Some(v) =>
      match k
      case Numeric => v.Num?
      case Object => v.Text?
      case Boolean => v.Bool?
      case Categorical => v.Label?
  }

  /** Every row has one cell per column, and every cell fits its column's kind. */
  predicate Valid(t: Table)
  {
    && |t.kinds| == |t.columns|
    && (forall i :: 0 <= i < |t.rows| ==> |t.rows[i]| == |t.columns|)
    && (forall i, j :: 0 <= i < |t.rows| && 0 <= j < |t.columns| ==> Fits(t.kinds[j], t.rows[i][j]))
  }

  /** Every row has a cell at position j. */
  predicate HasColumn(rows: seq<Row>, j: nat)
  {
    forall i :: 0 <= i < |rows| ==> j < |rows[i]|
  }

  /** The cells at position j, top to bottom. */
  function Column(rows: seq<Row>, j: nat): seq<Cell>
    requires HasColumn(rows, j)
  {
    seq(|rows|, i requires 0 <= i < |rows| => rows[i][j])
  }

  /** Position of the first column called name, as a lookup by label does. */
  function ColumnIndex(names: seq<string>, name: string): (r: Option<nat>)
    ensures r.None? <==> name !in names
    ensures r.Some? ==> r.value < |names| && names[r.value] == name && name !in names[..r.value]
  {
    if names == [] then None
    else if names[0] == name then Some(0)
    else
      match ColumnIndex(names[1..], name)
      case None => None
      case Some(k) =>
        assert names[..k + 1] == [names[0]] + names[1..][..k];
        Some(k + 1)
  }

  /** Appending a column does not change where an existing name is found. */
  lemma {:induction false} ColumnIndexAppend(names: seq<string>, extra: string, name: string)
    requires name in names
    ensures ColumnIndex(names + [extra], name) == ColumnIndex(names, name)
  {
    if names[0] != name {
      assert (names + [extra])[1..] == names[1..] + [extra];
      ColumnIndexAppend(names[1..], extra, name);
    }
  }

  /**
   * Column assignment by name: an existing column called name (its first occurrence)
   * is replaced, otherwise a new column is appended at the right.
   */
  function WithColumn(t: Table, name: string, kind: Kind, values: seq<Cell>): (r: Table)
    requires Valid(t)
    requires |values| == |t.rows|
    requires forall i :: 0 <= i < |values| ==> Fits(kind, values[i])
    ensures Valid(r) && |r.rows| == |t.rows|
    ensures name in t.columns ==> r.columns == t.columns
    ensures name !in t.columns ==> r.columns == t.columns + [name]
    ensures ColumnIndex(r.columns, name).Some?
    ensures var j := ColumnIndex(r.columns, name).value;
            && r.kinds[j] == kind
            && Column(r.rows, j) == values
            && (forall k :: 0 <= k < |t.columns| && k != j ==> r.kinds[k] == t.kinds[k])
            && (forall i, k :: 0 <= i < |t.rows| && 0 <= k < |t.columns| && k != j ==> r.rows[i][k] == t.rows[i][k])
  {
    match ColumnIndex(t.columns, name)
    case Some(j) =>
      var r := Table(t.columns, t.kinds[j := kind],
                     seq(|t.rows|, i requires 0 <= i < |t.rows| => t.rows[i][j := values[i]]));
      ReplacedColumn(t, j, kind, values, r);
      r
    case None =>
      assert ColumnIndex(t.columns + [name], name) == Some(|t.columns|) by {
        assert (t.columns + [name])[..|t.columns|] == t.columns;
      }
      var r := Table(t.columns + [name], t.kinds + [kind],
                     seq(|t.rows|, i requires 0 <= i < |t.rows| => t.rows[i] + [values[i]]));
      AppendedColumn(t, name, kind, values, r);
      r
  }

  lemma ReplacedColumn(t: Table, j: nat, kind: Kind, values: seq<Cell>, r: Table)
    requires Valid(t) && j < |t.columns| && |values| == |t.rows|
    requires forall i :: 0 <= i < |values| ==> Fits(kind, values[i])
    requires r == Table(t.columns, t.kinds[j := kind],
                        seq(|t.rows|, i requires 0 <= i < |t.rows| => t.rows[i][j := values[i]]))
    ensures Valid(r) && Column(r.rows, j) == values
    ensures forall i, k :: 0 <= i < |t.rows| && 0 <= k < |t.columns| && k != j ==> r.rows[i][k] == t.rows[i][k]
  {
    forall i, k | 0 <= i < |t.rows| && 0 <= k < |t.columns|
      ensures Fits(r.kinds[k], r.rows[i][k])
    {
      if k != j {
        assert r.rows[i][k] == t.rows[i][k];
      }
    }
  }

  lemma AppendedColumn(t: Table, name: string, kind: Kind, values: seq<Cell>, r: Table)
    requires Valid(t) && |values| == |t.rows|
    requires forall i :: 0 <= i < |values| ==> Fits(kind, values[i])
    requires r == Table(t.columns + [name], t.kinds + [kind],
                        seq(|t.rows|, i requires 0 <= i < |t.rows| => t.rows[i] + [values[i]]))
    ensures Valid(r) && Column(r.rows, |t.columns|) == values
    ensures forall i, k :: 0 <= i < |t.rows| && 0 <= k < |t.columns| ==> r.rows[i][k] == t.rows[i][k]
  {
    forall i, k | 0 <= i < |t.rows| && 0 <= k < |r.columns|
      ensures Fits(r.kinds[k], r.rows[i][k])
    {
      if k < |t.columns| {
        assert r.rows[i][k] == t.rows[i][k];
      }
    }
  }

  /**
   * r is t after assigning column name: the list of names grows by name only when it was
   * absent, the number of rows is the same, and every other column keeps its kind and cells.
   */
  predicate AssignedOnly(t: Table, r: Table, name: string)
    requires Valid(t) && Valid(r)
  {
    && |r.rows| == |t.rows|
    && (name in t.columns ==> r.columns == t.columns)
    && (name !in t.columns ==> r.columns == t.columns + [name])
    && ColumnIndex(r.columns, name).Some?
    && var j := ColumnIndex(r.columns, name).value;
       && (forall k :: 0 <= k < |t.columns| && k != j ==> r.kinds[k] == t.kinds[k])
       && (forall i, k :: 0 <= i < |t.rows| && 0 <= k < |t.columns| && k != j ==> r.rows[i][k] == t.rows[i][k])
  }

  /** Assigning column name leaves any other column, looked up by its own name, where and as it was. */
  lemma AssignedOnlyKeeps(t: Table, r: Table, name: string, other: string)
    requires Valid(t) && Valid(r) && AssignedOnly(t, r, name)
    requires other in t.columns && other != name
    ensures ColumnIndex(r.columns, other) == ColumnIndex(t.columns, other)
    ensures var k := ColumnIndex(t.columns, other).value;
            && r.kinds[k] == t.kinds[k]
            && forall i :: 0 <= i < |t.rows| ==> r.rows[i][k] == t.rows[i][k]
  {
    if name !in t.columns {
      ColumnIndexAppend(t.columns, name, other);
    }
    var k := ColumnIndex(t.columns, other).value;
    assert r.columns[k] == other;
  }

  /** Assigning column name leaves every column of another name at its position and as it was. */
  lemma AssignedOnlyKeepsAt(t: Table, r: Table, name: string, k: nat)
    requires Valid(t) && Valid(r) && AssignedOnly(t, r, name)
    requires k < |t.columns| && t.columns[k] != name
    ensures r.columns[k] == t.columns[k] && r.kinds[k] == t.kinds[k]
    ensures forall i :: 0 <= i < |t.rows| ==> r.rows[i][k] == t.rows[i][k]
  {
    assert r.columns[..|t.columns|] == t.columns;
    assert r.columns[k] == t.columns[k];
  }

  /** Assigning a column the values it already holds changes nothing. */
  lemma WithColumnSame(t: Table, name: string, kind: Kind, values: seq<Cell>)
    requires Valid(t)
    requires ColumnIndex(t.columns, name).Some?
    requires var j := ColumnIndex(t.columns, name).value;
             t.kinds[j] == kind && Column(t.rows, j) == values
    ensures WithColumn(t, name, kind, values) == t
  {
    var j := ColumnIndex(t.columns, name).value;
    var r := WithColumn(t, name, kind, values);
    assert r.kinds == t.kinds;
    forall i | 0 <= i < |t.rows|
      ensures r.rows[i] == t.rows[i]
    {
      assert values[i] == t.rows[i][j];
    }
  }

  /** The non-missing values of a column, top to bottom. */
  function Present(col: seq<Cell>): (vals: seq<Value>)
    ensures forall i :: 0 <= i < |col| && col[i].Some? ==> col[i].value in vals
    ensures forall k :: 0 <= k < |vals| ==> Some(vals[k]) in col
    ensures forall v :: multiset(vals)[v] == multiset(col)[Some(v)]
    ensures |vals| <= |col|
  {
    if col == [] then []
    else
      assert col == [col[0]] + col[1..];
      (if col[0].Some? then [col[0].value] else []) + Present(col[1..])
  }

  /** The non-missing strings of an object column, top to bottom. */
  function PresentTexts(col: seq<Cell>): (vals: seq<string>)
    ensures forall i :: 0 <= i < |col| && col[i].Some? && col[i].value.Text? ==> col[i].value.s in vals
    ensures forall k :: 0 <= k < |vals| ==> Some(Text(vals[k])) in col
  {
    if col == [] then []
    else (if col[0].Some? && col[0].value.Text? then [col[0].value.s] else []) + PresentTexts(col[1..])
  }

  /** Each present string occurs in PresentTexts as often as it occurs in the column. */
  lemma {:induction false} PresentTextsCounts(col: seq<Cell>)
    ensures forall v :: multiset(PresentTexts(col))[v] == multiset(col)[Some(Text(v))]
  {
    if col != [] {
      PresentTextsCounts(col[1..]);
      assert col == [col[0]] + col[1..];
    }
  }

  /** Rows taken from a valid table form a valid table with the same columns. */
  lemma SubsetOfRowsValid(t: Table, rows: seq<Row>)
    requires Valid(t)
    requires forall k :: 0 <= k < |rows| ==> rows[k] in t.rows
    ensures Valid(Table(t.columns, t.kinds, rows))
  {
    forall k, j | 0 <= k < |rows| && 0 <= j < |t.columns|
      ensures |rows[k]| == |t.columns| && Fits(t.kinds[j], rows[k][j])
    {
      var i :| 0 <= i < |t.rows| && t.rows[i] == rows[k];
    }
  }

  /** Two valid tables with the same columns, kinds and cells are equal. */
  lemma SameCells(a: Table, b: Table)
    requires Valid(a) && Valid(b)
    requires a.columns == b.columns && a.kinds == b.kinds && |a.rows| == |b.rows|
    requires forall i, j :: 0 <= i < |a.rows| && 0 <= j < |a.columns| ==> a.rows[i][j] == b.rows[i][j]
    ensures a == b
  {
    forall i | 0 <= i < |a.rows|
      ensures a.rows[i] == b.rows[i]
    {
    }
  }
}
