/**
 * Missing-value imputation: numeric columns are filled with their median,
 * object columns with mode()[0]. The median is supplied from outside, as a
 * function of the column; None stands for the NaN median of a column with no
 * present value, and filling with NaN leaves the column as it was.
 */
module Imputation {
  import opened Wrappers
  import opened Tables
  import opened Modes

  /** fillna(v) on column j: every missing cell of the column gets v; nothing else changes. */
  function FillColumn(rows: seq<Row>, j: nat, v: Cell): (r: seq<Row>)
    requires HasColumn(rows, j)
    ensures |r| == |rows| && HasColumn(r, j)
    ensures forall i :: 0 <= i < |rows| ==> |r[i]| == |rows[i]|
    ensures forall i, k :: 0 <= i < |rows| && 0 <= k < |rows[i]| && (k != j || rows[i][j].Some?) ==>
              r[i][k] == rows[i][k]
    ensures forall i :: 0 <= i < |rows| && rows[i][j].None? ==> r[i][j] == v
  {
    seq(|rows|, i requires 0 <= i < |rows| => rows[i][j := if rows[i][j].None? then v else rows[i][j]])
  }

  /** The median as a numeric fill value. */
  function NumFill(m: Option<real>): (c: Cell)
    ensures c.Some? <==> m.Some?
    ensures Fits(Numeric, c)
  {
    match m
    case Some(x) => Some(Num(x))
    case None => None
  }

  /** The first mode as an object fill value. */
  function TextFill(col: seq<Cell>): (c: Cell)
    ensures c.Some? <==> PresentTexts(col) != []
    ensures Fits(Object, c)
  {
    match Mode(PresentTexts(col))
    case Some(s) => Some(Text(s))
    case None => None
  }

  /** The value fillna gives a missing numeric cell of column j. */
  function NumericCell(t: Table, median: seq<Cell> -> Option<real>, i: nat, j: nat): Cell
    requires Valid(t) && i < |t.rows| && j < |t.columns|
  {
    if t.kinds[j] == Numeric && t.rows[i][j].None? then NumFill(median(Column(t.rows, j))) else t.rows[i][j]
  }

  /** The table after every numeric column has been filled with its median. */
  function ImputedNumeric(t: Table, median: seq<Cell> -> Option<real>): (r: Table)
    requires Valid(t)
    ensures Valid(r)
    ensures r.columns == t.columns && r.kinds == t.kinds && |r.rows| == |t.rows|
    ensures forall i, j :: 0 <= i < |t.rows| && 0 <= j < |t.columns| ==>
              r.rows[i][j] == NumericCell(t, median, i, j)
  {
    Table(t.columns, t.kinds,
          seq(|t.rows|, i requires 0 <= i < |t.rows| =>
            seq(|t.columns|, j requires 0 <= j < |t.columns| => NumericCell(t, median, i, j))))
  }

  /** The median of a column is a number whenever the column holds one. */
  ghost predicate MedianDefined(median: seq<Cell> -> Option<real>)
  {
    forall col: seq<Cell> :: (exists i :: 0 <= i < |col| && col[i].Some?) ==> median(col).Some?
  }

  /** Column j holds at least one present value. */
  predicate HasPresent(t: Table, j: nat)
    requires Valid(t) && j < |t.columns|
  {
    exists i :: 0 <= i < |t.rows| && t.rows[i][j].Some?
  }

  /**
   * Numeric imputation keeps every present value, touches no other kind of column,
   * and leaves no missing cell in a numeric column that has a present value.
   */
  lemma ImputedNumericSpec(t: Table, median: seq<Cell> -> Option<real>)
    requires Valid(t) && MedianDefined(median)
    ensures var r := ImputedNumeric(t, median);
            && (forall i, j :: 0 <= i < |t.rows| && 0 <= j < |t.columns| && (t.rows[i][j].Some? || t.kinds[j] != Numeric) ==>
                  r.rows[i][j] == t.rows[i][j])
            && (forall i, j :: 0 <= i < |t.rows| && 0 <= j < |t.columns| && t.kinds[j] == Numeric && HasPresent(t, j) ==>
                  r.rows[i][j].Some?)
  {
    forall i, j | 0 <= i < |t.rows| && 0 <= j < |t.columns| && t.kinds[j] == Numeric && HasPresent(t, j)
      ensures ImputedNumeric(t, median).rows[i][j].Some?
    {
      var i' :| 0 <= i' < |t.rows| && t.rows[i'][j].Some?;
      assert Column(t.rows, j)[i'].Some?;
    }
  }

  /** The value fillna gives cell (i, j) once the object columns before n are filled. */
  function ObjectCell(t: Table, n: nat, i: nat, j: nat): Cell
    requires Valid(t) && i < |t.rows| && j < |t.columns|
  {
    if j < n && t.kinds[j] == Object && t.rows[i][j].None? then TextFill(Column(t.rows, j)) else t.rows[i][j]
  }

  /** The table after the object columns before position n have been filled with their first mode. */
  function ImputedObjectUpTo(t: Table, n: nat): (r: Table)
    requires Valid(t)
    ensures Valid(r)
    ensures r.columns == t.columns && r.kinds == t.kinds && |r.rows| == |t.rows|
    ensures forall i, j :: 0 <= i < |t.rows| && 0 <= j < |t.columns| ==> r.rows[i][j] == ObjectCell(t, n, i, j)
  {
    Table(t.columns, t.kinds,
          seq(|t.rows|, i requires 0 <= i < |t.rows| =>
            seq(|t.columns|, j requires 0 <= j < |t.columns| => ObjectCell(t, n, i, j))))
  }

  /** One turn of the object-column loop: filling column n extends the filled prefix by one. */
  lemma ObjectFillStep(t: Table, n: nat)
    requires Valid(t) && n < |t.columns|
    ensures var u := ImputedObjectUpTo(t, n);
            && Column(u.rows, n) == Column(t.rows, n)
            && ImputedObjectUpTo(t, n + 1) ==
                 if t.kinds[n] == Object then Table(u.columns, u.kinds, FillColumn(u.rows, n, TextFill(Column(t.rows, n))))
                 else u
  {
    var u := ImputedObjectUpTo(t, n);
    var v := ImputedObjectUpTo(t, n + 1);
    ObjectFillKeepsColumn(t, n, u);
    if t.kinds[n] == Object {
      var w := Table(u.columns, u.kinds, FillColumn(u.rows, n, TextFill(Column(t.rows, n))));
      ObjectFillStepCells(t, n, u, v, w);
      SameCells(v, w);
    } else {
      ObjectFillSkip(t, n, u, v);
    }
  }

  /** Before column n is filled, it still holds the original cells. */
  lemma ObjectFillKeepsColumn(t: Table, n: nat, u: Table)
    requires Valid(t) && n < |t.columns| && u == ImputedObjectUpTo(t, n)
    ensures Column(u.rows, n) == Column(t.rows, n)
  {
    forall i | 0 <= i < |t.rows|
      ensures Column(u.rows, n)[i] == Column(t.rows, n)[i]
    {
      assert u.rows[i][n] == ObjectCell(t, n, i, n);
    }
  }

  /** Passing over a column that is not of object kind changes nothing. */
  lemma ObjectFillSkip(t: Table, n: nat, u: Table, v: Table)
    requires Valid(t) && n < |t.columns| && t.kinds[n] != Object
    requires u == ImputedObjectUpTo(t, n) && v == ImputedObjectUpTo(t, n + 1)
    ensures v == u
  {
    forall i, k | 0 <= i < |t.rows| && 0 <= k < |t.columns|
      ensures v.rows[i][k] == u.rows[i][k]
    {
      assert v.rows[i][k] == ObjectCell(t, n + 1, i, k);
      assert u.rows[i][k] == ObjectCell(t, n, i, k);
      ObjectCellSkip(t, n, i, k);
    }
    SameCells(v, u);
  }

  /** A column that is not of object kind gets no fill, so extending the prefix over it changes no cell. */
  lemma ObjectCellSkip(t: Table, n: nat, i: nat, k: nat)
    requires Valid(t) && n < |t.columns| && t.kinds[n] != Object
    requires i < |t.rows| && k < |t.columns|
    ensures ObjectCell(t, n + 1, i, k) == ObjectCell(t, n, i, k)
  {
  }

  lemma ObjectFillStepCells(t: Table, n: nat, u: Table, v: Table, w: Table)
    requires Valid(t) && n < |t.columns| && t.kinds[n] == Object
    requires u == ImputedObjectUpTo(t, n) && v == ImputedObjectUpTo(t, n + 1)
    requires w == Table(u.columns, u.kinds, FillColumn(u.rows, n, TextFill(Column(t.rows, n))))
    ensures Valid(w)
    ensures forall i, k :: 0 <= i < |t.rows| && 0 <= k < |t.columns| ==> v.rows[i][k] == w.rows[i][k]
  {
    forall i, k | 0 <= i < |t.rows| && 0 <= k < |t.columns|
      ensures v.rows[i][k] == w.rows[i][k] && Fits(w.kinds[k], w.rows[i][k])
    {
      if k == n {
        assert u.rows[i][n] == t.rows[i][n];
      }
    }
  }

  /** Filling no column leaves the table as it is. */
  lemma ObjectFillNone(t: Table)
    requires Valid(t)
    ensures ImputedObjectUpTo(t, 0) == t
  {
    SameCells(ImputedObjectUpTo(t, 0), t);
  }

  /** An object column that holds no present value: its mode is empty. */
  predicate EmptyObjectColumn(t: Table, j: nat)
    requires Valid(t) && j < |t.columns|
  {
    t.kinds[j] == Object && PresentTexts(Column(t.rows, j)) == []
  }

  /** The first empty object column at or after position from. */
  function FirstEmptyObject(t: Table, from: nat): (r: Option<nat>)
    requires Valid(t)
    ensures r.Some? ==> from <= r.value < |t.columns| && EmptyObjectColumn(t, r.value)
    ensures forall j :: from <= j < |t.columns| && (r.None? || j < r.value) ==> !EmptyObjectColumn(t, j)
    decreases |t.columns| - from
  {
    if from >= |t.columns| then None
    else if EmptyObjectColumn(t, from) then Some(from)
    else FirstEmptyObject(t, from + 1)
  }

  /** In a valid table, an object column with no present string has no present cell at all. */
  lemma EmptyObjectColumnAllMissing(t: Table, j: nat)
    requires Valid(t) && j < |t.columns| && EmptyObjectColumn(t, j)
    ensures forall i :: 0 <= i < |t.rows| ==> t.rows[i][j].None?
  {
    forall i | 0 <= i < |t.rows|
      ensures t.rows[i][j].None?
    {
      assert Column(t.rows, j)[i] == t.rows[i][j];
      assert Fits(Object, t.rows[i][j]);
    }
  }

  /**
   * The object-column loop: it fails at the first object column with no present value
   * (mode()[0] has nothing to index); otherwise every object column is filled.
   */
  function ImputeObject(t: Table): (r: Result<Table, Error>)
    requires Valid(t)
    ensures r.Err? <==> exists j :: 0 <= j < |t.columns| && EmptyObjectColumn(t, j)
    ensures r.Ok? ==> r.value == ImputedObjectUpTo(t, |t.columns|)
  {
    match FirstEmptyObject(t, 0)
    case Some(j) => Err(EmptyMode(t.columns[j]))
    case None => Ok(ImputedObjectUpTo(t, |t.columns|))
  }

  /**
   * After a successful object imputation no object cell is missing, every present value is
   * kept, and every missing object cell holds the first mode of its column.
   */
  lemma ImputeObjectSpec(t: Table)
    requires Valid(t) && ImputeObject(t).Ok?
    ensures var r := ImputeObject(t).value;
            && (forall i, j :: 0 <= i < |t.rows| && 0 <= j < |t.columns| && (t.rows[i][j].Some? || t.kinds[j] != Object) ==>
                  r.rows[i][j] == t.rows[i][j])
            && (forall i, j :: 0 <= i < |t.rows| && 0 <= j < |t.columns| && t.kinds[j] == Object ==>
                  r.rows[i][j].Some?)
            && (forall i, j :: 0 <= i < |t.rows| && 0 <= j < |t.columns| && t.kinds[j] == Object && t.rows[i][j].None? ==>
                  r.rows[i][j].Some? && IsFirstMode(r.rows[i][j].value.s, PresentTexts(Column(t.rows, j))))
  {
    forall i, j | 0 <= i < |t.rows| && 0 <= j < |t.columns| && t.kinds[j] == Object
      ensures ImputeObject(t).value.rows[i][j].Some?
    {
      assert !EmptyObjectColumn(t, j);
    }
  }
}
