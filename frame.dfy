/**
 * The data frame the script mutates step by step: column names are rewritten,
 * columns are filled in place, duplicate rows are dropped in place, and derived
 * columns are assigned one after another. Each method is specified by the pure
 * function that describes its step.
 */
module Frames {
  import opened Wrappers
  import opened Tables
  import ColumnNames
  import Modes
  import Imputation
  import Dedup
  import Features

  class Frame {
    var columns: seq<string>
    var kinds: seq<Kind>
    var rows: seq<Row>

    /** The frame's current contents as a table value. */
    function Snapshot(): Table
      reads this
    {
      Table(columns, kinds, rows)
    }

    predicate Valid()
      reads this
    {
      Tables.Valid(Snapshot())
    }

    /** The frame read from the input file. */
    constructor (t: Table)
      requires Tables.Valid(t)
      ensures Valid() && Snapshot() == t
    {
      columns, kinds, rows := t.columns, t.kinds, t.rows;
    }

    /** Rewrites every column name with `CleanName`; kinds and rows are unchanged. */
    method CleanColumnNames()
      requires Valid()
      modifies this
      ensures Valid()
      ensures columns == ColumnNames.CleanNames(old(columns))
      ensures kinds == old(kinds) && rows == old(rows)
    {
      columns := ColumnNames.CleanNames(columns);
    }

    /** Fills, column by column, the missing cells of each numeric column with that column's median. */
    method FillNumeric(median: seq<Cell> -> Option<real>)
      requires Valid()
      modifies this
      ensures Valid()
      ensures Snapshot() == Imputation.ImputedNumeric(old(Snapshot()), median)
    {
      ghost var t := Snapshot();
      var j := 0;
      while j < |columns|
        invariant 0 <= j <= |columns|
        invariant columns == t.columns && kinds == t.kinds && |rows| == |t.rows|
        invariant Valid()
        invariant forall i, k :: 0 <= i < |rows| && 0 <= k < |columns| ==>
                    rows[i][k] == if k < j then Imputation.NumericCell(t, median, i, k) else t.rows[i][k]
      {
        if kinds[j] == Numeric {
          var col := Column(rows, j);
          assert col == Column(t.rows, j);
          rows := Imputation.FillColumn(rows, j, Imputation.NumFill(median(col)));
        }
        j := j + 1;
      }
      SameCells(Snapshot(), Imputation.ImputedNumeric(t, median));
    }

    /**
     * Fills, column by column, the missing cells of each object column with its first mode.
     * Stops with an error at the first object column without a present value; the
     * columns before it stay filled.
     */
    method FillObject() returns (err: Option<Error>)
      requires Valid()
      modifies this
      ensures Valid()
      ensures err.None? <==> Imputation.ImputeObject(old(Snapshot())).Ok?
      ensures err.None? ==> Snapshot() == Imputation.ImputeObject(old(Snapshot())).value
      ensures err.Some? ==>
                var j := Imputation.FirstEmptyObject(old(Snapshot()), 0).value;
                && err == Some(EmptyMode(old(columns)[j]))
                && Snapshot() == Imputation.ImputedObjectUpTo(old(Snapshot()), j)
    {
      ghost var t := Snapshot();
      Imputation.ObjectFillNone(t);
      var j := 0;
      while j < |columns|
        invariant 0 <= j <= |columns| == |t.columns|
        invariant Snapshot() == Imputation.ImputedObjectUpTo(t, j)
        invariant forall k :: 0 <= k < j ==> !Imputation.EmptyObjectColumn(t, k)
      {
        Imputation.ObjectFillStep(t, j);
        if kinds[j] == Object {
          var m := Modes.Mode(PresentTexts(Column(rows, j)));
          if m.None? {
            assert Imputation.FirstEmptyObject(t, 0) == Some(j) by {
              assert Imputation.EmptyObjectColumn(t, j);
            }
            return Some(EmptyMode(columns[j]));
          }
          rows := Imputation.FillColumn(rows, j, Some(Text(m.value)));
        }
        j := j + 1;
      }
      return None;
    }

    /** Removes repeated rows in place, keeping the first of each group of equal rows. */
    method DropDuplicates()
      requires Valid()
      modifies this
      ensures Valid()
      ensures columns == old(columns) && kinds == old(kinds)
      ensures rows == Dedup.Dedup(old(rows))
    {
      var kept: seq<Row> := [];
      var i := 0;
      while i < |rows|
        invariant 0 <= i <= |rows|
        invariant kept == Dedup.Dedup(rows[..i])
      {
        assert rows[..i + 1][..i] == rows[..i];
        kept := if rows[i] in kept then kept else kept + [rows[i]];
        i := i + 1;
      }
      assert rows[..|rows|] == rows;
      SubsetOfRowsValid(Snapshot(), kept);
      rows := kept;
    }

    /** Replace the frame's contents by the table a successful step computed. */
    method Assign(t: Table)
      requires Tables.Valid(t)
      modifies this
      ensures Valid() && Snapshot() == t
    {
      columns, kinds, rows := t.columns, t.kinds, t.rows;
    }

    /** Assigns the boolean column target, true where the source value exceeds the threshold. */
    method AddFlag(source: string, threshold: real, target: string) returns (err: Option<Error>)
      requires Valid()
      modifies this
      ensures Valid()
      ensures match Features.AssignFlag(old(Snapshot()), source, threshold, target)
              case Ok(t) => err.None? && Snapshot() == t
              case Err(e) => err == Some(e) && Snapshot() == old(Snapshot())
    {
      match Features.AssignFlag(Snapshot(), source, threshold, target)
      case Ok(t) =>
        Assign(t);
        err := None;
      case Err(e) =>
        err := Some(e);
    }

    /** Assigns the Age_Group column, the age bucket of each row's Age. */
    method AddAgeGroup() returns (err: Option<Error>)
      requires Valid()
      modifies this
      ensures Valid()
      ensures match Features.AssignAgeGroup(old(Snapshot()))
              case Ok(t) => err.None? && Snapshot() == t
              case Err(e) => err == Some(e) && Snapshot() == old(Snapshot())
    {
      match Features.AssignAgeGroup(Snapshot())
      case Ok(t) =>
        Assign(t);
        err := None;
      case Err(e) =>
        err := Some(e);
    }
  }
}
