/**
 * The cleaning and feature-derivation part of the analysis script, run in its
 * order: clean the column names, fill numeric then object columns, drop duplicate
 * rows, add the two flags and the age groups (the age groups twice, as the script
 * recomputes them before its second chart), then select the top-5-country rows.
 */
module Script {
  import opened Wrappers
  import opened Tables
  import Sequences
  import ColumnNames
  import Imputation
  import Dedup
  import Features
  import Countries
  import Frames

  /** No object column has a missing cell. */
  predicate ObjectComplete(t: Table)
    requires Valid(t)
  {
    forall i, j :: 0 <= i < |t.rows| && 0 <= j < |t.columns| && t.kinds[j] == Object ==> t.rows[i][j].Some?
  }

  /** Every numeric column is either complete or has no present value at all (its median is NaN). */
  predicate NumericSettled(t: Table)
    requires Valid(t)
  {
    forall j :: 0 <= j < |t.columns| && t.kinds[j] == Numeric ==>
      (forall i :: 0 <= i < |t.rows| ==> t.rows[i][j].Some?) || (forall i :: 0 <= i < |t.rows| ==> t.rows[i][j].None?)
  }

  /** With a median that is a number whenever the column holds one, numeric imputation settles every numeric column. */
  lemma ImputedNumericSettled(t: Table, median: seq<Cell> -> Option<real>)
    requires Valid(t) && Imputation.MedianDefined(median)
    ensures NumericSettled(Imputation.ImputedNumeric(t, median))
  {
    var r := Imputation.ImputedNumeric(t, median);
    forall j | 0 <= j < |t.columns| && t.kinds[j] == Numeric
      ensures (forall i :: 0 <= i < |t.rows| ==> r.rows[i][j].Some?) || (forall i :: 0 <= i < |t.rows| ==> r.rows[i][j].None?)
    {
      var col := Column(t.rows, j);
      if median(col).None? {
        forall i | 0 <= i < |t.rows|
          ensures r.rows[i][j].None?
        {
          assert col[i] == t.rows[i][j];
        }
      }
    }
  }

  /** Object imputation completes the object columns and leaves numeric columns as they were. */
  lemma ImputeObjectSettles(t: Table)
    requires Valid(t) && Imputation.ImputeObject(t).Ok?
    ensures Valid(Imputation.ImputeObject(t).value)
    ensures ObjectComplete(Imputation.ImputeObject(t).value)
    ensures NumericSettled(t) ==> NumericSettled(Imputation.ImputeObject(t).value)
  {
    Imputation.ImputeObjectSpec(t);
  }

  /** Keeping only some of the rows keeps both properties. */
  lemma SubsetOfRowsSettled(t: Table, rows: seq<Row>)
    requires Valid(t) && ObjectComplete(t)
    requires forall k :: 0 <= k < |rows| ==> rows[k] in t.rows
    ensures Valid(Table(t.columns, t.kinds, rows))
    ensures ObjectComplete(Table(t.columns, t.kinds, rows))
    ensures NumericSettled(t) ==> NumericSettled(Table(t.columns, t.kinds, rows))
  {
    SubsetOfRowsValid(t, rows);
    forall j | NumericSettled(t) && 0 <= j < |t.columns| && t.kinds[j] == Numeric
      ensures (forall k :: 0 <= k < |rows| ==> rows[k][j].Some?) || (forall k :: 0 <= k < |rows| ==> rows[k][j].None?)
    {
      if forall i :: 0 <= i < |t.rows| ==> t.rows[i][j].Some? {
        forall k | 0 <= k < |rows|
          ensures rows[k][j].Some?
        {
          var i :| 0 <= i < |t.rows| && t.rows[i] == rows[k];
        }
      } else {
        forall k | 0 <= k < |rows|
          ensures rows[k][j].None?
        {
          var i :| 0 <= i < |t.rows| && t.rows[i] == rows[k];
        }
      }
    }
    forall k, j | 0 <= k < |rows| && 0 <= j < |t.columns| && t.kinds[j] == Object
      ensures rows[k][j].Some?
    {
      var i :| 0 <= i < |t.rows| && t.rows[i] == rows[k];
    }
  }

  /** Assigning a column that is neither numeric nor object keeps both properties. */
  lemma WithColumnSettled(t: Table, name: string, kind: Kind, values: seq<Cell>)
    requires Valid(t) && ObjectComplete(t)
    requires kind != Numeric && kind != Object
    requires |values| == |t.rows| && forall i :: 0 <= i < |values| ==> Fits(kind, values[i])
    ensures ObjectComplete(WithColumn(t, name, kind, values))
    ensures NumericSettled(t) ==> NumericSettled(WithColumn(t, name, kind, values))
  {
    var r := WithColumn(t, name, kind, values);
    var j := ColumnIndex(r.columns, name).value;
    assert name !in t.columns ==> j == |t.columns|;
    assert forall k :: 0 <= k < |r.columns| && r.kinds[k] in {Numeric, Object} ==> k != j && k < |t.columns|;
  }

  lemma AssignFlagSettled(t: Table, source: string, threshold: real, target: string)
    requires Valid(t) && ObjectComplete(t)
    requires Features.AssignFlag(t, source, threshold, target).Ok?
    ensures ObjectComplete(Features.AssignFlag(t, source, threshold, target).value)
    ensures NumericSettled(t) ==> NumericSettled(Features.AssignFlag(t, source, threshold, target).value)
  {
    var s := ColumnIndex(t.columns, source).value;
    var values := seq(|t.rows|, i requires 0 <= i < |t.rows| => Some(Bool(Features.Exceeds(t.rows[i][s], threshold))));
    WithColumnSettled(t, target, Boolean, values);
  }

  lemma AssignAgeGroupSettled(t: Table)
    requires Valid(t) && ObjectComplete(t)
    requires Features.AssignAgeGroup(t).Ok?
    ensures ObjectComplete(Features.AssignAgeGroup(t).value)
    ensures NumericSettled(t) ==> NumericSettled(Features.AssignAgeGroup(t).value)
  {
    var a := ColumnIndex(t.columns, "Age").value;
    var groups := seq(|t.rows|, i requires 0 <= i < |t.rows| => Features.AgeGroupCell(t.rows[i][a]));
    WithColumnSettled(t, "Age_Group", Categorical, groups);
  }

  lemma PrefixTransitive(a: seq<string>, b: seq<string>, c: seq<string>)
    requires a <= b && b <= c
    ensures a <= c && forall x :: x in a ==> x in c
  {
    assert c[..|a|] == a;
  }

  // ----- the script's steps as functions of the table -----

  /** The table after line 10: every column name cleaned, nothing else changed. */
  function Renamed(t: Table): (r: Table)
    requires Valid(t)
    ensures Valid(r) && r.columns == ColumnNames.CleanNames(t.columns)
    ensures r.kinds == t.kinds && r.rows == t.rows
  {
    Table(ColumnNames.CleanNames(t.columns), t.kinds, t.rows)
  }

  /**
   * Lines 10-43 on the loaded table: the table they leave and the error that stops them, if
   * any. When an object column has no mode, the object columns before it stay filled.
   */
  function Cleaned(t: Table, median: seq<Cell> -> Option<real>): (r: (Table, Option<Error>))
    requires Valid(t)
    ensures Valid(r.0)
  {
    var numeric := Imputation.ImputedNumeric(Renamed(t), median);
    match Imputation.ImputeObject(numeric)
    case Err(e) => (Imputation.ImputedObjectUpTo(numeric, Imputation.FirstEmptyObject(numeric, 0).value), Some(e))
    case Ok(f) =>
      SubsetOfRowsValid(f, Dedup.Dedup(f.rows));
      (Table(f.columns, f.kinds, Dedup.Dedup(f.rows)), None)
  }

  /**
   * Lines 49-62 and 127-129: the two flags, then the age groups twice. The result is the table
   * when the first failing assignment is reached, with its error, or the final table.
   */
  function Derived(t: Table): (r: (Table, Option<Error>))
    requires Valid(t)
    ensures Valid(r.0)
  {
    match Features.AssignFlag(t, "Discover_Weekly_Engagement_", 70.0, "High_Engagement")
    case Err(e) => (t, Some(e))
    case Ok(t1) =>
      match Features.AssignFlag(t1, "Number_of_Songs_Liked", 50.0, "Heavy_Liker")
      case Err(e) => (t1, Some(e))
      case Ok(t2) =>
        match Features.AssignAgeGroup(t2)
        case Err(e) => (t2, Some(e))
        case Ok(t3) =>
          match Features.AssignAgeGroup(t3)
          case Err(e) => (t3, Some(e))
          case Ok(t4) => (t4, None)
  }

  /** The cleaning, the derived columns and the top-5-country filter, in the script's order. */
  function Pipeline(t: Table, median: seq<Cell> -> Option<real>): (r: Result<(Table, Table), Error>)
    requires Valid(t)
    ensures r.Ok? ==> Valid(r.value.0) && Valid(r.value.1)
  {
    var cleaned := Cleaned(t, median);
    if cleaned.1.Some? then Err(cleaned.1.value)
    else
      var derived := Derived(cleaned.0);
      if derived.1.Some? then Err(derived.1.value)
      else
        match Countries.TopCountryRows(derived.0)
        case Err(e) => Err(e)
        case Ok(top) => Ok((derived.0, top))
  }

  /** A successful derivation is the two flag assignments and one age-group assignment. */
  lemma DerivedSteps(t: Table) returns (t1: Table, t2: Table, t3: Table)
    requires Valid(t) && Derived(t).1.None?
    ensures Features.AssignFlag(t, "Discover_Weekly_Engagement_", 70.0, "High_Engagement") == Ok(t1) && Valid(t1)
    ensures Features.AssignFlag(t1, "Number_of_Songs_Liked", 50.0, "Heavy_Liker") == Ok(t2) && Valid(t2)
    ensures Features.AssignAgeGroup(t2) == Ok(t3) && Valid(t3)
    ensures Derived(t).0 == t3
  {
    t1 := Features.AssignFlag(t, "Discover_Weekly_Engagement_", 70.0, "High_Engagement").value;
    t2 := Features.AssignFlag(t1, "Number_of_Songs_Liked", 50.0, "Heavy_Liker").value;
    t3 := Features.AssignAgeGroup(t2).value;
    Features.AssignAgeGroupConsistent(t2);
    Features.ConsistentAgeGroupsFixed(t3);
  }

  /** High_Engagement holds, row by row, whether Discover_Weekly_Engagement_ of the input exceeds 70. */
  lemma DerivedEngagement(t: Table)
    requires Valid(t) && Derived(t).1.None?
    ensures "Discover_Weekly_Engagement_" in t.columns && "High_Engagement" in Derived(t).0.columns
    ensures var r := Derived(t).0;
            var e := ColumnIndex(t.columns, "Discover_Weekly_Engagement_").value;
            var he := ColumnIndex(r.columns, "High_Engagement").value;
            && |r.rows| == |t.rows| && r.kinds[he] == Boolean
            && forall i :: 0 <= i < |t.rows| ==> r.rows[i][he] == Some(Bool(Features.Exceeds(t.rows[i][e], 70.0)))
  {
    var t1, t2, t3 := DerivedSteps(t);
    AssignedOnlyKeeps(t1, t2, "Heavy_Liker", "High_Engagement");
    AssignedOnlyKeeps(t2, t3, "Age_Group", "High_Engagement");
  }

  /** Heavy_Liker holds, row by row, whether Number_of_Songs_Liked of the input exceeds 50. */
  lemma DerivedHeavyLiker(t: Table)
    requires Valid(t) && Derived(t).1.None?
    ensures "Number_of_Songs_Liked" in t.columns && "Heavy_Liker" in Derived(t).0.columns
    ensures var r := Derived(t).0;
            var n := ColumnIndex(t.columns, "Number_of_Songs_Liked").value;
            var hl := ColumnIndex(r.columns, "Heavy_Liker").value;
            && |r.rows| == |t.rows| && r.kinds[hl] == Boolean
            && forall i :: 0 <= i < |t.rows| ==> r.rows[i][hl] == Some(Bool(Features.Exceeds(t.rows[i][n], 50.0)))
  {
    var t1, t2, t3 := DerivedSteps(t);
    assert "Number_of_Songs_Liked" in t.columns by {
      assert "Number_of_Songs_Liked" in t1.columns;
    }
    AssignedOnlyKeeps(t, t1, "High_Engagement", "Number_of_Songs_Liked");
    AssignedOnlyKeeps(t2, t3, "Age_Group", "Heavy_Liker");
  }

  /** Age_Group agrees with Age in the derived table, and the input's names are a prefix of its names. */
  lemma DerivedAgeGroups(t: Table)
    requires Valid(t) && Derived(t).1.None?
    ensures t.columns <= Derived(t).0.columns
    ensures Features.AgeGroupsConsistent(Derived(t).0)
  {
    var t1, t2, t3 := DerivedSteps(t);
    Features.AssignAgeGroupConsistent(t2);
    PrefixTransitive(t.columns, t1.columns, t2.columns);
    PrefixTransitive(t.columns, t2.columns, t3.columns);
  }

  /** Every column of the input whose name is not one of the three derived ones is kept as it was. */
  lemma DerivedKeepsInput(t: Table)
    requires Valid(t) && Derived(t).1.None?
    ensures |Derived(t).0.rows| == |t.rows|
    ensures forall k :: 0 <= k < |t.columns| && t.columns[k] != "High_Engagement" &&
                        t.columns[k] != "Heavy_Liker" && t.columns[k] != "Age_Group" ==>
              && Derived(t).0.columns[k] == t.columns[k] && Derived(t).0.kinds[k] == t.kinds[k]
              && forall i :: 0 <= i < |t.rows| ==> Derived(t).0.rows[i][k] == t.rows[i][k]
  {
    var t1, t2, t3 := DerivedSteps(t);
    forall k | 0 <= k < |t.columns| && t.columns[k] != "High_Engagement" &&
               t.columns[k] != "Heavy_Liker" && t.columns[k] != "Age_Group"
      ensures t3.columns[k] == t.columns[k] && t3.kinds[k] == t.kinds[k]
      ensures forall i :: 0 <= i < |t.rows| ==> t3.rows[i][k] == t.rows[i][k]
    {
      ThreeAssignmentsKeep(t, t1, t2, t3, k);
    }
  }

  /** Three assignments of other names leave column k where and as it was. */
  lemma ThreeAssignmentsKeep(t: Table, t1: Table, t2: Table, t3: Table, k: nat)
    requires Valid(t) && Valid(t1) && Valid(t2) && Valid(t3)
    requires AssignedOnly(t, t1, "High_Engagement") && AssignedOnly(t1, t2, "Heavy_Liker") && AssignedOnly(t2, t3, "Age_Group")
    requires k < |t.columns| && t.columns[k] != "High_Engagement" && t.columns[k] != "Heavy_Liker" && t.columns[k] != "Age_Group"
    ensures t3.columns[k] == t.columns[k] && t3.kinds[k] == t.kinds[k]
    ensures forall i :: 0 <= i < |t.rows| ==> t3.rows[i][k] == t.rows[i][k]
  {
    AssignedOnlyKeepsAt(t, t1, "High_Engagement", k);
    AssignedOnlyKeepsAt(t1, t2, "Heavy_Liker", k);
    AssignedOnlyKeepsAt(t2, t3, "Age_Group", k);
  }

  // ----- the script's steps on the frame -----

  /** Lines 10-43 of the script: clean the names, fill the missing values, drop duplicate rows. */
  method Clean(df: Frames.Frame, median: seq<Cell> -> Option<real>) returns (err: Option<Error>)
    requires df.Valid()
    modifies df
    ensures df.Valid()
    ensures (df.Snapshot(), err) == Cleaned(old(df.Snapshot()), median)
    ensures err.None? ==> df.columns == ColumnNames.CleanNames(old(df.columns))
    ensures err.None? ==> ObjectComplete(df.Snapshot())
    ensures err.None? && Imputation.MedianDefined(median) ==> NumericSettled(df.Snapshot())
    ensures err.None? ==> Sequences.Distinct(df.rows)
  {
    ghost var start := df.Snapshot();
    df.CleanColumnNames();
    ghost var cleaned := df.Snapshot();
    assert cleaned == Renamed(start);
    df.FillNumeric(median);
    if Imputation.MedianDefined(median) {
      ImputedNumericSettled(cleaned, median);
    }
    ghost var numeric := df.Snapshot();
    err := df.FillObject();
    if err.Some? {
      return;
    }
    ImputeObjectSettles(numeric);
    ghost var filled := df.Snapshot();
    df.DropDuplicates();
    SubsetOfRowsSettled(filled, df.rows);
  }

  /** Lines 49-62 and 127-129 of the script: the two flags and the age groups, twice. */
  method Derive(df: Frames.Frame) returns (err: Option<Error>)
    requires df.Valid()
    modifies df
    ensures df.Valid()
    ensures (df.Snapshot(), err) == Derived(old(df.Snapshot()))
    ensures err.None? && ObjectComplete(old(df.Snapshot())) ==> ObjectComplete(df.Snapshot())
    ensures err.None? && ObjectComplete(old(df.Snapshot())) && NumericSettled(old(df.Snapshot())) ==>
              NumericSettled(df.Snapshot())
  {
    ghost var start := df.Snapshot();
    err := df.AddFlag("Discover_Weekly_Engagement_", 70.0, "High_Engagement");
    if err.Some? {
      return;
    }
    if ObjectComplete(start) {
      AssignFlagSettled(start, "Discover_Weekly_Engagement_", 70.0, "High_Engagement");
    }
    ghost var engaged := df.Snapshot();
    err := df.AddFlag("Number_of_Songs_Liked", 50.0, "Heavy_Liker");
    if err.Some? {
      return;
    }
    if ObjectComplete(engaged) {
      AssignFlagSettled(engaged, "Number_of_Songs_Liked", 50.0, "Heavy_Liker");
    }
    ghost var liked := df.Snapshot();
    err := df.AddAgeGroup();
    if err.Some? {
      return;
    }
    if ObjectComplete(liked) {
      AssignAgeGroupSettled(liked);
    }
    Features.AssignAgeGroupConsistent(liked);
    // The second assignment of the age groups recomputes the same column.
    Features.ConsistentAgeGroupsFixed(df.Snapshot());
    err := df.AddAgeGroup();
  }

  /**
   * The script's table pipeline on the loaded table t. On success it returns the final frame
   * and the top-5-country frame; an error is the exception one of the modelled lines raises.
   */
  method Run(t: Table, median: seq<Cell> -> Option<real>) returns (r: Result<(Table, Table), Error>)
    requires Valid(t)
    ensures r == Pipeline(t, median)
    ensures r.Ok? ==> ColumnNames.CleanNames(t.columns) <= r.value.0.columns
    ensures r.Ok? ==> "High_Engagement" in r.value.0.columns && "Heavy_Liker" in r.value.0.columns
    ensures r.Ok? ==> ObjectComplete(r.value.0)
    ensures r.Ok? && Imputation.MedianDefined(median) ==> NumericSettled(r.value.0)
    ensures r.Ok? ==> Features.AgeGroupsConsistent(r.value.0)
  {
    var df := new Frames.Frame(t);
    var err := Clean(df, median);
    if err.Some? {
      return Err(err.value);
    }
    ghost var cleaned := df.Snapshot();
    err := Derive(df);
    if err.Some? {
      return Err(err.value);
    }
    DerivedEngagement(cleaned);
    DerivedHeavyLiker(cleaned);
    DerivedAgeGroups(cleaned);
    var top := Countries.TopCountryRows(df.Snapshot());
    if top.Err? {
      return Err(top.error);
    }
    return Ok((df.Snapshot(), top.value));
  }
}
