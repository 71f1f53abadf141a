/**
 * Derived columns: two strict-threshold flags and the age bucketing done with
 * right-closed intervals, as pd.cut does by default.
 */
module Features {
  import opened Wrappers
  import opened Tables

  // ----- threshold flags -----

  /** The number pandas compares for a cell: a number as itself, a boolean as 0 or 1. */
  function AsNumber(c: Cell): (r: Option<real>)
    ensures r.Some? <==> c.Some? && (c.value.Num? || c.value.Bool?)
    ensures c.Some? && c.value.Num? ==> r == Some(c.value.x)
    ensures c.Some? && c.value.Bool? ==> r == Some(if c.value.b then 1.0 else 0.0)
  {
    match c
    case Some(Num(x)) => Some(x)
    case Some(Bool(b)) => Some(if b then 1.0 else 0.0)
    case _ => None
  }

  /** A cell compared with `> threshold`: true only for a present number strictly above it (NaN compares false). */
  predicate Exceeds(c: Cell, threshold: real)
    ensures c.None? ==> !Exceeds(c, threshold)
    ensures c.Some? && (c.value.Text? || c.value.Label?) ==> !Exceeds(c, threshold)
    ensures c.Some? && c.value.Num? ==> (Exceeds(c, threshold) <==> c.value.x > threshold)
    ensures c.Some? && c.value.Bool? ==> (Exceeds(c, threshold) <==> (if c.value.b then 1.0 else 0.0) > threshold)
  {
    AsNumber(c).Some? && AsNumber(c).value > threshold
  }

  /**
   * Whether column s can be compared with a number: numbers and booleans compare, a
   * categorical column never does (the threshold is not one of its categories), and an object
   * column only when every cell is missing (pandas skips missing values in an object
   * comparison; a present string raises).
   */
  predicate Comparable(t: Table, s: nat)
    requires Valid(t) && s < |t.columns|
  {
    match t.kinds[s]
    case Numeric => true
    case Boolean => true
    case Categorical => false
    case Object => forall i :: 0 <= i < |t.rows| ==> t.rows[i][s].None?
  }

  /**
   * Adds (or overwrites) the boolean column target: whether each source value is strictly above
   * the threshold. Fails with KeyError when the source column is missing and with TypeError
   * when it cannot be compared with a number.
   */
  function AssignFlag(t: Table, source: string, threshold: real, target: string): (r: Result<Table, Error>)
    requires Valid(t)
    ensures r == Err(KeyError(source)) <==> source !in t.columns
    ensures r == Err(TypeError(source)) <==> source in t.columns && !Comparable(t, ColumnIndex(t.columns, source).value)
    ensures r.Err? ==> r == Err(KeyError(source)) || r == Err(TypeError(source))
    ensures r.Ok? ==> Valid(r.value) && AssignedOnly(t, r.value, target) && t.columns <= r.value.columns
    ensures r.Ok? ==>
              var s := ColumnIndex(t.columns, source).value;
              var j := ColumnIndex(r.value.columns, target).value;
              && r.value.kinds[j] == Boolean
              && (forall i :: 0 <= i < |t.rows| ==> r.value.rows[i][j] == Some(Bool(Exceeds(t.rows[i][s], threshold))))
              && (t.kinds[s] == Numeric ==>
                    forall i :: 0 <= i < |t.rows| ==>
                      (r.value.rows[i][j].value.b <==> t.rows[i][s].Some? && t.rows[i][s].value.x > threshold))
              && (t.kinds[s] == Object ==> forall i :: 0 <= i < |t.rows| ==> !r.value.rows[i][j].value.b)
  {
    match ColumnIndex(t.columns, source)
    case None => Err(KeyError(source))
    case Some(s) =>
      if !Comparable(t, s) then Err(TypeError(source))
      else
        var values := seq(|t.rows|, i requires 0 <= i < |t.rows| => Some(Bool(Exceeds(t.rows[i][s], threshold))));
        assert forall i :: 0 <= i < |t.rows| ==> Fits(t.kinds[s], t.rows[i][s]);
        var r := WithColumn(t, target, Boolean, values);
        assert forall i :: 0 <= i < |t.rows| ==> Column(r.rows, ColumnIndex(r.columns, target).value)[i] == values[i];
        Ok(r)
  }

  // ----- interval bucketing -----

  predicate StrictlyIncreasing(bins: seq<real>)
  {
    forall a, b :: 0 <= a < b < |bins| ==> bins[a] < bins[b]
  }

  /** The first interval (bins[k], bins[k+1]] at or after position from that contains x. */
  function CutFrom(bins: seq<real>, x: real, from: nat): (r: Option<nat>)
    ensures r.Some? ==> from <= r.value && r.value + 1 < |bins| && bins[r.value] < x <= bins[r.value + 1]
    ensures r.Some? ==> forall k :: from <= k < r.value ==> !(bins[k] < x <= bins[k + 1])
    ensures r.None? ==> forall k :: from <= k < |bins| - 1 ==> !(bins[k] < x <= bins[k + 1])
    decreases |bins| - from
  {
    if from + 1 >= |bins| then None
    else if bins[from] < x <= bins[from + 1] then Some(from)
    else CutFrom(bins, x, from + 1)
  }

  /** pd.cut with right-closed intervals: the index of the interval (bins[k], bins[k+1]] holding x. */
  function Cut(bins: seq<real>, x: real): (r: Option<nat>)
    ensures r.Some? ==> r.value + 1 < |bins| && bins[r.value] < x <= bins[r.value + 1]
    ensures r.Some? ==> forall k :: 0 <= k < r.value ==> !(bins[k] < x <= bins[k + 1])
    ensures r.None? <==> forall k :: 0 <= k < |bins| - 1 ==> !(bins[k] < x <= bins[k + 1])
  {
    CutFrom(bins, x, 0)
  }

  /** With increasing edges, x falls in interval k exactly when bins[k] < x <= bins[k+1]. */
  lemma CutExact(bins: seq<real>, x: real, k: nat)
    requires StrictlyIncreasing(bins) && k + 1 < |bins|
    ensures Cut(bins, x) == Some(k) <==> bins[k] < x <= bins[k + 1]
  {
    if bins[k] < x <= bins[k + 1] {
      var r := Cut(bins, x);
      assert r.Some?;
    }
  }

  /** A value outside (bins[0], bins[last]] falls in no interval. */
  lemma CutOutside(bins: seq<real>, x: real)
    requires StrictlyIncreasing(bins) && |bins| >= 2
    ensures Cut(bins, x).None? <==> x <= bins[0] || x > bins[|bins| - 1]
  {
    if bins[0] < x <= bins[|bins| - 1] {
      var k := LastEdgeBelow(bins, x, |bins| - 1);
      assert bins[k] < x <= bins[k + 1];
    }
  }

  /** The last edge below x, searching downwards from position hi. */
  lemma {:induction false} LastEdgeBelow(bins: seq<real>, x: real, hi: nat) returns (k: nat)
    requires |bins| >= 2 && 0 < hi < |bins| && bins[0] < x <= bins[hi]
    ensures k < hi && bins[k] < x <= bins[k + 1]
    decreases hi
  {
    if bins[hi - 1] < x {
      k := hi - 1;
    } else {
      k := LastEdgeBelow(bins, x, hi - 1);
    }
  }

  /** A larger value never falls in an earlier interval. */
  lemma CutMonotone(bins: seq<real>, x: real, y: real)
    requires StrictlyIncreasing(bins) && x <= y
    requires Cut(bins, x).Some? && Cut(bins, y).Some?
    ensures Cut(bins, x).value <= Cut(bins, y).value
  {
  }

  // ----- age groups -----

  const AgeBins: seq<real> := [10.0, 18.0, 25.0, 35.0, 50.0, 65.0]
  const AgeLabels: seq<string> := ["Teen (13-18)", "Young Adult (19-25)", "Adult (26-35)", "Mid-age (36-50)", "Senior (51+)"]

  lemma AgeBinsIncreasing()
    ensures StrictlyIncreasing(AgeBins) && |AgeBins| == |AgeLabels| + 1
  {
  }

  /** The label pd.cut gives an age, or None when the age lies outside (10, 65]. */
  function AgeGroup(age: real): (r: Option<string>)
    ensures r.Some? ==> r.value in AgeLabels
  {
    match Cut(AgeBins, age)
    case Some(k) => Some(AgeLabels[k])
    case None => None
  }

  /** An age gets label k exactly when AgeBins[k] < age <= AgeBins[k+1]. */
  lemma AgeGroupExact(age: real, k: nat)
    requires k < |AgeLabels|
    ensures AgeGroup(age) == Some(AgeLabels[k]) <==> AgeBins[k] < age <= AgeBins[k + 1]
  {
    AgeBinsIncreasing();
    CutExact(AgeBins, age, k);
    if AgeGroup(age) == Some(AgeLabels[k]) {
      AgeLabelsDistinct(Cut(AgeBins, age).value, k);
    }
  }

  /** The five labels are different strings. */
  lemma AgeLabelsDistinct(a: nat, b: nat)
    requires a < |AgeLabels| && b < |AgeLabels| && AgeLabels[a] == AgeLabels[b]
    ensures a == b
  {
  }

  /** Ages of 10 or less and above 65 get no group. */
  lemma AgeGroupOutside(age: real)
    ensures AgeGroup(age).None? <==> age <= 10.0 || age > 65.0
  {
    AgeBinsIncreasing();
    CutOutside(AgeBins, age);
  }

  /** An older age never gets an earlier label. */
  lemma AgeGroupMonotone(x: real, y: real)
    requires x <= y && Cut(AgeBins, x).Some? && Cut(AgeBins, y).Some?
    ensures Cut(AgeBins, x).value <= Cut(AgeBins, y).value
  {
    AgeBinsIncreasing();
    CutMonotone(AgeBins, x, y);
  }

  /**
   * The category cell for one age cell; a missing age gives a missing group. pd.cut bins a
   * boolean as 0 or 1.
   */
  function AgeGroupCell(c: Cell): (g: Cell)
    ensures Fits(Categorical, g)
    ensures AsNumber(c).None? ==> g.None?
  {
    match AsNumber(c)
    case Some(x) =>
      (match AgeGroup(x)
       case Some(l) => Some(Label(l))
       case None => None)
    case None => None
  }

  /** The kinds pd.cut accepts: numbers, and booleans (binned as 0 or 1). */
  predicate Binnable(k: Kind)
  {
    k == Numeric || k == Boolean
  }

  /**
   * Adds (or overwrites) the categorical column Age_Group: the label of each row's age bucket.
   * Fails with KeyError when there is no Age column and with TypeError when it holds strings
   * or categories.
   */
  function AssignAgeGroup(t: Table): (r: Result<Table, Error>)
    requires Valid(t)
    ensures r == Err(KeyError("Age")) <==> "Age" !in t.columns
    ensures r == Err(TypeError("Age")) <==> "Age" in t.columns && !Binnable(t.kinds[ColumnIndex(t.columns, "Age").value])
    ensures r.Err? ==> r == Err(KeyError("Age")) || r == Err(TypeError("Age"))
    ensures r.Ok? ==> Valid(r.value) && AssignedOnly(t, r.value, "Age_Group") && t.columns <= r.value.columns
    ensures r.Ok? ==>
              var a := ColumnIndex(t.columns, "Age").value;
              var g := ColumnIndex(r.value.columns, "Age_Group").value;
              && r.value.kinds[g] == Categorical
              && (forall i :: 0 <= i < |t.rows| ==> r.value.rows[i][g] == AgeGroupCell(t.rows[i][a]))
  {
    match ColumnIndex(t.columns, "Age")
    case None => Err(KeyError("Age"))
    case Some(a) =>
      if !Binnable(t.kinds[a]) then Err(TypeError("Age"))
      else
        var groups := seq(|t.rows|, i requires 0 <= i < |t.rows| => AgeGroupCell(t.rows[i][a]));
        var r := WithColumn(t, "Age_Group", Categorical, groups);
        assert forall i :: 0 <= i < |t.rows| ==> Column(r.rows, ColumnIndex(r.columns, "Age_Group").value)[i] == groups[i];
        Ok(r)
  }

  /** A boolean Age column is binned as 0 or 1, which lies below the first edge: no row gets a group. */
  lemma BooleanAgesUngrouped(t: Table)
    requires Valid(t) && AssignAgeGroup(t).Ok?
    requires t.kinds[ColumnIndex(t.columns, "Age").value] == Boolean
    ensures var g := ColumnIndex(AssignAgeGroup(t).value.columns, "Age_Group").value;
            forall i :: 0 <= i < |t.rows| ==> AssignAgeGroup(t).value.rows[i][g].None?
  {
    var a := ColumnIndex(t.columns, "Age").value;
    forall i | 0 <= i < |t.rows|
      ensures AgeGroupCell(t.rows[i][a]).None?
    {
      match AsNumber(t.rows[i][a])
      case Some(x) => AgeGroupOutside(x);
      case None =>
    }
  }

  /** The Age_Group column holds, row by row, the group of the Age column. */
  predicate AgeGroupsConsistent(t: Table)
    requires Valid(t)
  {
    && "Age" in t.columns && "Age_Group" in t.columns
    && var a := ColumnIndex(t.columns, "Age").value;
       var g := ColumnIndex(t.columns, "Age_Group").value;
       && Binnable(t.kinds[a]) && t.kinds[g] == Categorical
       && forall i :: 0 <= i < |t.rows| ==> t.rows[i][g] == AgeGroupCell(t.rows[i][a])
  }

  /** After the assignment, every row's group is the group of its age. */
  lemma AssignAgeGroupConsistent(t: Table)
    requires Valid(t) && AssignAgeGroup(t).Ok?
    ensures AgeGroupsConsistent(AssignAgeGroup(t).value)
  {
    var t1 := AssignAgeGroup(t).value;
    var a := ColumnIndex(t.columns, "Age").value;
    if "Age_Group" !in t.columns {
      ColumnIndexAppend(t.columns, "Age_Group", "Age");
    }
    assert ColumnIndex(t1.columns, "Age") == Some(a);
    var g := ColumnIndex(t1.columns, "Age_Group").value;
    assert g != a;
  }

  /** A table whose groups already agree with its ages is left unchanged by the assignment. */
  lemma ConsistentAgeGroupsFixed(t: Table)
    requires Valid(t) && AgeGroupsConsistent(t)
    ensures AssignAgeGroup(t) == Ok(t)
  {
    var a := ColumnIndex(t.columns, "Age").value;
    var g := ColumnIndex(t.columns, "Age_Group").value;
    var groups := seq(|t.rows|, i requires 0 <= i < |t.rows| => AgeGroupCell(t.rows[i][a]));
    assert Column(t.rows, g) == groups;
    WithColumnSame(t, "Age_Group", Categorical, groups);
  }

  /** Recomputing the age groups on the result reproduces the same table. */
  lemma AssignAgeGroupIdempotent(t: Table)
    requires Valid(t) && AssignAgeGroup(t).Ok?
    ensures AssignAgeGroup(AssignAgeGroup(t).value) == AssignAgeGroup(t)
  {
    AssignAgeGroupConsistent(t);
    ConsistentAgeGroupsFixed(AssignAgeGroup(t).value);
  }
}
