/** `finalize_types` (utils.py): "release_year" and "duration_min" rounded
    to whole numbers and stored as nullable integers, "imdb_rating" rounded
    to one decimal place. */
module Finalize {
  import opened Frame
  import Stats

  predicate IsRoundedName(n: string) {
    n == "release_year" || n == "duration_min" || n == "imdb_rating"
  }

  lemma IntegralOneDecimal(x: real)
    requires Stats.IsIntegral(x)
    ensures Stats.OneDecimal(x)
  {
    var n := x.Floor;
    assert x * 10.0 == (n * 10) as real;
  }

  /** `round()` (when `toInt`) or `round(1)` of one cell of a numeric column. */
  function RoundCell(c: Cell, toInt: bool): (r: Cell)
    ensures r.Absent? <==> c.Absent?
    ensures r.Num? <==> c.Num?
    ensures r.Num? && toInt ==> Stats.IsIntegral(r.x) && c.x - 0.5 <= r.x <= c.x + 0.5
    ensures r.Num? && toInt && (r.x == c.x - 0.5 || r.x == c.x + 0.5) ==> r.x.Floor % 2 == 0
    ensures r.Num? && !toInt ==> Stats.OneDecimal(r.x) && c.x - 0.05 <= r.x <= c.x + 0.05
    ensures r.Num? && !toInt && (r.x == c.x - 0.05 || r.x == c.x + 0.05) ==> (r.x * 10.0).Floor % 2 == 0
  {
    match c
    case Num(x) => if toInt then Num(Stats.RoundHalfEven(x) as real) else Num(Stats.Round1(x))
    case _ => c
  }

  /** What rounding a numeric column leaves: the same missing cells, and each
      value replaced by its rounding, which lies within half a unit of it
      (half a tenth for `round(1)`) and is a whole number, or has at most
      one decimal place. */
  predicate RoundedFrom(before: Column, after: Column, toInt: bool) {
    && after.name == before.name
    && after.dtype == (if toInt then Int64 else before.dtype)
    && |after.cells| == |before.cells|
    && forall i :: 0 <= i < |before.cells| ==>
         var b, a := before.cells[i], after.cells[i];
         && (a.Absent? <==> b.Absent?)
         && (a.Num? <==> b.Num?)
         && (a.Num? && b.Num? && toInt ==>
               Stats.IsIntegral(a.x) && b.x - 0.5 <= a.x <= b.x + 0.5 &&
               a.x == Stats.RoundHalfEven(b.x) as real)
         && (a.Num? && b.Num? && !toInt ==>
               Stats.OneDecimal(a.x) && b.x - 0.05 <= a.x <= b.x + 0.05 && a.x == Stats.Round1(b.x))
  }

  /** `round()` takes some value of the column beyond the 64-bit range, so
      that `astype("Int64")` raises. */
  predicate Overflows(c: Column) {
    exists i :: 0 <= i < |c.cells| && c.cells[i].Num? && !InInt64(Stats.RoundHalfEven(c.cells[i].x) as real)
  }

  /** `round()`/`round(1)` of a column, which raises unless it is numeric;
      `astype("Int64")` after `round()`, which raises when a rounded value
      does not fit in 64 bits. */
  function RoundColumn(c: Column, height: nat, toInt: bool): (r: Result<Column>)
    requires ColumnFits(c, height)
    ensures r.Ok? <==> IsNumeric(c.dtype) && !(toInt && Overflows(c))
    ensures !IsNumeric(c.dtype) ==> r == Fail(NotNumeric(c.name))
    ensures IsNumeric(c.dtype) && toInt && Overflows(c) ==> r == Fail(OutOfRange(c.name))
    ensures r.Ok? ==> ColumnFits(r.value, height) && RoundedFrom(c, r.value, toInt)
  {
    if !IsNumeric(c.dtype) then Fail(NotNumeric(c.name))
    else if toInt && Overflows(c) then Fail(OutOfRange(c.name))
    else
      var cells := seq(|c.cells|, i requires 0 <= i < |c.cells| => RoundCell(c.cells[i], toInt));
      var d := if toInt then Int64 else c.dtype;
      assert forall i :: 0 <= i < |cells| ==> Fits(d, cells[i]) by {
        forall i | 0 <= i < |cells| ensures Fits(d, cells[i]) {
          if d == Int64 && !toInt && cells[i].Num? {
            IntegralOneDecimal(c.cells[i].x);
            Stats.Round1OneDecimal(c.cells[i].x);
          }
        }
      }
      Ok(c.(dtype := d, cells := cells))
  }

  /** The column called `name` is present and cannot be rounded. */
  predicate Unroundable(t: Table, name: string) {
    var k := Find(t.columns, name);
    k >= 0 && !IsNumeric(t.columns[k].dtype)
  }

  /** The column called `name` is present and numeric, and `round()` takes
      one of its values beyond the 64-bit range. */
  predicate Overflowing(t: Table, name: string) {
    var k := Find(t.columns, name);
    k >= 0 && IsNumeric(t.columns[k].dtype) && Overflows(t.columns[k])
  }

  /** The line of `finalize_types` for the column called `name` raises. */
  predicate Blocked(t: Table, name: string) {
    Unroundable(t, name) || (name != "imdb_rating" && Overflowing(t, name))
  }

  /** A column after `finalize_types`: rounded when it is one of the three,
      to whole numbers unless it is "imdb_rating". */
  function FinalColumn(c: Column, height: nat): (r: Column)
    requires ColumnFits(c, height) && (IsRoundedName(c.name) ==> IsNumeric(c.dtype))
    requires IsRoundedName(c.name) && c.name != "imdb_rating" ==> !Overflows(c)
    ensures ColumnFits(r, height) && r.name == c.name
    ensures IsRoundedName(c.name) ==> RoundedFrom(c, r, c.name != "imdb_rating")
    ensures !IsRoundedName(c.name) ==> r == c
  {
    if IsRoundedName(c.name) then RoundColumn(c, height, c.name != "imdb_rating").value else c
  }

  /** Every rounded column is numeric, and none of the two rounded to whole
      numbers overflows. */
  predicate Finalizable(t: Table) {
    && (forall j :: 0 <= j < |t.columns| && IsRoundedName(t.columns[j].name) ==> IsNumeric(t.columns[j].dtype))
    && !Overflowing(t, "release_year") && !Overflowing(t, "duration_min")
  }

  lemma FinalizableColumns(t: Table)
    requires WellFormed(t) && Finalizable(t)
    ensures forall j :: 0 <= j < |t.columns| && IsRoundedName(t.columns[j].name) && t.columns[j].name != "imdb_rating" ==>
              !Overflows(t.columns[j])
  {
    forall j | 0 <= j < |t.columns| && IsRoundedName(t.columns[j].name) && t.columns[j].name != "imdb_rating"
      ensures !Overflows(t.columns[j])
    {
      FindUnique(t.columns, j);
    }
  }

  /** `finalize_types`. The three lines run in order and the first that
      raises decides the failure: a present, non-numeric column, or for the
      two whole-number columns a rounded value beyond 64 bits; otherwise
      those three columns are rounded and every other column is left as it
      is. */
  function FinalizeTypes(t: Table): (r: Result<Table>)
    requires WellFormed(t)
    ensures r.Ok? <==> Finalizable(t)
    ensures Unroundable(t, "release_year") ==> r == Fail(NotNumeric("release_year"))
    ensures Overflowing(t, "release_year") ==> r == Fail(OutOfRange("release_year"))
    ensures !Blocked(t, "release_year") && Unroundable(t, "duration_min") ==> r == Fail(NotNumeric("duration_min"))
    ensures !Blocked(t, "release_year") && Overflowing(t, "duration_min") ==> r == Fail(OutOfRange("duration_min"))
    ensures !Blocked(t, "release_year") && !Blocked(t, "duration_min") && Unroundable(t, "imdb_rating") ==>
              r == Fail(NotNumeric("imdb_rating"))
    ensures r.Ok? ==> WellFormed(r.value) && r.value.height == t.height && |r.value.columns| == |t.columns|
    ensures r.Ok? ==> forall j :: 0 <= j < |t.columns| && !IsRoundedName(t.columns[j].name) ==> r.value.columns[j] == t.columns[j]
    ensures r.Ok? ==> forall j :: 0 <= j < |t.columns| && IsRoundedName(t.columns[j].name) ==>
              RoundedFrom(t.columns[j], r.value.columns[j], t.columns[j].name != "imdb_rating")
  {
    if Unroundable(t, "release_year") then Fail(NotNumeric("release_year"))
    else if Overflowing(t, "release_year") then Fail(OutOfRange("release_year"))
    else if Unroundable(t, "duration_min") then Fail(NotNumeric("duration_min"))
    else if Overflowing(t, "duration_min") then Fail(OutOfRange("duration_min"))
    else if Unroundable(t, "imdb_rating") then Fail(NotNumeric("imdb_rating"))
    else
      assert forall j :: 0 <= j < |t.columns| && IsRoundedName(t.columns[j].name) ==> IsNumeric(t.columns[j].dtype) by {
        forall j | 0 <= j < |t.columns| && IsRoundedName(t.columns[j].name) ensures IsNumeric(t.columns[j].dtype) {
          FindUnique(t.columns, j);
        }
      }
      FinalizableColumns(t);
      Ok(Table(seq(|t.columns|, j requires 0 <= j < |t.columns| => FinalColumn(t.columns[j], t.height)), t.height))
  }

  /** When the three rounded columns are numeric, `finalize_types` raises
      only on a 64-bit overflow of "release_year" or "duration_min". */
  lemma NumericFinalizeFails(t: Table)
    requires WellFormed(t)
    requires forall j :: 0 <= j < |t.columns| && IsRoundedName(t.columns[j].name) ==> IsNumeric(t.columns[j].dtype)
    ensures FinalizeTypes(t).Fail? <==> Overflowing(t, "release_year") || Overflowing(t, "duration_min")
    ensures FinalizeTypes(t).Fail? ==>
              FinalizeTypes(t).failure == OutOfRange("release_year") || FinalizeTypes(t).failure == OutOfRange("duration_min")
  {
    var names := ["release_year", "duration_min", "imdb_rating"];
    forall n | n in names ensures !Unroundable(t, n) {
      var k := Find(t.columns, n);
      if k >= 0 {
        assert IsRoundedName(t.columns[k].name);
      }
    }
    assert !Unroundable(t, "release_year") && !Unroundable(t, "duration_min") && !Unroundable(t, "imdb_rating");
  }

  /** A duration of 10^19 minutes is validated (it is positive) but
      `astype("Int64")` cannot hold it: `finalize_types` raises. */
  lemma HugeDurationRaises()
    ensures var t := Table([Column("duration_min", Float, [Num(10000000000000000000.0)])], 1);
            FinalizeTypes(t) == Fail(OutOfRange("duration_min"))
  {
    var c := Column("duration_min", Float, [Num(10000000000000000000.0)]);
    var t := Table([c], 1);
    Stats.RoundIntegral(10000000000000000000.0);
    assert c.cells[0].Num? && !InInt64(Stats.RoundHalfEven(c.cells[0].x) as real);
    assert Find(t.columns, "release_year") == -1;
    assert Find(t.columns, "duration_min") == 0;
  }

  /** Values an "Int64" column already holds round to themselves, so they
      never overflow. */
  lemma Int64NeverOverflows(c: Column, height: nat)
    requires ColumnFits(c, height) && c.dtype == Int64
    ensures !Overflows(c)
  {
    forall i | 0 <= i < |c.cells| && c.cells[i].Num?
      ensures InInt64(Stats.RoundHalfEven(c.cells[i].x) as real)
    {
      Stats.RoundIntegral(c.cells[i].x);
    }
  }

  /** Rounding an already rounded column changes nothing. */
  lemma FinalColumnIdempotent(c: Column, height: nat)
    requires ColumnFits(c, height) && (IsRoundedName(c.name) ==> IsNumeric(c.dtype))
    requires IsRoundedName(c.name) && c.name != "imdb_rating" ==> !Overflows(c)
    ensures var r := FinalColumn(c, height);
            IsRoundedName(r.name) && r.name != "imdb_rating" ==> !Overflows(r)
    ensures FinalColumn(FinalColumn(c, height), height) == FinalColumn(c, height)
  {
    var r := FinalColumn(c, height);
    if IsRoundedName(c.name) {
      var toInt := c.name != "imdb_rating";
      if toInt {
        Int64NeverOverflows(r, height);
      }
      var r2 := FinalColumn(r, height);
      forall i | 0 <= i < |r.cells| ensures r2.cells[i] == r.cells[i] {
        if r.cells[i].Num? {
          if toInt {
            Stats.RoundIntegral(r.cells[i].x);
          } else {
            Stats.Round1OneDecimal(r.cells[i].x);
          }
        }
      }
      assert r2.cells == r.cells;
    }
  }

  /** `finalize_types` is idempotent: a table it has produced passes through
      it again unchanged. */
  lemma FinalizeTypesIdempotent(t: Table)
    requires WellFormed(t) && FinalizeTypes(t).Ok?
    ensures FinalizeTypes(FinalizeTypes(t).value) == FinalizeTypes(t)
  {
    var r := FinalizeTypes(t).value;
    FinalizableColumns(t);
    forall j | 0 <= j < |r.columns| && IsRoundedName(r.columns[j].name) && r.columns[j].name != "imdb_rating"
      ensures !Overflows(r.columns[j])
    {
      FinalColumnIdempotent(t.columns[j], t.height);
    }
    assert Finalizable(r) by {
      assert forall j :: 0 <= j < |r.columns| && IsRoundedName(r.columns[j].name) ==> IsNumeric(r.columns[j].dtype);
    }
    var r2 := FinalizeTypes(r).value;
    forall j | 0 <= j < |r.columns| ensures r2.columns[j] == r.columns[j] {
      FinalColumnIdempotent(t.columns[j], t.height);
    }
    assert r2.columns == r.columns;
  }

}
