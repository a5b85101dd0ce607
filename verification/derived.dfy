/** The date conversion and the derived profit column, `convert_dates` and
    `enforce_logic` (utils.py). */
module Derived {
  import opened Options
  import opened Frame
  import Stats

  /** The columns `convert_dates` parses, when present. */
  const DateColumns: set<string> := {"order_date", "Order Date"}

  /** `pd.to_datetime(errors="coerce")` on one cell: dates and missing cells
      stay, anything else is parsed and becomes missing when it does not
      parse. */
  function ToDate(env: Env, c: Cell): (r: Cell)
    ensures r.Absent? || r.Date?
    ensures c.Date? || c.Absent? ==> r == c
    ensures !c.Date? && !c.Absent? ==>
              (r.Date? <==> env.toDatetime(c).Some?) && (r.Date? ==> r.day == env.toDatetime(c).value)
  {
    match c
    case Absent => Absent
    case Date(_) => c
    case _ => match env.toDatetime(c) { case Some(d) => Date(d) case None => Absent }
  }

  function DateColumn(env: Env, c: Column): Column {
    if c.name in DateColumns then
      c.(dtype := Datetime, cells := seq(|c.cells|, i requires 0 <= i < |c.cells| => ToDate(env, c.cells[i])))
    else c
  }

  /** `convert_dates`: "order_date" and "Order Date" become datetime columns
      whose cells are parsed dates or missing; the rest is untouched. */
  function ConvertDates(env: Env, t: Table): (r: Table)
    requires WellFormed(t)
    ensures WellFormed(r) && r.height == t.height && |r.columns| == |t.columns|
    ensures forall j :: 0 <= j < |t.columns| ==> r.columns[j].name == t.columns[j].name
    ensures forall j :: 0 <= j < |t.columns| && t.columns[j].name !in DateColumns ==> r.columns[j] == t.columns[j]
    ensures forall j :: 0 <= j < |t.columns| && t.columns[j].name in DateColumns ==> r.columns[j].dtype == Datetime
    ensures forall j, i :: 0 <= j < |t.columns| && 0 <= i < t.height && t.columns[j].name in DateColumns ==>
              r.columns[j].cells[i] == ToDate(env, t.columns[j].cells[i])
  {
    Table(seq(|t.columns|, j requires 0 <= j < |t.columns| => DateColumn(env, t.columns[j])), t.height)
  }

  /** Parsing dates twice is parsing them once. */
  lemma ConvertDatesIdempotent(env: Env, t: Table)
    requires WellFormed(t)
    ensures ConvertDates(env, ConvertDates(env, t)) == ConvertDates(env, t)
  {
    var r := ConvertDates(env, t);
    var r2 := ConvertDates(env, r);
    forall j | 0 <= j < |r.columns| ensures r2.columns[j] == r.columns[j] {
      if r.columns[j].name in DateColumns {
        assert r2.columns[j].cells == r.columns[j].cells;
      }
    }
    assert r2.columns == r.columns;
  }

  /** The 64-bit two's-complement reading of `n`: numpy's int64 arithmetic
      wraps around silently. */
  function Wrap64(n: int): (r: int)
    ensures Int64Min <= r <= Int64Max
    ensures (n - r) % 0x1_0000_0000_0000_0000 == 0
    ensures Int64Min <= n <= Int64Max ==> r == n
  {
    var r := (n - Int64Min) % 0x1_0000_0000_0000_0000 + Int64Min;
    assert n - r == 0x1_0000_0000_0000_0000 * ((n - Int64Min) / 0x1_0000_0000_0000_0000);
    r
  }

  /** One row of `box_office_cr - budget_cr`: missing when either side is;
      taken in int64, wrapping around, when `int64` says both columns are
      "Int64". */
  function Difference(box: Cell, budget: Cell, int64: bool): (r: Cell)
    ensures r.Num? <==> box.Num? && budget.Num?
    ensures r.Num? && !int64 ==> r.x + budget.x == box.x
    ensures r.Num? && int64 ==> Stats.IsIntegral(r.x) && InInt64(r.x)
    ensures r.Num? && int64 ==> (box.x.Floor - budget.x.Floor - r.x.Floor) % 0x1_0000_0000_0000_0000 == 0
    ensures r.Num? && int64 && Stats.IsIntegral(box.x) && Stats.IsIntegral(budget.x) && InInt64(box.x - budget.x) ==>
              r.x + budget.x == box.x
  {
    if box.Num? && budget.Num? then
      if int64 then
        var n := Wrap64(box.x.Floor - budget.x.Floor);
        assert (n as real).Floor == n;
        Num(n as real)
      else Num(box.x - budget.x)
    else Absent
  }

  /** The subtraction needs numeric operands. */
  predicate NumericInputs(t: Table) {
    var b, o := Find(t.columns, "budget_cr"), Find(t.columns, "box_office_cr");
    b >= 0 && o >= 0 ==> IsNumeric(t.columns[b].dtype) && IsNumeric(t.columns[o].dtype)
  }

  /** Both operands of the subtraction are "Int64" columns. */
  predicate IntOperands(t: Table, b: nat, o: nat)
    requires b < |t.columns| && o < |t.columns|
  {
    t.columns[b].dtype == Int64 && t.columns[o].dtype == Int64
  }

  /** Where both inputs exist, "profit_cr" exists and is their difference,
      row by row. */
  predicate ProfitConsistent(t: Table)
    requires WellFormed(t)
  {
    var b, o, p := Find(t.columns, "budget_cr"), Find(t.columns, "box_office_cr"), Find(t.columns, "profit_cr");
    b >= 0 && o >= 0 ==>
      p >= 0 && forall i :: 0 <= i < t.height ==>
        t.columns[p].cells[i] == Difference(t.columns[o].cells[i], t.columns[b].cells[i], IntOperands(t, b, o))
  }

  /** `df["profit_cr"] = df["box_office_cr"] - df["budget_cr"]`: "Int64"
      when both operands are, float otherwise. */
  function ProfitColumn(t: Table, b: nat, o: nat): (c: Column)
    requires WellFormed(t) && b < |t.columns| && o < |t.columns|
    requires IsNumeric(t.columns[b].dtype) && IsNumeric(t.columns[o].dtype)
    ensures c.name == "profit_cr" && ColumnFits(c, t.height)
    ensures c.dtype == if IntOperands(t, b, o) then Int64 else Float
    ensures forall i :: 0 <= i < t.height ==>
              c.cells[i] == Difference(t.columns[o].cells[i], t.columns[b].cells[i], IntOperands(t, b, o))
  {
    var w := IntOperands(t, b, o);
    var d := if w then Int64 else Float;
    var cells := seq(t.height, i requires 0 <= i < t.height => Difference(t.columns[o].cells[i], t.columns[b].cells[i], w));
    Column("profit_cr", d, cells)
  }

  /** `enforce_logic`: when both "budget_cr" and "box_office_cr" exist,
      "profit_cr" is overwritten in place, or appended as the last column,
      with their difference; otherwise the table is unchanged. */
  function EnforceLogic(t: Table): (r: Table)
    requires WellFormed(t) && NumericInputs(t)
    ensures WellFormed(r) && r.height == t.height
    ensures Find(t.columns, "budget_cr") < 0 || Find(t.columns, "box_office_cr") < 0 ==> r == t
    ensures Find(t.columns, "budget_cr") >= 0 && Find(t.columns, "box_office_cr") >= 0 ==>
              && |r.columns| == |t.columns| + (if Find(t.columns, "profit_cr") < 0 then 1 else 0)
              && (forall j :: 0 <= j < |t.columns| && t.columns[j].name != "profit_cr" ==> r.columns[j] == t.columns[j])
              && (forall j :: 0 <= j < |r.columns| && r.columns[j].name != "profit_cr" ==> j < |t.columns|)
              && Find(r.columns, "profit_cr") >= 0 && IsNumeric(r.columns[Find(r.columns, "profit_cr")].dtype)
  {
    var b, o := Find(t.columns, "budget_cr"), Find(t.columns, "box_office_cr");
    if b < 0 || o < 0 then t
    else
      Assign(t, ProfitColumn(t, b, o))
  }

  /** After `enforce_logic`, wherever both inputs exist the profit column is
      their difference, row by row. */
  lemma EnforceLogicConsistent(t: Table)
    requires WellFormed(t) && NumericInputs(t)
    ensures ProfitConsistent(EnforceLogic(t))
  {
    var r := EnforceLogic(t);
    var b, o := Find(t.columns, "budget_cr"), Find(t.columns, "box_office_cr");
    if b >= 0 && o >= 0 {
      assert Find(r.columns, "budget_cr") == b && Find(r.columns, "box_office_cr") == o;
      assert r.columns[Find(r.columns, "profit_cr")] == ProfitColumn(t, b, o);
    }
  }

  /** Deriving the profit twice is deriving it once. */
  lemma EnforceLogicIdempotent(t: Table)
    requires WellFormed(t) && NumericInputs(t)
    ensures NumericInputs(EnforceLogic(t))
    ensures EnforceLogic(EnforceLogic(t)) == EnforceLogic(t)
  {
    var r := EnforceLogic(t);
    var b, o := Find(t.columns, "budget_cr"), Find(t.columns, "box_office_cr");
    if b >= 0 && o >= 0 {
      var p := Find(r.columns, "profit_cr");
      assert ProfitColumn(r, b, o) == r.columns[p];
      assert r.columns[p := r.columns[p]] == r.columns;
    }
  }

}
