/** `convert_and_validate_numeric` (utils.py): coercion of the six numeric
    columns, their range rules and the median fill of three of them. */
module Numeric {
  import opened Options
  import opened Frame
  import Stats

  /** The range a value must fall in to be kept. */
  datatype Bound = AtLeast(lo: real) | Above(lo: real) | Within(lo: real, hi: real) | Unbounded

  predicate Admits(b: Bound, x: real) {
    match b
    case AtLeast(lo) => x >= lo
    case Above(lo) => x > lo
    case Within(lo, hi) => lo <= x <= hi
    case Unbounded => true
  }

  /** What happens to one numeric column after coercion: values outside
      `bound` are blanked, and when `fillMedian` holds the missing cells are
      then filled with the median of what is left. */
  datatype Rule = Rule(bound: Bound, fillMedian: bool)

  /** The six columns the step coerces, in the order it lists them. */
  const Candidates: seq<string> :=
    ["release_year", "duration_min", "imdb_rating", "budget_cr", "box_office_cr", "profit_cr"]

  /** The rule of each candidate column; `year` is the current year. */
  function RuleFor(year: int, name: string): (r: Option<Rule>)
    ensures r.Some? <==> name in Candidates
  {
    if name == "release_year" then Some(Rule(Within(1800.0, (year + 1) as real), false))
    else if name == "duration_min" then Some(Rule(Above(0.0), true))
    else if name == "imdb_rating" then Some(Rule(Within(0.0, 10.0), false))
    else if name == "budget_cr" then Some(Rule(AtLeast(0.0), true))
    else if name == "box_office_cr" then Some(Rule(AtLeast(0.0), true))
    else if name == "profit_cr" then Some(Rule(Unbounded, false))
    else None
  }

  /** `pd.to_numeric(errors="coerce")` on one cell: numbers and missing cells
      stay, anything else is parsed and becomes missing when it does not
      parse. */
  function Coerce(env: Env, c: Cell): (r: Cell)
    ensures r.Absent? || r.Num?
    ensures c.Num? || c.Absent? ==> r == c
    ensures !c.Num? && !c.Absent? ==>
              (r.Num? <==> env.toNumeric(c).Some?) && (r.Num? ==> r.x == env.toNumeric(c).value)
  {
    match c
    case Absent => Absent
    case Num(_) => c
    case _ => match env.toNumeric(c) { case Some(x) => Num(x) case None => Absent }
  }

  /** A cell survives the range rule: it coerces to a number in range. A
      comparison with a missing value is false, so missing cells are never
      touched by the rule. */
  predicate Kept(env: Env, rule: Rule, c: Cell) {
    Coerce(env, c).Num? && Admits(rule.bound, Coerce(env, c).x)
  }

  function Validate(env: Env, rule: Rule, c: Cell): (r: Cell)
    ensures Kept(env, rule, c) ==> r == Coerce(env, c)
    ensures !Kept(env, rule, c) ==> r == Absent
  {
    if Kept(env, rule, c) then Coerce(env, c) else Absent
  }

  function ValidCells(env: Env, rule: Rule, cells: seq<Cell>): (r: seq<Cell>)
    ensures |r| == |cells|
    ensures forall i :: 0 <= i < |cells| ==> r[i] == Validate(env, rule, cells[i])
  {
    seq(|cells|, i requires 0 <= i < |cells| => Validate(env, rule, cells[i]))
  }

  /** The values left after the range rule, in row order: what `median()`
      sees. */
  function Admitted(env: Env, rule: Rule, cells: seq<Cell>): (xs: seq<real>)
    ensures forall x :: x in xs ==> Admits(rule.bound, x)
    ensures |xs| == 0 <==> forall i :: 0 <= i < |cells| ==> !Kept(env, rule, cells[i])
  {
    var v := ValidCells(env, rule, cells);
    var xs := PresentValues(v);
    assert forall x :: x in xs ==> Num(x) in v;
    xs
  }

  /** A median of admitted values is admitted: it lies between two of them. */
  lemma MedianAdmitted(b: Bound, xs: seq<real>)
    requires |xs| > 0
    requires forall x :: x in xs ==> Admits(b, x)
    ensures Admits(b, Stats.Median(xs).value)
  {
    var m := Stats.Median(xs).value;
    var lo, hi :| lo in xs && hi in xs && lo <= m <= hi;
    assert Admits(b, lo) && Admits(b, hi);
  }

  /** What the step promises about one candidate column, cell by cell:
      every present value is in range; a value that coerces into range is
      kept as it is; without a fill the column is missing exactly where the
      value did not coerce into range; with a fill the gaps hold the median
      of the kept values, or stay missing when no value was kept. */
  predicate NumericOutcome(env: Env, rule: Rule, before: seq<Cell>, after: seq<Cell>) {
    && |after| == |before|
    && (forall i :: 0 <= i < |after| ==> after[i].Absent? || (after[i].Num? && Admits(rule.bound, after[i].x)))
    && (forall i :: 0 <= i < |before| && Kept(env, rule, before[i]) ==> after[i] == Coerce(env, before[i]))
    && (!rule.fillMedian ==> forall i :: 0 <= i < |before| ==> (after[i].Absent? <==> !Kept(env, rule, before[i])))
    && (rule.fillMedian && |Admitted(env, rule, before)| > 0 ==>
          forall i :: 0 <= i < |before| && !Kept(env, rule, before[i]) ==>
            after[i] == Num(Stats.Median(Admitted(env, rule, before)).value))
    && (rule.fillMedian && |Admitted(env, rule, before)| == 0 ==>
          forall i :: 0 <= i < |after| ==> after[i].Absent?)
  }

  /** Coercion, the range rule, then `fillna(median())` when the rule asks
      for it; the median is taken once, after the range rule. */
  function NumericColumn(env: Env, rule: Rule, c: Column): (r: Column)
    ensures r.name == c.name && r.dtype == Float
    ensures NumericOutcome(env, rule, c.cells, r.cells)
  {
    var v := ValidCells(env, rule, c.cells);
    var xs := Admitted(env, rule, c.cells);
    if rule.fillMedian && |xs| > 0 then
      var m := Stats.Median(xs).value;
      FilledOutcome(env, rule, c.cells, m);
      c.(dtype := Float, cells := FillAbsent(v, Num(m)))
    else
      UnfilledOutcome(env, rule, c.cells);
      c.(dtype := Float, cells := v)
  }

  lemma FilledOutcome(env: Env, rule: Rule, cells: seq<Cell>, m: real)
    requires rule.fillMedian && |Admitted(env, rule, cells)| > 0
    requires m == Stats.Median(Admitted(env, rule, cells)).value
    ensures NumericOutcome(env, rule, cells, FillAbsent(ValidCells(env, rule, cells), Num(m)))
  {
    MedianAdmitted(rule.bound, Admitted(env, rule, cells));
    FilledRows(env, rule, cells, m);
    FilledFromRows(env, rule, cells, FillAbsent(ValidCells(env, rule, cells), Num(m)), m);
  }

  lemma FilledRows(env: Env, rule: Rule, cells: seq<Cell>, m: real)
    requires Admits(rule.bound, m)
    ensures var after := FillAbsent(ValidCells(env, rule, cells), Num(m));
            && |after| == |cells|
            && (forall i :: 0 <= i < |cells| ==> after[i].Num? && Admits(rule.bound, after[i].x))
            && (forall i :: 0 <= i < |cells| ==> after[i] == if Kept(env, rule, cells[i]) then Coerce(env, cells[i]) else Num(m))
  {
    var v := ValidCells(env, rule, cells);
    var after := FillAbsent(v, Num(m));
    forall i | 0 <= i < |cells|
      ensures after[i].Num? && Admits(rule.bound, after[i].x)
      ensures after[i] == if Kept(env, rule, cells[i]) then Coerce(env, cells[i]) else Num(m)
    {
      assert v[i] == Validate(env, rule, cells[i]);
    }
  }

  lemma FilledFromRows(env: Env, rule: Rule, cells: seq<Cell>, after: seq<Cell>, m: real)
    requires rule.fillMedian && |Admitted(env, rule, cells)| > 0
    requires m == Stats.Median(Admitted(env, rule, cells)).value
    requires |after| == |cells|
    requires forall i :: 0 <= i < |cells| ==> after[i].Num? && Admits(rule.bound, after[i].x)
    requires forall i :: 0 <= i < |cells| ==> after[i] == if Kept(env, rule, cells[i]) then Coerce(env, cells[i]) else Num(m)
    ensures NumericOutcome(env, rule, cells, after)
  {
  }

  lemma UnfilledOutcome(env: Env, rule: Rule, cells: seq<Cell>)
    requires !(rule.fillMedian && |Admitted(env, rule, cells)| > 0)
    ensures NumericOutcome(env, rule, cells, ValidCells(env, rule, cells))
  {
  }

  function NumericStep(env: Env, c: Column): (r: Column)
    ensures RuleFor(env.currentYear, c.name).None? ==> r == c
    ensures RuleFor(env.currentYear, c.name).Some? ==>
              r.name == c.name && r.dtype == Float &&
              NumericOutcome(env, RuleFor(env.currentYear, c.name).value, c.cells, r.cells)
  {
    match RuleFor(env.currentYear, c.name)
    case Some(rule) => NumericColumn(env, rule, c)
    case None => c
  }

  /** `convert_and_validate_numeric`: each candidate column present in the
      table becomes a float column obeying its rule; the other columns are
      left as they are. */
  function ConvertAndValidateNumeric(env: Env, t: Table): (r: Table)
    requires WellFormed(t)
    ensures WellFormed(r) && r.height == t.height && |r.columns| == |t.columns|
    ensures forall j :: 0 <= j < |t.columns| ==> r.columns[j].name == t.columns[j].name
    ensures forall j :: 0 <= j < |t.columns| && t.columns[j].name !in Candidates ==> r.columns[j] == t.columns[j]
    ensures forall j :: 0 <= j < |t.columns| && t.columns[j].name in Candidates ==>
              r.columns[j].dtype == Float &&
              NumericOutcome(env, RuleFor(env.currentYear, t.columns[j].name).value, t.columns[j].cells, r.columns[j].cells)
  {
    Table(seq(|t.columns|, j requires 0 <= j < |t.columns| => NumericStep(env, t.columns[j])), t.height)
  }

  /** The range rule leaves cells that are already missing or in-range
      numbers as they are. */
  lemma ValidCellsInRange(env: Env, rule: Rule, cells: seq<Cell>)
    requires forall i :: 0 <= i < |cells| ==> cells[i].Absent? || (cells[i].Num? && Admits(rule.bound, cells[i].x))
    ensures ValidCells(env, rule, cells) == cells
  {
  }

  lemma FillNothing(cells: seq<Cell>, v: Cell)
    requires forall i :: 0 <= i < |cells| ==> cells[i].Num?
    ensures FillAbsent(cells, v) == cells
  {
  }

  /** A column the step has produced goes through it again unchanged: its
      values are all in range, so nothing is blanked, and it has no gap the
      median could fill unless it has no value at all. */
  lemma NumericColumnIdempotent(env: Env, rule: Rule, c: Column)
    ensures NumericColumn(env, rule, NumericColumn(env, rule, c)) == NumericColumn(env, rule, c)
  {
    var r := NumericColumn(env, rule, c);
    ValidCellsInRange(env, rule, r.cells);
    if rule.fillMedian && |Admitted(env, rule, c.cells)| > 0 {
      assert forall i :: 0 <= i < |r.cells| ==> r.cells[i].Num? by {
        forall i | 0 <= i < |r.cells| ensures r.cells[i].Num? {
          if Kept(env, rule, c.cells[i]) {
            assert r.cells[i] == Coerce(env, c.cells[i]);
          }
        }
      }
      if |r.cells| > 0 {
        FillNothing(r.cells, Num(Stats.Median(Admitted(env, rule, r.cells)).value));
      }
    }
  }

  /** `convert_and_validate_numeric` is idempotent. */
  lemma ConvertAndValidateNumericIdempotent(env: Env, t: Table)
    requires WellFormed(t)
    ensures ConvertAndValidateNumeric(env, ConvertAndValidateNumeric(env, t)) == ConvertAndValidateNumeric(env, t)
  {
    var r := ConvertAndValidateNumeric(env, t);
    var r2 := ConvertAndValidateNumeric(env, r);
    forall j | 0 <= j < |r.columns| ensures r2.columns[j] == r.columns[j] {
      var rule := RuleFor(env.currentYear, t.columns[j].name);
      if rule.Some? {
        NumericColumnIdempotent(env, rule.value, t.columns[j]);
      }
    }
    assert r2.columns == r.columns;
  }

  /** The ranges, by column name: a present "release_year" lies in
      [1800, year + 1], "imdb_rating" in [0, 10], "duration_min" above 0, and
      "budget_cr" and "box_office_cr" at or above 0; "release_year" and
      "imdb_rating" are missing exactly where the value did not coerce into
      range, since they are never filled. */
  lemma NumericRanges(env: Env, t: Table)
    requires WellFormed(t)
    ensures var r := ConvertAndValidateNumeric(env, t);
            forall j, i :: 0 <= j < |t.columns| && 0 <= i < t.height && r.columns[j].cells[i].Num? ==>
              var n, x := t.columns[j].name, r.columns[j].cells[i].x;
              && (n == "release_year" ==> 1800.0 <= x <= (env.currentYear + 1) as real)
              && (n == "imdb_rating" ==> 0.0 <= x <= 10.0)
              && (n == "duration_min" ==> x > 0.0)
              && (n == "budget_cr" || n == "box_office_cr" ==> x >= 0.0)
    ensures var r := ConvertAndValidateNumeric(env, t);
            forall j, i :: 0 <= j < |t.columns| && 0 <= i < t.height &&
                           (t.columns[j].name == "release_year" || t.columns[j].name == "imdb_rating") ==>
              (r.columns[j].cells[i].Absent? <==>
                 !Kept(env, RuleFor(env.currentYear, t.columns[j].name).value, t.columns[j].cells[i]))
  {
    var r := ConvertAndValidateNumeric(env, t);
    forall j, i | 0 <= j < |t.columns| && 0 <= i < t.height && r.columns[j].cells[i].Num?
      ensures var n, x := t.columns[j].name, r.columns[j].cells[i].x;
              && (n == "release_year" ==> 1800.0 <= x <= (env.currentYear + 1) as real)
              && (n == "imdb_rating" ==> 0.0 <= x <= 10.0)
              && (n == "duration_min" ==> x > 0.0)
              && (n == "budget_cr" || n == "box_office_cr" ==> x >= 0.0)
    {
      var n := t.columns[j].name;
      if n in Candidates {
        assert Admits(RuleFor(env.currentYear, n).value.bound, r.columns[j].cells[i].x);
      }
    }
  }

}
