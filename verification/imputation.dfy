/** The imputation the application runs on the pipeline's output (app.py):
    the user's fill values, column by column; then a numeric strategy
    (median, mean, or none) and a categorical strategy (mode, or none); and
    `finalize_types` once more. */
module Impute {
  import opened Options
  import opened Frame
  import Stats
  import Modes
  import Finalize
  import Pipeline

  /** `fillna(v)` would raise on this column: a nullable integer column with
      a missing cell and a value it cannot hold. */
  predicate Rejected(c: Column, v: Cell) {
    c.dtype == Int64 && Absent in c.cells && !Fits(Int64, v)
  }

  /** The value `fillna(v)` stores in a column of dtype `d`. A datetime
      column parses a string as a timestamp; any other value, and a string
      that does not parse, is stored as it is. */
  function Stored(env: Env, d: Dtype, v: Cell): (w: Cell)
    ensures w == Absent <==> v == Absent
    ensures d != Datetime || !v.Str? ==> w == v
    ensures d == Datetime && v.Str? ==> w == match env.toDatetime(v) { case Some(day) => Date(day) case None => v }
  {
    if d == Datetime && v.Str? then
      match env.toDatetime(v)
      case Some(day) => Date(day)
      case None => v
    else v
  }

  /** `after` is `before.fillna(v)`: every missing cell holds `v` as the
      column stores it, every present cell is kept, and the dtype stays
      unless the column has to widen to "object" to hold it. */
  predicate FilledWith(env: Env, before: Column, after: Column, v: Cell) {
    var w := Stored(env, before.dtype, v);
    && after.name == before.name
    && |after.cells| == |before.cells|
    && (forall i :: 0 <= i < |before.cells| ==>
          after.cells[i] == if before.cells[i] == Absent then w else before.cells[i])
    && after.dtype == if Fits(before.dtype, w) || Absent !in before.cells then before.dtype else Object
  }

  /** Filling with a missing value changes nothing. */
  lemma FilledWithNothing(env: Env, before: Column, after: Column)
    requires FilledWith(env, before, after, Absent)
    ensures after == before
  {
    assert after.cells == before.cells;
  }

  /** Filling a column without a missing cell changes nothing. */
  lemma FilledWithoutGaps(env: Env, before: Column, after: Column, v: Cell)
    requires FilledWith(env, before, after, v) && Absent !in before.cells
    ensures after == before
  {
    assert after.cells == before.cells;
  }

  /** `col.fillna(v)`. A missing `v`, or a column without a missing cell, is
      left alone; otherwise the missing cells take `v` as the column stores
      it, the nullable integer dtype raises on a value it cannot hold, and
      any other dtype that cannot hold it widens to "object". */
  function FillColumn(env: Env, c: Column, height: nat, v: Cell): (r: Result<Column>)
    requires ColumnFits(c, height)
    ensures r.Fail? <==> Rejected(c, v)
    ensures r.Fail? ==> r.failure == RejectedFill(c.name, v)
    ensures r.Ok? ==> ColumnFits(r.value, height) && FilledWith(env, c, r.value, v)
    ensures r.Ok? && v != Absent ==> Absent !in r.value.cells
  {
    var w := Stored(env, c.dtype, v);
    if Fits(c.dtype, w) || Absent !in c.cells then Ok(c.(cells := FillAbsent(c.cells, w)))
    else if c.dtype == Int64 then Fail(RejectedFill(c.name, v))
    else Ok(Column(c.name, Object, FillAbsent(c.cells, w)))
  }

  /** Text filled into a datetime column with a gap: a timestamp the text
      parses to keeps the column datetime and fills the gaps with that
      date; text that does not parse widens the column to "object" and
      fills the gaps with the text. */
  lemma DateTextFill(env: Env, c: Column, height: nat, text: string)
    requires ColumnFits(c, height) && c.dtype == Datetime && Absent in c.cells
    ensures var r := FillColumn(env, c, height, Str(text));
            && r.Ok?
            && (env.toDatetime(Str(text)).Some? ==>
                  r.value.dtype == Datetime &&
                  forall i :: 0 <= i < height && c.cells[i] == Absent ==> r.value.cells[i] == Date(env.toDatetime(Str(text)).value))
            && (env.toDatetime(Str(text)).None? ==>
                  r.value.dtype == Object &&
                  forall i :: 0 <= i < height && c.cells[i] == Absent ==> r.value.cells[i] == Str(text))
  {
  }

  /** A date typed for an "order_date" column with a gap is stored as the
      date it parses to, and the column stays datetime. */
  lemma TypedDateFill(env: Env, day: int)
    requires env.toDatetime(Str("2024-01-05")) == Some(day)
    ensures FillColumn(env, Column("order_date", Datetime, [Date(19000), Absent]), 2, Str("2024-01-05"))
            == Ok(Column("order_date", Datetime, [Date(19000), Date(day)]))
  {
    var c := Column("order_date", Datetime, [Date(19000), Absent]);
    assert Absent in c.cells;
    assert FillAbsent(c.cells, Date(day)) == [Date(19000), Date(day)];
  }

  /** Filling a second time with the same value changes nothing. */
  lemma FillColumnIdempotent(env: Env, c: Column, height: nat, v: Cell)
    requires ColumnFits(c, height) && FillColumn(env, c, height, v).Ok?
    ensures FillColumn(env, FillColumn(env, c, height, v).value, height, v) == FillColumn(env, c, height, v)
  {
    var r := FillColumn(env, c, height, v).value;
    var r2 := FillColumn(env, r, height, v).value;
    assert r2.cells == r.cells;
  }

  // ----- the user's fill values (app.py, the loop over the typed values) -----

  /** The cell a typed literal stands for: the number Python's `float()`
      reads from it, or the text itself when `float()` raises. */
  function LiteralCell(env: Env, val: string): (r: Cell)
    ensures r != Absent
    ensures r.Num? <==> env.parseFloat(val).Some?
  {
    match env.parseFloat(val)
    case Some(x) => Num(x)
    case None => Str(val)
  }

  /** The fills come from a dictionary keyed by column name. */
  predicate DistinctKeys(fills: seq<(string, string)>) {
    forall a, b :: 0 <= a < b < |fills| ==> fills[a].0 != fills[b].0
  }

  lemma DistinctTail(fills: seq<(string, string)>)
    requires |fills| > 0 && DistinctKeys(fills)
    ensures DistinctKeys(fills[1..])
    ensures forall m :: 0 <= m < |fills[1..]| ==> fills[1..][m].0 != fills[0].0
  {
    forall a, b | 0 <= a < b < |fills[1..]| ensures fills[1..][a].0 != fills[1..][b].0 {
      assert fills[1..][a] == fills[a + 1] && fills[1..][b] == fills[b + 1];
    }
    forall m | 0 <= m < |fills[1..]| ensures fills[1..][m].0 != fills[0].0 {
      assert fills[1..][m] == fills[m + 1];
    }
  }

  /** The value the fills give the column called `name`, missing when no
      fill names it. */
  function FillFor(env: Env, fills: seq<(string, string)>, name: string): (v: Cell)
    requires DistinctKeys(fills)
    ensures v == Absent <==> forall k :: 0 <= k < |fills| ==> fills[k].0 != name
    ensures forall k :: 0 <= k < |fills| && fills[k].0 == name ==> v == LiteralCell(env, fills[k].1)
  {
    if |fills| == 0 then Absent
    else
      DistinctTail(fills);
      assert forall k :: 1 <= k < |fills| ==> fills[k] == fills[1..][k - 1];
      if fills[0].0 == name then LiteralCell(env, fills[0].1) else FillFor(env, fills[1..], name)
  }

  /** Filling the column called `name` with `v` raises. */
  predicate Rejects(t: Table, name: string, v: Cell) {
    var k := Find(t.columns, name);
    k >= 0 && Rejected(t.columns[k], v)
  }

  /** The user's fills in the order given: a fill for a column the table
      does not have is skipped, and the first column that cannot hold its
      literal raises. */
  function ManualFill(env: Env, t: Table, fills: seq<(string, string)>): (r: Result<Table>)
    requires WellFormed(t) && DistinctKeys(fills)
    ensures r.Ok? ==> WellFormed(r.value) && r.value.height == t.height && Pipeline.SameNames(t, r.value)
    decreases |fills|
  {
    if |fills| == 0 then Ok(t)
    else
      DistinctTail(fills);
      var k := Find(t.columns, fills[0].0);
      if k < 0 then ManualFill(env, t, fills[1..])
      else
        match FillColumn(env, t.columns[k], t.height, LiteralCell(env, fills[0].1))
        case Fail(f) => Fail(f)
        case Ok(c) => ManualFill(env, Assign(t, c), fills[1..])
  }

  /** Fill `k` names a column of `t` that rejects its literal. */
  predicate RejectsFill(env: Env, t: Table, fills: seq<(string, string)>, k: nat)
    requires k < |fills|
  {
    Rejects(t, fills[k].0, LiteralCell(env, fills[k].1))
  }

  /** What the manual fills over `t` that end in `r` promise about raising:
      they raise exactly when some fill names a column that rejects its
      literal, and then on the first such fill. */
  predicate FillsFail(env: Env, t: Table, fills: seq<(string, string)>, r: Result<Table>) {
    && (r.Fail? <==> exists k :: 0 <= k < |fills| && RejectsFill(env, t, fills, k))
    && (r.Fail? ==> exists k :: (0 <= k < |fills| && RejectsFill(env, t, fills, k) &&
          r.failure == RejectedFill(fills[k].0, LiteralCell(env, fills[k].1)) &&
          forall m :: 0 <= m < k ==> !RejectsFill(env, t, fills, m)))
  }

  /** The manual fills raise exactly when some fill names a column that
      rejects its literal, and then on the first such fill. */
  lemma {:induction false} ManualFillFails(env: Env, t: Table, fills: seq<(string, string)>)
    requires WellFormed(t) && DistinctKeys(fills)
    ensures FillsFail(env, t, fills, ManualFill(env, t, fills))
    decreases |fills|
  {
    if |fills| > 0 {
      DistinctTail(fills);
      var tail := fills[1..];
      var r := ManualFill(env, t, fills);
      var v := LiteralCell(env, fills[0].1);
      var k := Find(t.columns, fills[0].0);
      if k < 0 {
        assert r == ManualFill(env, t, tail);
        ManualFillFails(env, t, tail);
        ShiftFailure(env, t, t, fills, r);
      } else {
        var fc := FillColumn(env, t.columns[k], t.height, v);
        if fc.Fail? {
          assert RejectsFill(env, t, fills, 0);
        } else {
          var u := Assign(t, fc.value);
          assert r == ManualFill(env, u, tail);
          ManualFillFails(env, u, tail);
          forall m | 0 <= m < |tail|
            ensures RejectsFill(env, u, tail, m) <==> RejectsFill(env, t, fills, m + 1)
          {
            assert tail[m] == fills[m + 1];
            assert Find(u.columns, tail[m].0) == Find(t.columns, tail[m].0);
          }
          ShiftFailure(env, t, u, fills, r);
        }
      }
    }
  }

  /** When the head fill does not raise, the failure of the rest, taken on a
      table `u` that agrees with `t` on every later fill, is the failure of
      the whole. */
  lemma ShiftFailure(env: Env, t: Table, u: Table, fills: seq<(string, string)>, r: Result<Table>)
    requires |fills| > 0 && !RejectsFill(env, t, fills, 0)
    requires forall m :: 0 <= m < |fills| - 1 ==> (RejectsFill(env, u, fills[1..], m) <==> RejectsFill(env, t, fills, m + 1))
    requires FillsFail(env, u, fills[1..], r)
    ensures FillsFail(env, t, fills, r)
  {
    var tail := fills[1..];
    if exists k :: 0 <= k < |fills| && RejectsFill(env, t, fills, k) {
      var k :| 0 <= k < |fills| && RejectsFill(env, t, fills, k);
      assert RejectsFill(env, u, tail, k - 1);
    }
    if r.Fail? {
      var k :| 0 <= k < |tail| && RejectsFill(env, u, tail, k) &&
               r.failure == RejectedFill(tail[k].0, LiteralCell(env, tail[k].1)) &&
               forall m :: 0 <= m < k ==> !RejectsFill(env, u, tail, m);
      assert fills[k + 1] == tail[k];
      forall m | 0 <= m < k + 1 ensures !RejectsFill(env, t, fills, m) {
        if m > 0 {
          assert !RejectsFill(env, u, tail, m - 1);
        }
      }
    }
  }

  /** What the manual fills do when none raises: every column takes the
      literal typed for it, in its missing cells only; a column without a
      fill is unchanged. */
  lemma {:induction false} ManualFillCells(env: Env, t: Table, fills: seq<(string, string)>)
    requires WellFormed(t) && DistinctKeys(fills) && ManualFill(env, t, fills).Ok?
    ensures var r := ManualFill(env, t, fills).value;
            forall j :: 0 <= j < |t.columns| ==> FilledWith(env, t.columns[j], r.columns[j], FillFor(env, fills, t.columns[j].name))
    decreases |fills|
  {
    var r := ManualFill(env, t, fills).value;
    if |fills| == 0 {
      assert r == t;
    } else {
      DistinctTail(fills);
      var tail := fills[1..];
      var v := LiteralCell(env, fills[0].1);
      var k := Find(t.columns, fills[0].0);
      if k < 0 {
        ManualFillCells(env, t, tail);
      } else {
        var c := FillColumn(env, t.columns[k], t.height, v).value;
        var u := Assign(t, c);
        ManualFillCells(env, u, tail);
        forall j | 0 <= j < |t.columns|
          ensures FilledWith(env, t.columns[j], r.columns[j], FillFor(env, fills, t.columns[j].name))
        {
          if j == k {
            assert FillFor(env, tail, c.name) == Absent;
            FilledWithNothing(env, u.columns[k], r.columns[k]);
          } else {
            FindUnique(t.columns, j);
            assert u.columns[j] == t.columns[j];
          }
        }
      }
    }
  }

  /** The manual fills, applied twice, are applied once. */
  lemma {:induction false} ManualFillIdempotent(env: Env, t: Table, fills: seq<(string, string)>)
    requires WellFormed(t) && DistinctKeys(fills) && ManualFill(env, t, fills).Ok?
    ensures ManualFill(env, ManualFill(env, t, fills).value, fills) == ManualFill(env, t, fills)
  {
    var r := ManualFill(env, t, fills).value;
    ManualFillCells(env, t, fills);
    ManualFillFails(env, r, fills);
    forall k | 0 <= k < |fills| ensures !Rejects(r, fills[k].0, LiteralCell(env, fills[k].1)) {
      var p := Find(r.columns, fills[k].0);
      if p >= 0 {
        FindSameNames(r.columns, t.columns, fills[k].0);
        FilledHasNoGap(env, t.columns[p], r.columns[p], LiteralCell(env, fills[k].1));
      }
    }
    var r2 := ManualFill(env, r, fills).value;
    ManualFillCells(env, r, fills);
    forall j | 0 <= j < |r.columns| ensures r2.columns[j] == r.columns[j] {
      RefilledSame(env, t.columns[j], r.columns[j], r2.columns[j], FillFor(env, fills, r.columns[j].name));
    }
    assert r2.columns == r.columns;
  }

  /** A column filled with a present value has no gap left, so it does not
      reject that value. */
  lemma FilledHasNoGap(env: Env, c: Column, after: Column, v: Cell)
    requires FilledWith(env, c, after, v) && v != Absent
    ensures !Rejected(after, v)
  {
    assert forall i :: 0 <= i < |after.cells| ==> after.cells[i] != Absent;
  }

  /** Filling a filled column again with the same value changes nothing. */
  lemma RefilledSame(env: Env, c: Column, once: Column, twice: Column, v: Cell)
    requires FilledWith(env, c, once, v) && FilledWith(env, once, twice, v)
    ensures twice == once
  {
    assert twice.cells == once.cells;
  }

  // ----- the two strategies (app.py, the numeric and the object loops) -----

  /** The aggregate a strategy fills with. */
  datatype Aggregate = ByMedian | ByMean | ByMode

  /** The columns a strategy goes over: `select_dtypes(include="number")`
      for the median and the mean, `include="object"` for the mode. */
  predicate Takes(a: Aggregate, c: Column) {
    if a == ByMode then c.dtype == Object else IsNumeric(c.dtype)
  }

  /** `median()` of a column: the middle of its sorted values, or the mean
      of the two middle ones for an even count; between two of its values;
      missing when it has none. */
  function MedianValue(cells: seq<Cell>): (v: Cell)
    ensures v == Absent <==> PresentValues(cells) == []
    ensures v != Absent ==> v.Num? && exists p, q :: Num(p) in cells && Num(q) in cells && p <= v.x <= q
  {
    var xs := PresentValues(cells);
    if xs == [] then Absent
    else
      MedianBetweenCells(cells);
      Num(Stats.Median(xs).value)
  }

  /** The median fill read off any sorted arrangement `s` of the column's
      values: its middle element for an odd count, the mean of its two
      middle elements for an even one. */
  lemma MedianValueOfSorted(cells: seq<Cell>, s: seq<real>)
    requires Stats.Sorted(s) && multiset(s) == multiset(PresentValues(cells)) && |s| > 0
    ensures |s| % 2 == 1 ==> MedianValue(cells) == Num(s[|s| / 2])
    ensures |s| % 2 == 0 ==> MedianValue(cells) == Num((s[|s| / 2 - 1] + s[|s| / 2]) / 2.0)
  {
    var xs := PresentValues(cells);
    Stats.MedianOfSorted(xs, s);
    NumOfMiddle(MedianValue(cells), Stats.Median(xs).value, s);
  }

  lemma NumOfMiddle(v: Cell, m: real, s: seq<real>)
    requires v == Num(m) && |s| > 0
    requires |s| % 2 == 1 ==> m == s[|s| / 2]
    requires |s| % 2 == 0 ==> m == (s[|s| / 2 - 1] + s[|s| / 2]) / 2.0
    ensures |s| % 2 == 1 ==> v == Num(s[|s| / 2])
    ensures |s| % 2 == 0 ==> v == Num((s[|s| / 2 - 1] + s[|s| / 2]) / 2.0)
  {
  }

  lemma MedianBetweenCells(cells: seq<Cell>)
    requires PresentValues(cells) != []
    ensures exists p, q :: Num(p) in cells && Num(q) in cells && p <= Stats.Median(PresentValues(cells)).value <= q
  {
    var xs := PresentValues(cells);
    var m := Stats.Median(xs).value;
    var a, b :| a in xs && b in xs && a <= m <= b;
    assert Num(a) in cells && Num(b) in cells;
  }

  /** `mean()` of a column: its values' sum divided by their count, missing
      when it has none. */
  function MeanValue(cells: seq<Cell>): (v: Cell)
    ensures v == Absent <==> PresentValues(cells) == []
    ensures v != Absent ==> v.Num? && v.x == Stats.Sum(PresentValues(cells)) / (|PresentValues(cells)| as real)
  {
    var xs := PresentValues(cells);
    match Stats.Mean(xs)
    case None => Absent
    case Some(m) => Num(m)
  }

  /** `mode()[0]` of a column: a most frequent present value, the smallest
      of the equally frequent ones; missing when every cell is missing. */
  function ModeValue(cells: seq<Cell>): (v: Cell)
    ensures v == Absent <==> forall i :: 0 <= i < |cells| ==> cells[i] == Absent
    ensures v != Absent ==>
              && v in cells
              && (forall i :: 0 <= i < |cells| && cells[i] != Absent ==> Modes.Count(cells, cells[i]) <= Modes.Count(cells, v))
              && (forall i :: (0 <= i < |cells| && cells[i] != Absent && cells[i] != v &&
                    Modes.Count(cells, cells[i]) == Modes.Count(cells, v)) ==> CellLess(v, cells[i]))
  {
    match Modes.Mode(cells)
    case Some(m) => m
    case None => Absent
  }

  /** The value a strategy fills a column with. */
  function FillValue(a: Aggregate, cells: seq<Cell>): Cell {
    match a
    case ByMedian => MedianValue(cells)
    case ByMean => MeanValue(cells)
    case ByMode => ModeValue(cells)
  }

  /** A median or mean fill lies within any bounds the column's values keep. */
  lemma FillWithinBounds(a: Aggregate, cells: seq<Cell>, lo: real, hi: real)
    requires a != ByMode
    requires forall i :: 0 <= i < |cells| && cells[i].Num? ==> lo <= cells[i].x <= hi
    ensures FillValue(a, cells) != Absent ==> lo <= FillValue(a, cells).x <= hi
  {
    var xs := PresentValues(cells);
    if a == ByMean && |xs| > 0 {
      Stats.MeanBetween(xs, lo, hi);
    }
  }

  /** Which columns a pass fills, and with what: `Some(v)` at position `m`
      fills column `m` with `v`, `None` skips it. */
  type Plan = seq<Option<Cell>>

  /** The plan of a strategy: each column it takes, with that column's own
      aggregate. */
  function StrategyPlan(t: Table, a: Aggregate): (p: Plan)
    ensures |p| == |t.columns|
    ensures forall m :: 0 <= m < |t.columns| ==>
              p[m] == if Takes(a, t.columns[m]) then Some(FillValue(a, t.columns[m].cells)) else None
  {
    seq(|t.columns|, m requires 0 <= m < |t.columns| =>
      if Takes(a, t.columns[m]) then Some(FillValue(a, t.columns[m].cells)) else None)
  }

  /** One pass over the columns from `j` on, in column order, as the loops
      of the two strategies run: each planned column is filled, and the
      first that rejects its value raises. */
  function FillPass(env: Env, t: Table, plan: Plan, j: nat): (r: Result<Table>)
    requires WellFormed(t) && j <= |t.columns| == |plan|
    ensures r.Ok? ==> WellFormed(r.value) && r.value.height == t.height && Pipeline.SameNames(t, r.value)
    decreases |t.columns| - j
  {
    if j == |t.columns| then Ok(t)
    else
      match plan[j]
      case None => FillPass(env, t, plan, j + 1)
      case Some(v) =>
        match FillColumn(env, t.columns[j], t.height, v)
        case Fail(f) => Fail(f)
        case Ok(c) =>
          AssignInPlace(t, j, c);
          FillPass(env, Assign(t, c), plan, j + 1)
  }

  /** Column `m` is one a pass from `j` fills, and it rejects its value. */
  predicate RejectsAt(t: Table, plan: Plan, j: nat, m: nat)
    requires m < |t.columns| == |plan|
  {
    j <= m && plan[m].Some? && Rejected(t.columns[m], plan[m].value)
  }

  /** What a pass from `j` that ends in `r` promises about raising: it
      raises exactly when some planned column rejects its value, and then
      on the first such column. */
  predicate PassFails(t: Table, plan: Plan, j: nat, r: Result<Table>)
    requires |t.columns| == |plan|
  {
    && (r.Fail? <==> exists m :: 0 <= m < |t.columns| && RejectsAt(t, plan, j, m))
    && (r.Fail? ==> exists m :: (0 <= m < |t.columns| && RejectsAt(t, plan, j, m) &&
          r.failure == RejectedFill(t.columns[m].name, plan[m].value) &&
          forall q :: 0 <= q < m ==> !RejectsAt(t, plan, j, q)))
  }

  /** What a pass from `j` that ends in `r` promises when it does not
      raise: each planned column is filled with its value, and every other
      column is left as it was. */
  predicate PassCells(env: Env, t: Table, plan: Plan, j: nat, r: Table)
    requires |t.columns| == |plan|
  {
    && |r.columns| == |t.columns|
    && forall m :: 0 <= m < |t.columns| ==>
         if j <= m && plan[m].Some?
         then FilledWith(env, t.columns[m], r.columns[m], plan[m].value)
         else r.columns[m] == t.columns[m]
  }

  /** A pass from `j` over `t` raises as the pass from `j + 1` over `u`
      does, when `u` differs from `t` at most in column `j` and that column
      does not raise. */
  lemma FailsStep(t: Table, u: Table, plan: Plan, j: nat, r: Result<Table>)
    requires j < |t.columns| == |u.columns| == |plan|
    requires forall m :: 0 <= m < |t.columns| && m != j ==> u.columns[m] == t.columns[m]
    requires !RejectsAt(t, plan, j, j)
    requires PassFails(u, plan, j + 1, r)
    ensures PassFails(t, plan, j, r)
  {
    var k := j + 1;
    forall m | 0 <= m < |t.columns| ensures RejectsAt(u, plan, k, m) <==> RejectsAt(t, plan, j, m) {
      if m != j {
        assert u.columns[m] == t.columns[m];
      }
    }
    if r.Fail? {
      var m :| 0 <= m < |u.columns| && RejectsAt(u, plan, k, m) &&
               r.failure == RejectedFill(u.columns[m].name, plan[m].value) &&
               forall q :: 0 <= q < m ==> !RejectsAt(u, plan, k, q);
      assert u.columns[m] == t.columns[m];
    }
  }

  /** A pass from `j` over `t` fills as the pass from `j + 1` over `u`
      does, when `u` is `t` with column `j` filled as planned. */
  lemma CellsStep(env: Env, t: Table, u: Table, plan: Plan, j: nat, r: Table)
    requires j < |t.columns| == |u.columns| == |plan| && u.columns == t.columns[j := u.columns[j]]
    requires plan[j].Some? ==> FilledWith(env, t.columns[j], u.columns[j], plan[j].value)
    requires plan[j].None? ==> u.columns[j] == t.columns[j]
    requires PassCells(env, u, plan, j + 1, r)
    ensures PassCells(env, t, plan, j, r)
  {
  }

  /** The table a pass goes on with after column `j`, when that column does
      not raise: column `j` filled as planned, or left as it is. */
  function Next(env: Env, t: Table, plan: Plan, j: nat): (u: Table)
    requires WellFormed(t) && j < |t.columns| == |plan| && !RejectsAt(t, plan, j, j)
    ensures WellFormed(u) && u.height == t.height && |u.columns| == |t.columns|
    ensures u.columns == t.columns[j := u.columns[j]]
    ensures plan[j].Some? ==> FilledWith(env, t.columns[j], u.columns[j], plan[j].value)
    ensures plan[j].None? ==> u.columns[j] == t.columns[j]
  {
    if plan[j].None? then t
    else
      var c := FillColumn(env, t.columns[j], t.height, plan[j].value).value;
      AssignInPlace(t, j, c);
      Assign(t, c)
  }

  /** One step of a pass: it raises on column `j`, or goes on from `j + 1`
      with the next table. */
  lemma FillPassStep(env: Env, t: Table, plan: Plan, j: nat)
    requires WellFormed(t) && j < |t.columns| == |plan|
    ensures RejectsAt(t, plan, j, j) ==>
              FillPass(env, t, plan, j) == Fail(RejectedFill(t.columns[j].name, plan[j].value))
    ensures !RejectsAt(t, plan, j, j) ==> FillPass(env, t, plan, j) == FillPass(env, Next(env, t, plan, j), plan, j + 1)
  {
    if plan[j].Some? {
      var fc := FillColumn(env, t.columns[j], t.height, plan[j].value);
      if fc.Ok? {
        AssignInPlace(t, j, fc.value);
      }
    }
  }

  /** A pass that raises on column `j` meets the promise about raising. */
  lemma FailsHere(t: Table, plan: Plan, j: nat, r: Result<Table>)
    requires j < |t.columns| == |plan| && RejectsAt(t, plan, j, j)
    requires r == Fail(RejectedFill(t.columns[j].name, plan[j].value))
    ensures PassFails(t, plan, j, r)
  {
    assert forall q :: 0 <= q < j ==> !RejectsAt(t, plan, j, q);
  }

  /** A pass raises exactly when some planned column rejects its value, and
      then on the first such column. */
  lemma {:induction false} FillPassFails(env: Env, t: Table, plan: Plan, j: nat)
    requires WellFormed(t) && j <= |t.columns| == |plan|
    ensures PassFails(t, plan, j, FillPass(env, t, plan, j))
    decreases |t.columns| - j
  {
    if j < |t.columns| {
      FillPassStep(env, t, plan, j);
      var r := FillPass(env, t, plan, j);
      if RejectsAt(t, plan, j, j) {
        FailsHere(t, plan, j, r);
      } else {
        var u := Next(env, t, plan, j);
        FillPassFails(env, u, plan, j + 1);
        FailsStep(t, u, plan, j, r);
      }
    }
  }

  /** A pass that does not raise fills each planned column with its value
      and leaves every other column as it was. */
  lemma {:induction false} FillPassCells(env: Env, t: Table, plan: Plan, j: nat)
    requires WellFormed(t) && j <= |t.columns| == |plan| && FillPass(env, t, plan, j).Ok?
    ensures PassCells(env, t, plan, j, FillPass(env, t, plan, j).value)
    decreases |t.columns| - j
  {
    if j < |t.columns| {
      FillPassStep(env, t, plan, j);
      var u := Next(env, t, plan, j);
      var r := FillPass(env, u, plan, j + 1).value;
      FillPassCells(env, u, plan, j + 1);
      CellsStep(env, t, u, plan, j, r);
    }
  }

  /** The numeric strategy. */
  datatype NumericStrategy = MedianFill | MeanFill | NoNumericFill

  function NumericAggregate(s: NumericStrategy): Aggregate
    requires s != NoNumericFill
  {
    if s == MedianFill then ByMedian else ByMean
  }

  /** The numeric strategy: "Do Not Fill" leaves the table as it is; the
      median or the mean fills every numeric column with its own median or
      mean, taken once over its values, and raises on the first nullable
      integer column that cannot hold it. */
  function NumericFill(env: Env, t: Table, s: NumericStrategy): (r: Result<Table>)
    requires WellFormed(t)
    ensures s == NoNumericFill ==> r == Ok(t)
    ensures r.Ok? ==> WellFormed(r.value) && r.value.height == t.height && Pipeline.SameNames(t, r.value)
    ensures s != NoNumericFill ==>
              (r.Fail? <==> exists j :: 0 <= j < |t.columns| && IsNumeric(t.columns[j].dtype) &&
                              Rejected(t.columns[j], FillValue(NumericAggregate(s), t.columns[j].cells)))
    ensures s != NoNumericFill && r.Ok? ==> forall j :: 0 <= j < |t.columns| ==>
              if IsNumeric(t.columns[j].dtype)
              then FilledWith(env, t.columns[j], r.value.columns[j], FillValue(NumericAggregate(s), t.columns[j].cells))
              else r.value.columns[j] == t.columns[j]
  {
    if s == NoNumericFill then Ok(t)
    else
      var a := NumericAggregate(s);
      var plan := StrategyPlan(t, a);
      var r := FillPass(env, t, plan, 0);
      FillPassFails(env, t, plan, 0);
      assert forall j :: 0 <= j < |t.columns| ==>
               (RejectsAt(t, plan, 0, j) <==> IsNumeric(t.columns[j].dtype) && Rejected(t.columns[j], FillValue(a, t.columns[j].cells)));
      if r.Ok? then
        FillPassCells(env, t, plan, 0);
        r
      else r
  }

  /** After the median or mean fill, a numeric column that has a value has
      no missing cell left and stays numeric, and one that has no value is
      left as it was. */
  lemma NumericFillComplete(env: Env, t: Table, s: NumericStrategy)
    requires WellFormed(t) && s != NoNumericFill && NumericFill(env, t, s).Ok?
    ensures var r := NumericFill(env, t, s).value;
            forall j :: 0 <= j < |t.columns| && IsNumeric(t.columns[j].dtype) ==>
              && r.columns[j].dtype == t.columns[j].dtype
              && (PresentValues(t.columns[j].cells) != [] ==> Absent !in r.columns[j].cells)
              && (PresentValues(t.columns[j].cells) == [] ==> r.columns[j] == t.columns[j])
  {
    var r := NumericFill(env, t, s).value;
    forall j | 0 <= j < |t.columns| && IsNumeric(t.columns[j].dtype)
      ensures r.columns[j].dtype == t.columns[j].dtype
      ensures PresentValues(t.columns[j].cells) != [] ==> Absent !in r.columns[j].cells
      ensures PresentValues(t.columns[j].cells) == [] ==> r.columns[j] == t.columns[j]
    {
      FilledNumericColumn(env, t.columns[j], r.columns[j], NumericAggregate(s));
    }
  }

  /** A numeric column filled with its own median or mean, where the fill
      did not raise, keeps its dtype; it has no gap left when it has a
      value, and is left as it was when it has none. */
  lemma FilledNumericColumn(env: Env, c: Column, after: Column, a: Aggregate)
    requires a != ByMode && IsNumeric(c.dtype) && !Rejected(c, FillValue(a, c.cells))
    requires FilledWith(env, c, after, FillValue(a, c.cells))
    ensures after.dtype == c.dtype
    ensures PresentValues(c.cells) != [] ==> Absent !in after.cells
    ensures PresentValues(c.cells) == [] ==> after == c
  {
    var v := FillValue(a, c.cells);
    assert Stored(env, c.dtype, v) == v;
    if v == Absent {
      FilledWithNothing(env, c, after);
    } else {
      assert forall i :: 0 <= i < |c.cells| ==> after.cells[i] != Absent;
    }
  }

  /** The numeric strategy, applied twice, is applied once. */
  lemma NumericFillIdempotent(env: Env, t: Table, s: NumericStrategy)
    requires WellFormed(t) && NumericFill(env, t, s).Ok?
    ensures NumericFill(env, NumericFill(env, t, s).value, s) == NumericFill(env, t, s)
  {
    if s != NoNumericFill {
      var r := NumericFill(env, t, s).value;
      NumericFillComplete(env, t, s);
      var a := NumericAggregate(s);
      forall j | 0 <= j < |r.columns| && IsNumeric(r.columns[j].dtype)
        ensures !Rejected(r.columns[j], FillValue(a, r.columns[j].cells))
      {
      }
      var r2 := NumericFill(env, r, s).value;
      forall j | 0 <= j < |r.columns| ensures r2.columns[j] == r.columns[j] {
        if IsNumeric(r.columns[j].dtype) {
          var c := r.columns[j];
          if Absent in c.cells {
            assert c == t.columns[j] && PresentValues(c.cells) == [];
            FilledWithNothing(env, c, r2.columns[j]);
          } else {
            FilledWithoutGaps(env, c, r2.columns[j], FillValue(a, c.cells));
          }
        }
      }
      assert r2.columns == r.columns;
    }
  }

  /** The categorical strategy. */
  datatype CategoricalStrategy = ModeFill | NoCategoricalFill

  /** The categorical strategy: "Do Not Fill" leaves the table as it is;
      the mode fills the missing cells of every "object" column with the
      column's mode, and skips a column that has no value. It cannot raise:
      an "object" column holds anything. */
  function CategoricalFill(env: Env, t: Table, s: CategoricalStrategy): (r: Table)
    requires WellFormed(t)
    ensures WellFormed(r) && r.height == t.height && Pipeline.SameNames(t, r)
    ensures s == NoCategoricalFill ==> r == t
    ensures s == ModeFill ==> forall j :: 0 <= j < |t.columns| ==>
              if t.columns[j].dtype == Object
              then FilledWith(env, t.columns[j], r.columns[j], FillValue(ByMode, t.columns[j].cells))
              else r.columns[j] == t.columns[j]
  {
    if s == NoCategoricalFill then t
    else
      var plan := StrategyPlan(t, ByMode);
      FillPassFails(env, t, plan, 0);
      FillPassCells(env, t, plan, 0);
      FillPass(env, t, plan, 0).value
  }

  /** After the mode fill an "object" column that has a value has no
      missing cell left, each former gap holding the column's most frequent
      value (the smallest among equally frequent ones); one without a value
      is left as it was. */
  lemma ModeFillComplete(env: Env, t: Table)
    requires WellFormed(t)
    ensures var r := CategoricalFill(env, t, ModeFill);
            forall j :: 0 <= j < |t.columns| && t.columns[j].dtype == Object ==>
              && r.columns[j].dtype == Object
              && ((exists i :: 0 <= i < t.height && t.columns[j].cells[i] != Absent) ==> Absent !in r.columns[j].cells)
              && ((forall i :: 0 <= i < t.height ==> t.columns[j].cells[i] == Absent) ==> r.columns[j] == t.columns[j])
  {
    var r := CategoricalFill(env, t, ModeFill);
    forall j | 0 <= j < |t.columns| && t.columns[j].dtype == Object
      ensures (exists i :: 0 <= i < t.height && t.columns[j].cells[i] != Absent) ==> Absent !in r.columns[j].cells
      ensures (forall i :: 0 <= i < t.height ==> t.columns[j].cells[i] == Absent) ==> r.columns[j] == t.columns[j]
    {
      var c := t.columns[j];
      var v := FillValue(ByMode, c.cells);
      if v == Absent {
        FilledWithNothing(env, c, r.columns[j]);
      } else {
        assert forall i :: 0 <= i < |c.cells| ==> r.columns[j].cells[i] != Absent;
      }
    }
  }

  /** The categorical strategy, applied twice, is applied once. */
  lemma CategoricalFillIdempotent(env: Env, t: Table, s: CategoricalStrategy)
    requires WellFormed(t)
    ensures CategoricalFill(env, CategoricalFill(env, t, s), s) == CategoricalFill(env, t, s)
  {
    if s == ModeFill {
      var r := CategoricalFill(env, t, s);
      ModeFillComplete(env, t);
      var r2 := CategoricalFill(env, r, s);
      forall j | 0 <= j < |r.columns| ensures r2.columns[j] == r.columns[j] {
        if r.columns[j].dtype == Object {
          assert r2.columns[j].cells == r.columns[j].cells;
        }
      }
      assert r2.columns == r.columns;
    }
  }

  // ----- the whole run of the cleaning button -----

  lemma FinalizeNames(t: Table)
    requires WellFormed(t) && Finalize.FinalizeTypes(t).Ok?
    ensures Pipeline.SameNames(t, Finalize.FinalizeTypes(t).value)
  {
  }

  /** The pipeline, the manual fills, the two strategies and the last
      `finalize_types`; the first step that raises ends the run. What is
      stored has the pipeline's rows and columns, in their order, and is
      left unchanged by one more `finalize_types`. */
  function RunCleaning(env: Env, t: Table, fills: seq<(string, string)>,
                       num: NumericStrategy, cat: CategoricalStrategy): (r: Result<Table>)
    requires WellFormed(t) && DistinctKeys(fills)
    ensures Pipeline.FullCleanPipeline(env, t).Fail? ==> r == Pipeline.FullCleanPipeline(env, t)
    ensures r.Ok? ==> Pipeline.FullCleanPipeline(env, t).Ok?
    ensures r.Ok? ==> var d := Pipeline.FullCleanPipeline(env, t).value;
              WellFormed(r.value) && r.value.height == d.height && Pipeline.SameNames(d, r.value)
    ensures r.Ok? ==> Finalize.FinalizeTypes(r.value) == r
  {
    match Pipeline.FullCleanPipeline(env, t)
    case Fail(f) => Fail(f)
    case Ok(d) =>
    match ManualFill(env, d, fills)
    case Fail(f) => Fail(f)
    case Ok(m) =>
      match NumericFill(env, m, num)
      case Fail(f) => Fail(f)
      case Ok(n) =>
        var c := CategoricalFill(env, n, cat);
        var r := Finalize.FinalizeTypes(c);
        if r.Ok? then
          FinalizeNames(c);
          Finalize.FinalizeTypesIdempotent(c);
          r
        else r
  }

  /** With nothing to fill, the run stores what the pipeline produced. */
  lemma RunCleaningWithoutFills(env: Env, t: Table)
    requires WellFormed(t)
    ensures RunCleaning(env, t, [], NoNumericFill, NoCategoricalFill) == Pipeline.FullCleanPipeline(env, t)
  {
    var g := Pipeline.Deduplicated(env, t);
    if Finalize.FinalizeTypes(g).Ok? {
      Finalize.FinalizeTypesIdempotent(g);
    }
  }

  /** A rounded column that rounding leaves as it is holds whole numbers as
      nullable integers, or numbers with at most one decimal place. */
  lemma RoundedShape(c: Column, height: nat)
    requires ColumnFits(c, height) && Finalize.IsRoundedName(c.name)
    requires Finalize.RoundedFrom(c, c, c.name != "imdb_rating") && IsNumeric(c.dtype)
    ensures c.name != "imdb_rating" ==> c.dtype == Int64
    ensures forall i :: 0 <= i < height ==> c.cells[i].Absent? || c.cells[i].Num?
    ensures c.name != "imdb_rating" ==> forall i :: 0 <= i < height && c.cells[i].Num? ==> Stats.IsIntegral(c.cells[i].x)
    ensures c.name == "imdb_rating" ==> forall i :: 0 <= i < height && c.cells[i].Num? ==> Stats.OneDecimal(c.cells[i].x)
  {
  }

  /** In what the run stores, "release_year" and "duration_min" hold whole
      numbers as nullable integers and "imdb_rating" numbers with at most
      one decimal place. */
  lemma RunCleaningRounded(env: Env, t: Table, fills: seq<(string, string)>,
                           num: NumericStrategy, cat: CategoricalStrategy)
    requires WellFormed(t) && DistinctKeys(fills) && RunCleaning(env, t, fills, num, cat).Ok?
    ensures var r := RunCleaning(env, t, fills, num, cat).value;
            forall j, i :: 0 <= j < |r.columns| && 0 <= i < r.height ==>
              && (r.columns[j].name == "release_year" || r.columns[j].name == "duration_min" ==>
                    r.columns[j].dtype == Int64 && (r.columns[j].cells[i].Absent? ||
                      (r.columns[j].cells[i].Num? && Stats.IsIntegral(r.columns[j].cells[i].x))))
              && (r.columns[j].name == "imdb_rating" ==>
                    r.columns[j].cells[i].Absent? || (r.columns[j].cells[i].Num? && Stats.OneDecimal(r.columns[j].cells[i].x)))
  {
    var r := RunCleaning(env, t, fills, num, cat).value;
    assert Finalize.FinalizeTypes(r) == Ok(r);
    forall j | 0 <= j < |r.columns| && Finalize.IsRoundedName(r.columns[j].name) {
      RoundedShape(r.columns[j], r.height);
    }
  }

}
