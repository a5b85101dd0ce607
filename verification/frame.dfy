/** The table the pipeline works on: a pandas DataFrame seen as an ordered
    sequence of named columns of equal length, each with a dtype. */
module Frame {
  import opened Options
  import Text
  import Stats

  /** One cell. `Absent` is pandas' missing value (NaN, NaT, pd.NA); it is
      equal to itself, as `duplicated()` treats it. `Date` holds a point in
      time as a count of some fixed unit. */
  datatype Cell = Absent | Str(s: string) | Num(x: real) | Date(day: int)

  /** The dtype of a column as `select_dtypes` sees it: `Object` is "object";
      `Float` (float64 or int64) and `Int64` (the nullable integer dtype) are
      "number"; `Datetime` is datetime64. */
  datatype Dtype = Object | Float | Int64 | Datetime

  predicate IsNumeric(d: Dtype) { d == Float || d == Int64 }

  datatype Column = Column(name: string, dtype: Dtype, cells: seq<Cell>)

  /** `height` is the row count; it survives a table without columns. */
  datatype Table = Table(columns: seq<Column>, height: nat)

  /** What the pipeline takes from outside: the year of the clock, the
      coercions `pd.to_numeric(errors="coerce")` and
      `pd.to_datetime(errors="coerce")` of a cell that is neither missing nor
      already of the target type, `str()` of a cell that is neither missing nor
      a string, and Python's `float()` of a fill literal (none when it raises). */
  datatype Env = Env(
    currentYear: int,
    toNumeric: Cell -> Option<real>,
    toDatetime: Cell -> Option<int>,
    render: Cell -> string,
    parseFloat: string -> Option<real>)

  /** Why the caller-driven part can raise. */
  datatype Failure =
    | RejectedFill(column: string, value: Cell)   // an Int64 column cannot hold the fill value
    | NotNumeric(column: string)                  // rounding a column that is not numeric
    | OutOfRange(column: string)                  // a rounded value does not fit in 64 bits

  datatype Result<+T> = Ok(value: T) | Fail(failure: Failure)

  /** The range of a 64-bit signed integer: numpy's int64, and the values of
      pandas' nullable "Int64". */
  const Int64Min: int := -0x8000_0000_0000_0000
  const Int64Max: int := 0x7FFF_FFFF_FFFF_FFFF

  predicate InInt64(x: real) { Int64Min as real <= x <= Int64Max as real }

  /** The cells a column of dtype `d` can hold. */
  predicate Fits(d: Dtype, c: Cell) {
    match d
    case Object => true
    case Float => c.Absent? || c.Num?
    case Int64 => c.Absent? || (c.Num? && Stats.IsIntegral(c.x) && InInt64(c.x))
    case Datetime => c.Absent? || c.Date?
  }

  predicate ColumnFits(c: Column, height: nat) {
    |c.cells| == height && forall i :: 0 <= i < |c.cells| ==> Fits(c.dtype, c.cells[i])
  }

  predicate UniqueNames(cols: seq<Column>) {
    forall j, k :: 0 <= j < k < |cols| ==> cols[j].name != cols[k].name
  }

  /** The DataFrame invariant: equal-length columns whose cells fit their
      dtype, under distinct names. */
  predicate WellFormed(t: Table) {
    && (forall j :: 0 <= j < |t.columns| ==> ColumnFits(t.columns[j], t.height))
    && UniqueNames(t.columns)
  }

  /** Position of the column called `name`, or -1 (`name in df.columns`). */
  function Find(cols: seq<Column>, name: string): (k: int)
    ensures -1 <= k < |cols|
    ensures k >= 0 ==> cols[k].name == name
    ensures k < 0 <==> forall j :: 0 <= j < |cols| ==> cols[j].name != name
  {
    if |cols| == 0 then -1
    else if cols[0].name == name then 0
    else
      var k := Find(cols[1..], name);
      if k < 0 then -1 else k + 1
  }

  lemma FindUnique(cols: seq<Column>, j: nat)
    requires UniqueNames(cols) && j < |cols|
    ensures Find(cols, cols[j].name) == j
  {
  }

  /** Tables with the same column names find the same positions. */
  lemma {:induction false} FindSameNames(a: seq<Column>, b: seq<Column>, name: string)
    requires |a| == |b| && forall j :: 0 <= j < |a| ==> a[j].name == b[j].name
    ensures Find(a, name) == Find(b, name)
  {
    if |a| > 0 {
      FindSameNames(a[1..], b[1..], name);
    }
  }

  /** `df[c.name] = c`: the column of that name is replaced where it stands,
      or the new column is appended last. */
  function Assign(t: Table, c: Column): (r: Table)
    requires WellFormed(t) && ColumnFits(c, t.height)
    ensures WellFormed(r) && r.height == t.height
    ensures |r.columns| == |t.columns| + (if Find(t.columns, c.name) < 0 then 1 else 0)
    ensures Find(r.columns, c.name) >= 0 && r.columns[Find(r.columns, c.name)] == c
    ensures Find(t.columns, c.name) >= 0 ==> Find(r.columns, c.name) == Find(t.columns, c.name)
    ensures Find(t.columns, c.name) < 0 ==> r.columns[|t.columns|] == c
    ensures forall j :: 0 <= j < |t.columns| && t.columns[j].name != c.name ==> r.columns[j] == t.columns[j]
    ensures forall n :: n != c.name ==> Find(r.columns, n) == Find(t.columns, n)
  {
    var p := Find(t.columns, c.name);
    if p >= 0 then
      AssignFinds(t, t.columns[p := c], c, p);
      Table(t.columns[p := c], t.height)
    else
      AssignFinds(t, t.columns + [c], c, |t.columns|);
      Table(t.columns + [c], t.height)
  }

  /** Putting `c` at position `q`, over the column of its name or past the
      end when there is none, keeps the names unique and moves no other name. */
  lemma AssignFinds(t: Table, cols: seq<Column>, c: Column, q: nat)
    requires WellFormed(t) && ColumnFits(c, t.height)
    requires var p := Find(t.columns, c.name);
             if p >= 0 then q == p && cols == t.columns[p := c] else q == |t.columns| && cols == t.columns + [c]
    ensures WellFormed(Table(cols, t.height))
    ensures Find(cols, c.name) == q
    ensures forall n :: n != c.name ==> Find(cols, n) == Find(t.columns, n)
  {
    assert cols[q] == c;
    assert forall j :: 0 <= j < |t.columns| && j != q ==> cols[j] == t.columns[j];
    assert UniqueNames(cols) by {
      forall j, k | 0 <= j < k < |cols| ensures cols[j].name != cols[k].name {
        if j != q && k != q {
          assert cols[j] == t.columns[j] && cols[k] == t.columns[k];
        }
      }
    }
    FindUnique(cols, q);
    forall n | n != c.name ensures Find(cols, n) == Find(t.columns, n) {
      var k := Find(t.columns, n);
      if k >= 0 {
        FindUnique(cols, k);
      }
    }
  }

  /** Assigning a column under the name of column `j` replaces column `j`. */
  lemma AssignInPlace(t: Table, j: nat, c: Column)
    requires WellFormed(t) && ColumnFits(c, t.height) && j < |t.columns| && c.name == t.columns[j].name
    ensures Assign(t, c) == Table(t.columns[j := c], t.height)
  {
    FindUnique(t.columns, j);
  }

  /** `astype(str)`: a missing cell becomes "nan". */
  function AsText(env: Env, c: Cell): (r: string)
    ensures c.Absent? ==> r == "nan"
    ensures c.Str? ==> r == c.s
  {
    match c
    case Absent => "nan"
    case Str(s) => s
    case _ => env.render(c)
  }

  /** Number of missing cells (`isnull().sum()` of one column): how many
      times `Absent` occurs among the cells. */
  function CountAbsent(cells: seq<Cell>): (n: nat)
    ensures n == multiset(cells)[Absent]
    ensures n <= |cells|
    ensures n == 0 <==> forall i :: 0 <= i < |cells| ==> cells[i] != Absent
  {
    if |cells| == 0 then 0
    else
      assert cells == [cells[0]] + cells[1..];
      (if cells[0] == Absent then 1 else 0) + CountAbsent(cells[1..])
  }

  /** Number of missing cells of the whole table (`isnull().sum().sum()`). */
  function Missing(cols: seq<Column>): nat {
    if |cols| == 0 then 0 else CountAbsent(cols[0].cells) + Missing(cols[1..])
  }

  /** The table-wide count adds up over any split of the columns; in
      particular one more column adds its own missing cells. */
  lemma {:induction false} MissingSplit(a: seq<Column>, b: seq<Column>)
    ensures Missing(a + b) == Missing(a) + Missing(b)
  {
    if |a| > 0 {
      assert (a + b)[1..] == a[1..] + b;
      MissingSplit(a[1..], b);
    } else {
      assert a + b == b;
    }
  }

  lemma MissingAppend(cols: seq<Column>, c: Column)
    ensures Missing(cols + [c]) == Missing(cols) + multiset(c.cells)[Absent]
  {
    MissingSplit(cols, [c]);
    assert [c][1..] == [];
  }

  lemma {:induction false} MissingBound(cols: seq<Column>, height: nat)
    requires forall j :: 0 <= j < |cols| ==> |cols[j].cells| == height
    ensures Missing(cols) <= |cols| * height
  {
    if |cols| > 0 {
      MissingBound(cols[1..], height);
      AddBound(CountAbsent(cols[0].cells), Missing(cols[1..]), |cols| - 1, height);
    }
  }

  lemma AddBound(a: nat, b: nat, k: nat, h: nat)
    requires a <= h && b <= k * h
    ensures a + b <= (k + 1) * h
  {
    assert (k + 1) * h == h + k * h;
  }

  lemma {:induction false} NoneMissing(cols: seq<Column>)
    ensures Missing(cols) == 0 <==>
              forall j, i :: 0 <= j < |cols| && 0 <= i < |cols[j].cells| ==> cols[j].cells[i] != Absent
  {
    if |cols| > 0 {
      NoneMissing(cols[1..]);
      assert forall j :: 1 <= j < |cols| ==> cols[j] == cols[1..][j - 1];
    }
  }

  /** The numbers among `cells`, in order (the values `median()`/`mean()` see). */
  function PresentValues(cells: seq<Cell>): (xs: seq<real>)
    ensures forall x :: x in xs <==> Num(x) in cells
    ensures |xs| == 0 <==> forall i :: 0 <= i < |cells| ==> !cells[i].Num?
  {
    if |cells| == 0 then []
    else
      assert cells == [cells[0]] + cells[1..];
      (if cells[0].Num? then [cells[0].x] else []) + PresentValues(cells[1..])
  }

  /** `fillna(v)` on the cells of one column. */
  function FillAbsent(cells: seq<Cell>, v: Cell): (r: seq<Cell>)
    ensures |r| == |cells|
    ensures forall i :: 0 <= i < |cells| ==> r[i] == if cells[i] == Absent then v else cells[i]
  {
    seq(|cells|, i requires 0 <= i < |cells| => if cells[i] == Absent then v else cells[i])
  }

  /** Row `i`, one cell per column. */
  function Row(t: Table, i: nat): (r: seq<Cell>)
    requires WellFormed(t) && i < t.height
    ensures |r| == |t.columns|
    ensures forall j :: 0 <= j < |t.columns| ==> r[j] == t.columns[j].cells[i]
  {
    seq(|t.columns|, j requires 0 <= j < |t.columns| => t.columns[j].cells[i])
  }

  function Rows(t: Table): (rs: seq<seq<Cell>>)
    requires WellFormed(t)
    ensures |rs| == t.height
    ensures forall i :: 0 <= i < t.height ==> rs[i] == Row(t, i)
  {
    seq(t.height, i requires 0 <= i < t.height => Row(t, i))
  }

  /** The rows at positions `ks`, in that order, renumbered from 0
      (boolean selection followed by `reset_index(drop=True)`). */
  function Select(t: Table, ks: seq<nat>): (r: Table)
    requires WellFormed(t)
    requires forall k :: 0 <= k < |ks| ==> ks[k] < t.height
    ensures WellFormed(r)
    ensures r.height == |ks| && |r.columns| == |t.columns|
    ensures forall j :: 0 <= j < |t.columns| ==>
              r.columns[j].name == t.columns[j].name && r.columns[j].dtype == t.columns[j].dtype
    ensures forall j, k :: 0 <= j < |t.columns| && 0 <= k < |ks| ==>
              r.columns[j].cells[k] == t.columns[j].cells[ks[k]]
  {
    Table(seq(|t.columns|, j requires 0 <= j < |t.columns| =>
            var c := t.columns[j];
            c.(cells := seq(|ks|, k requires 0 <= k < |ks| => c.cells[ks[k]]))),
          |ks|)
  }

  lemma SelectRows(t: Table, ks: seq<nat>)
    requires WellFormed(t)
    requires forall k :: 0 <= k < |ks| ==> ks[k] < t.height
    ensures forall k :: 0 <= k < |ks| ==> Row(Select(t, ks), k) == Row(t, ks[k])
  {
    var r := Select(t, ks);
    forall k | 0 <= k < |ks| ensures Row(r, k) == Row(t, ks[k]) {
      assert forall j :: 0 <= j < |t.columns| ==> Row(r, k)[j] == Row(t, ks[k])[j];
    }
  }

  /** Selecting every row, in order, gives the table back. */
  lemma SelectAll(t: Table, ks: seq<nat>)
    requires WellFormed(t)
    requires |ks| == t.height && forall k :: 0 <= k < |ks| ==> ks[k] == k
    ensures Select(t, ks) == t
  {
    var r := Select(t, ks);
    forall j | 0 <= j < |t.columns| ensures r.columns[j] == t.columns[j] {
      assert r.columns[j].cells == t.columns[j].cells;
    }
    assert r.columns == t.columns;
  }

  function Rank(c: Cell): nat {
    match c
    case Absent => 0
    case Num(_) => 1
    case Str(_) => 2
    case Date(_) => 3
  }

  /** The order in which ties are broken by `mode()`: numbers by value, strings
      by code points, dates by time; numbers before strings before dates. */
  predicate CellLess(a: Cell, b: Cell) {
    match (a, b)
    case (Num(x), Num(y)) => x < y
    case (Str(s), Str(u)) => Text.LexLess(s, u)
    case (Date(d), Date(e)) => d < e
    case _ => Rank(a) < Rank(b)
  }

  lemma CellLessIrreflexive(a: Cell)
    ensures !CellLess(a, a)
  {
    if a.Str? { Text.LexIrreflexive(a.s); }
  }

  lemma CellLessTransitive(a: Cell, b: Cell, c: Cell)
    requires CellLess(a, b) && CellLess(b, c)
    ensures CellLess(a, c)
  {
    if a.Str? && b.Str? && c.Str? { Text.LexTransitive(a.s, b.s, c.s); }
  }

  lemma CellLessTotal(a: Cell, b: Cell)
    requires a != b
    ensures CellLess(a, b) || CellLess(b, a)
  {
    if a.Str? && b.Str? { Text.LexTotal(a.s, b.s); }
  }

}
