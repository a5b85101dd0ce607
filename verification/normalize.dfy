/** The first two cleaning steps, `fix_textual_nulls` and `clean_whitespace`
    (utils.py). */
module Normalize {
  import opened Frame
  import opened Text

  /** The thirteen strings `fix_textual_nulls` treats as missing. */
  const NullTokens: set<string> :=
    {"", " ", "  ", "nan", "NaN", "NAN", "null", "NULL", "None", "none", "undefined", "Undefined", "-"}

  predicate IsNullToken(c: Cell) { c.Str? && c.s in NullTokens }

  function NullCell(c: Cell): Cell {
    if IsNullToken(c) then Absent else c
  }

  function NullColumn(c: Column): Column {
    c.(cells := seq(|c.cells|, i requires 0 <= i < |c.cells| => NullCell(c.cells[i])))
  }

  /** `df.replace(null_like, np.nan)`: exact matches only, in every column. */
  function FixTextualNulls(t: Table): (r: Table)
    requires WellFormed(t)
    ensures WellFormed(r) && r.height == t.height && |r.columns| == |t.columns|
    ensures forall j :: 0 <= j < |t.columns| ==>
              r.columns[j].name == t.columns[j].name && r.columns[j].dtype == t.columns[j].dtype
    ensures forall j, i :: 0 <= j < |t.columns| && 0 <= i < t.height ==> !IsNullToken(r.columns[j].cells[i])
    ensures forall j, i :: 0 <= j < |t.columns| && 0 <= i < t.height && IsNullToken(t.columns[j].cells[i]) ==>
              r.columns[j].cells[i] == Absent
    ensures forall j, i :: 0 <= j < |t.columns| && 0 <= i < t.height && !IsNullToken(t.columns[j].cells[i]) ==>
              r.columns[j].cells[i] == t.columns[j].cells[i]
  {
    Table(seq(|t.columns|, j requires 0 <= j < |t.columns| => NullColumn(t.columns[j])), t.height)
  }

  lemma FixTextualNullsIdempotent(t: Table)
    requires WellFormed(t)
    ensures FixTextualNulls(FixTextualNulls(t)) == FixTextualNulls(t)
  {
    var r := FixTextualNulls(t);
    var r2 := FixTextualNulls(r);
    forall j | 0 <= j < |r.columns| ensures r2.columns[j] == r.columns[j] {
      assert r2.columns[j].cells == r.columns[j].cells;
    }
    assert r2.columns == r.columns;
  }

  /** What `clean_whitespace` leaves in a cell of an object column. */
  predicate WhitespaceClean(c: Cell) {
    c.Absent? || (c.Str? && NormalForm(c.s) && c.s != "nan")
  }

  /** `astype(str).str.strip().str.replace(r"\s+", " ").replace("nan", np.nan)`
      on one cell. */
  function WhitespaceCell(env: Env, c: Cell): (r: Cell)
    ensures WhitespaceClean(r)
    ensures r.Absent? <==> Normalize(AsText(env, c)) == "nan"
    ensures r.Str? ==> r.s == Normalize(AsText(env, c)) && NonSpace(r.s) == NonSpace(AsText(env, c))
    ensures c.Absent? ==> r.Absent?
    ensures WhitespaceClean(c) ==> r == c
  {
    WhitespaceKeepsClean(env, c);
    var s := Normalize(AsText(env, c));
    if s == "nan" then Absent else Str(s)
  }

  /** A missing cell reads as "nan", and a cell already in normal form
      normalizes to itself. */
  lemma WhitespaceKeepsClean(env: Env, c: Cell)
    ensures c.Absent? ==> Normalize(AsText(env, c)) == "nan"
    ensures c.Str? && NormalForm(c.s) ==> Normalize(AsText(env, c)) == c.s
  {
    if c.Absent? {
      NanIsNormal();
    } else if c.Str? && NormalForm(c.s) {
      NormalizeKeepsNormalForm(c.s);
    }
  }

  function WhitespaceColumn(env: Env, c: Column): Column {
    if c.dtype == Object then
      c.(cells := seq(|c.cells|, i requires 0 <= i < |c.cells| => WhitespaceCell(env, c.cells[i])))
    else c
  }

  /** `clean_whitespace`: every object column is stripped and collapsed, and a
      cell whose result is "nan" (a missing cell among them) becomes missing;
      other columns are untouched. */
  function CleanWhitespace(env: Env, t: Table): (r: Table)
    requires WellFormed(t)
    ensures WellFormed(r) && r.height == t.height && |r.columns| == |t.columns|
    ensures forall j :: 0 <= j < |t.columns| ==>
              r.columns[j].name == t.columns[j].name && r.columns[j].dtype == t.columns[j].dtype
    ensures forall j :: 0 <= j < |t.columns| && t.columns[j].dtype != Object ==> r.columns[j] == t.columns[j]
    ensures forall j, i :: 0 <= j < |t.columns| && 0 <= i < t.height && t.columns[j].dtype == Object ==>
              && WhitespaceClean(r.columns[j].cells[i])
              && (r.columns[j].cells[i].Absent? <==> Normalize(AsText(env, t.columns[j].cells[i])) == "nan")
              && (r.columns[j].cells[i].Str? ==>
                    && r.columns[j].cells[i].s == Normalize(AsText(env, t.columns[j].cells[i]))
                    && NonSpace(r.columns[j].cells[i].s) == NonSpace(AsText(env, t.columns[j].cells[i])))
              && (WhitespaceClean(t.columns[j].cells[i]) ==> r.columns[j].cells[i] == t.columns[j].cells[i])
  {
    Table(seq(|t.columns|, j requires 0 <= j < |t.columns| => WhitespaceColumn(env, t.columns[j])), t.height)
  }

  lemma CleanWhitespaceIdempotent(env: Env, t: Table)
    requires WellFormed(t)
    ensures CleanWhitespace(env, CleanWhitespace(env, t)) == CleanWhitespace(env, t)
  {
    var r := CleanWhitespace(env, t);
    var r2 := CleanWhitespace(env, r);
    forall j | 0 <= j < |r.columns| ensures r2.columns[j] == r.columns[j] {
      if r.columns[j].dtype == Object {
        assert r2.columns[j].cells == r.columns[j].cells;
      }
    }
    assert r2.columns == r.columns;
  }

}
