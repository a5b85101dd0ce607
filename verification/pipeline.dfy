/** `full_clean_pipeline` (utils.py): the eight steps in order. */
module Pipeline {
  import opened Frame
  import Normalize
  import Standardize
  import Numeric
  import Derived
  import Dedup
  import Finalize

  /** Same column names, in the same order. */
  predicate SameNames(a: Table, b: Table) {
    |a.columns| == |b.columns| && forall j :: 0 <= j < |a.columns| ==> a.columns[j].name == b.columns[j].name
  }

  /** The three text steps: null tokens, whitespace, standardisation. */
  function TextSteps(env: Env, t: Table): (r: Table)
    requires WellFormed(t)
    ensures WellFormed(r) && r.height == t.height && SameNames(t, r)
  {
    Standardize.StandardizeData(env, Normalize.CleanWhitespace(env, Normalize.FixTextualNulls(t)))
  }

  /** The numeric step and the date step. */
  function NumberSteps(env: Env, t: Table): (r: Table)
    requires WellFormed(t)
    ensures WellFormed(r) && r.height == t.height && SameNames(t, r)
    ensures forall j :: 0 <= j < |r.columns| && r.columns[j].name in Numeric.Candidates ==> r.columns[j].dtype == Float
    ensures Derived.NumericInputs(r)
  {
    var e := Derived.ConvertDates(env, Numeric.ConvertAndValidateNumeric(env, t));
    CandidatesNumeric(e);
    e
  }

  lemma CandidatesNumeric(e: Table)
    requires forall j :: 0 <= j < |e.columns| && e.columns[j].name in Numeric.Candidates ==> IsNumeric(e.columns[j].dtype)
    ensures Derived.NumericInputs(e)
  {
    var b, o := Find(e.columns, "budget_cr"), Find(e.columns, "box_office_cr");
    assert b >= 0 ==> e.columns[b].name in Numeric.Candidates;
    assert o >= 0 ==> e.columns[o].name in Numeric.Candidates;
  }

  /** The first six steps, up to and including the derived profit. */
  function Prepared(env: Env, t: Table): (r: Table)
    requires WellFormed(t)
    ensures WellFormed(r) && r.height == t.height
    ensures forall j :: 0 <= j < |r.columns| && r.columns[j].name in Numeric.Candidates ==> IsNumeric(r.columns[j].dtype)
  {
    var e := NumberSteps(env, TextSteps(env, t));
    var f := Derived.EnforceLogic(e);
    ProfitNumeric(e, f);
    f
  }

  lemma ProfitNumeric(e: Table, f: Table)
    requires WellFormed(e) && Derived.NumericInputs(e) && f == Derived.EnforceLogic(e)
    requires forall j :: 0 <= j < |e.columns| && e.columns[j].name in Numeric.Candidates ==> IsNumeric(e.columns[j].dtype)
    ensures forall j :: 0 <= j < |f.columns| && f.columns[j].name in Numeric.Candidates ==> IsNumeric(f.columns[j].dtype)
  {
    if Find(e.columns, "budget_cr") >= 0 && Find(e.columns, "box_office_cr") >= 0 {
      var p := Find(f.columns, "profit_cr");
      forall j | 0 <= j < |f.columns| && f.columns[j].name in Numeric.Candidates ensures IsNumeric(f.columns[j].dtype) {
        if f.columns[j].name == "profit_cr" {
          FindUnique(f.columns, j);
        } else {
          assert f.columns[j] == e.columns[j];
        }
      }
    }
  }

  /** The first seven steps, up to and including deduplication; every
      column they leave under one of the three rounded names is numeric. */
  function Deduplicated(env: Env, t: Table): (r: Table)
    requires WellFormed(t)
    ensures WellFormed(r) && r.height <= t.height
    ensures forall j :: 0 <= j < |r.columns| && Finalize.IsRoundedName(r.columns[j].name) ==> IsNumeric(r.columns[j].dtype)
  {
    Dedup.DropDuplicates(Prepared(env, t))
  }

  /** The whole pipeline. The three columns it rounds have all been made
      numeric by the numeric step, so its one way to raise is
      `astype("Int64")` meeting a rounded "release_year" or "duration_min"
      beyond 64 bits. */
  function FullCleanPipeline(env: Env, t: Table): (r: Result<Table>)
    requires WellFormed(t)
    ensures r.Ok? ==> WellFormed(r.value) && r.value.height <= t.height
    ensures var d := Deduplicated(env, t);
            r.Fail? <==> Finalize.Overflowing(d, "release_year") || Finalize.Overflowing(d, "duration_min")
    ensures r.Fail? ==> r.failure == OutOfRange("release_year") || r.failure == OutOfRange("duration_min")
  {
    var d := Deduplicated(env, t);
    Finalize.NumericFinalizeFails(d);
    Finalize.FinalizeTypes(d)
  }

  /** `p` holds of every cell, together with its column's name and dtype. */
  predicate Everywhere(t: Table, p: (string, Dtype, Cell) -> bool) {
    forall j, i :: 0 <= j < |t.columns| && 0 <= i < |t.columns[j].cells| ==>
      p(t.columns[j].name, t.columns[j].dtype, t.columns[j].cells[i])
  }

  lemma NumberStepsKeep(env: Env, t: Table, p: (string, Dtype, Cell) -> bool)
    requires WellFormed(t) && Everywhere(t, p)
    requires forall n, c :: n in Numeric.Candidates ==> p(n, Float, c)
    requires forall n, c :: n in Derived.DateColumns ==> p(n, Datetime, c)
    ensures Everywhere(NumberSteps(env, t), p)
  {
    var d := Numeric.ConvertAndValidateNumeric(env, t);
    assert Everywhere(d, p);
  }

  lemma LogicKeeps(t: Table, p: (string, Dtype, Cell) -> bool)
    requires WellFormed(t) && Derived.NumericInputs(t) && Everywhere(t, p)
    requires forall d, c :: IsNumeric(d) ==> p("profit_cr", d, c)
    ensures Everywhere(Derived.EnforceLogic(t), p)
  {
    var f := Derived.EnforceLogic(t);
    if Find(t.columns, "budget_cr") >= 0 && Find(t.columns, "box_office_cr") >= 0 {
      forall j, i | 0 <= j < |f.columns| && 0 <= i < |f.columns[j].cells|
        ensures p(f.columns[j].name, f.columns[j].dtype, f.columns[j].cells[i])
      {
        if f.columns[j].name == "profit_cr" {
          FindUnique(f.columns, j);
        } else {
          assert f.columns[j] == t.columns[j];
        }
      }
    }
  }

  lemma DedupKeeps(t: Table, p: (string, Dtype, Cell) -> bool)
    requires WellFormed(t) && Everywhere(t, p)
    ensures Everywhere(Dedup.DropDuplicates(t), p)
  {
    var g := Dedup.DropDuplicates(t);
    Dedup.DropDuplicatesRows(t);
    var ks :| Dedup.RowsOf(t, g, ks);
    forall j, i | 0 <= j < |g.columns| && 0 <= i < |g.columns[j].cells|
      ensures p(g.columns[j].name, g.columns[j].dtype, g.columns[j].cells[i])
    {
      assert g.columns[j].cells[i] == t.columns[j].cells[ks[i]];
    }
  }

  lemma FinalizeKeeps(t: Table, p: (string, Dtype, Cell) -> bool)
    requires WellFormed(t) && Everywhere(t, p)
    requires forall n, d, c :: Finalize.IsRoundedName(n) && IsNumeric(d) ==> p(n, d, c)
    ensures Finalize.FinalizeTypes(t).Ok? ==> Everywhere(Finalize.FinalizeTypes(t).value, p)
  {
    if Finalize.FinalizeTypes(t).Fail? { return; }
    var r := Finalize.FinalizeTypes(t).value;
    forall j, i | 0 <= j < |r.columns| && 0 <= i < |r.columns[j].cells|
      ensures p(r.columns[j].name, r.columns[j].dtype, r.columns[j].cells[i])
    {
      if !Finalize.IsRoundedName(t.columns[j].name) {
        assert r.columns[j] == t.columns[j];
      } else {
        assert IsNumeric(t.columns[j].dtype);
      }
    }
  }

  /** A property of single cells that the first three steps establish and
      that no later step can break: it holds of every numeric candidate,
      date, profit or rounded column whatever their cells. */
  lemma CarriedThrough(env: Env, t: Table, p: (string, Dtype, Cell) -> bool)
    requires WellFormed(t) && Everywhere(TextSteps(env, t), p)
    requires forall n, c :: n in Numeric.Candidates ==> p(n, Float, c)
    requires forall n, c :: n in Derived.DateColumns ==> p(n, Datetime, c)
    requires forall d, c :: IsNumeric(d) ==> p("profit_cr", d, c)
    requires forall n, d, c :: Finalize.IsRoundedName(n) && IsNumeric(d) ==> p(n, d, c)
    ensures FullCleanPipeline(env, t).Ok? ==> Everywhere(FullCleanPipeline(env, t).value, p)
  {
    NumberStepsKeep(env, TextSteps(env, t), p);
    LogicKeeps(NumberSteps(env, TextSteps(env, t)), p);
    DedupKeeps(Prepared(env, t), p);
    FinalizeKeeps(Deduplicated(env, t), p);
  }

}
