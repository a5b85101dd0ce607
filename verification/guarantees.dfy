/** What `full_clean_pipeline` (utils.py) guarantees of the table it
    returns, step by step carried to the end. */
module Guarantees {
  import opened Frame
  import Text
  import Stats
  import Normalize
  import Standardize
  import Numeric
  import Derived
  import Dedup
  import Finalize
  import opened Pipeline

  /** The allow-list: a "certificate" cell is missing or one of U, UA, A. */
  predicate CertificateOk(n: string, d: Dtype, c: Cell) {
    n == Standardize.Exempt ==> c.Absent? || (c.Str? && c.s in Standardize.Allowed)
  }

  /** Title-cased text: a present cell of an object column other than the
      exempt one is a non-empty, title-cased string in normal form. */
  predicate TextOk(n: string, d: Dtype, c: Cell) {
    d == Object && Text.Lower(n) != Standardize.Exempt ==> Standardize.Tidy(c)
  }

  lemma TextStepsCertificate(env: Env, t: Table)
    requires WellFormed(t)
    ensures Everywhere(TextSteps(env, t), CertificateOk)
  {
    var b := Normalize.CleanWhitespace(env, Normalize.FixTextualNulls(t));
    Standardize.StandardizeCertificate(env, b);
  }

  lemma TextStepsTidy(env: Env, t: Table)
    requires WellFormed(t)
    ensures Everywhere(TextSteps(env, t), TextOk)
  {
    var a := Normalize.FixTextualNulls(t);
    var b := Normalize.CleanWhitespace(env, a);
    Standardize.StandardizeTidies(env, b);
    var c := TextSteps(env, t);
    forall j, i | 0 <= j < |c.columns| && 0 <= i < |c.columns[j].cells|
      ensures TextOk(c.columns[j].name, c.columns[j].dtype, c.columns[j].cells[i])
    {
      if c.columns[j].dtype == Object && Text.Lower(c.columns[j].name) != Standardize.Exempt {
        assert c.columns[j].name != Standardize.Exempt;
        assert b.columns[j].dtype == Object;
        assert Normalize.WhitespaceClean(b.columns[j].cells[i]);
      }
    }
  }

  /** After the pipeline every "certificate" cell is missing or one of U, UA,
      A. */
  lemma PipelineCertificate(env: Env, t: Table)
    requires WellFormed(t)
    ensures FullCleanPipeline(env, t).Ok? ==> Everywhere(FullCleanPipeline(env, t).value, CertificateOk)
  {
    TextStepsCertificate(env, t);
    CarriedThrough(env, t, CertificateOk);
  }

  /** After the pipeline every present cell of an object column, other than
      "certificate" under any capitalisation, is a non-empty title-cased
      string with no surrounding whitespace and no run of whitespace. */
  lemma PipelineText(env: Env, t: Table)
    requires WellFormed(t)
    ensures FullCleanPipeline(env, t).Ok? ==> Everywhere(FullCleanPipeline(env, t).value, TextOk)
  {
    TextStepsTidy(env, t);
    CarriedThrough(env, t, TextOk);
  }

  /** The range rules of the numeric step, by column name. */
  predicate InRange(year: int, n: string, c: Cell) {
    c.Num? ==>
      && (n == "release_year" ==> 1800.0 <= c.x <= (year + 1) as real)
      && (n == "imdb_rating" ==> 0.0 <= c.x <= 10.0)
      && (n == "duration_min" ==> c.x > 0.0)
      && (n == "budget_cr" || n == "box_office_cr" ==> c.x >= 0.0)
  }

  /** The same ranges once rounded: whole years in [1800, year + 1], whole
      non-negative durations, ratings in [0, 10] with one decimal place. */
  predicate FinalInRange(year: int, n: string, c: Cell) {
    c.Num? ==>
      && (n == "release_year" ==> Stats.IsIntegral(c.x) && 1800.0 <= c.x <= (year + 1) as real)
      && (n == "imdb_rating" ==> Stats.OneDecimal(c.x) && 0.0 <= c.x <= 10.0)
      && (n == "duration_min" ==> Stats.IsIntegral(c.x) && c.x >= 0.0)
      && (n == "budget_cr" || n == "box_office_cr" ==> c.x >= 0.0)
  }

  /** `InRange` for a fixed year, as a property of cells. */
  function RangeRule(year: int): (p: (string, Dtype, Cell) -> bool)
    ensures forall n, d, c :: p(n, d, c) == InRange(year, n, c)
  {
    (n, d, c) => InRange(year, n, c)
  }

  function FinalRangeRule(year: int): (p: (string, Dtype, Cell) -> bool)
    ensures forall n, d, c :: p(n, d, c) == FinalInRange(year, n, c)
  {
    (n, d, c) => FinalInRange(year, n, c)
  }

  lemma NumberStepsInRange(env: Env, t: Table)
    requires WellFormed(t)
    ensures Everywhere(NumberSteps(env, t), RangeRule(env.currentYear))
  {
    var d := Numeric.ConvertAndValidateNumeric(env, t);
    Numeric.NumericRanges(env, t);
    var e := NumberSteps(env, t);
    forall j, i | 0 <= j < |e.columns| && 0 <= i < |e.columns[j].cells|
      ensures InRange(env.currentYear, e.columns[j].name, e.columns[j].cells[i])
    {
      if e.columns[j].name !in Derived.DateColumns {
        assert e.columns[j] == d.columns[j];
      }
    }
  }

  /** Rounding to a whole number keeps a value within whole-number bounds. */
  lemma RoundWithin(x: real, lo: int, hi: int)
    requires lo as real <= x <= hi as real
    ensures lo <= Stats.RoundHalfEven(x) <= hi
  {
  }

  /** Rounding to a tenth keeps a value within bounds that are tenths. */
  lemma Round1Within(x: real, lo: int, hi: int)
    requires lo as real <= x * 10.0 <= hi as real
    ensures lo as real <= Stats.Round1(x) * 10.0 <= hi as real
  {
    var n := Stats.RoundHalfEven(x * 10.0);
    RoundWithin(x * 10.0, lo, hi);
    assert Stats.Round1(x) * 10.0 == n as real;
  }

  lemma FinalizeInRange(year: int, t: Table)
    requires WellFormed(t) && Finalize.FinalizeTypes(t).Ok?
    requires Everywhere(t, RangeRule(year))
    ensures Everywhere(Finalize.FinalizeTypes(t).value, FinalRangeRule(year))
  {
    var r := Finalize.FinalizeTypes(t).value;
    forall j, i | 0 <= j < |r.columns| && 0 <= i < |r.columns[j].cells|
      ensures FinalInRange(year, r.columns[j].name, r.columns[j].cells[i])
    {
      var n, b, a := t.columns[j].name, t.columns[j].cells[i], r.columns[j].cells[i];
      assert InRange(year, n, b);
      if !Finalize.IsRoundedName(n) {
        assert r.columns[j] == t.columns[j];
      } else if a.Num? {
        if n == "release_year" {
          RoundWithin(b.x, 1800, year + 1);
        } else if n == "duration_min" {
          RoundWithin(b.x, 0, b.x.Floor + 1);
        } else {
          Round1Within(b.x, 0, 100);
        }
      }
    }
  }

  /** After the pipeline every present "release_year" is a whole year in
      [1800, year + 1], every "imdb_rating" lies in [0, 10] with one decimal
      place, every "duration_min" is a whole number of at least 0, and
      "budget_cr" and "box_office_cr" are at least 0. */
  lemma PipelineRanges(env: Env, t: Table)
    requires WellFormed(t)
    ensures FullCleanPipeline(env, t).Ok? ==> Everywhere(FullCleanPipeline(env, t).value, FinalRangeRule(env.currentYear))
  {
    var g := Deduplicated(env, t);
    DeduplicatedInRange(env, t);
    if Finalize.FinalizeTypes(g).Ok? {
      FinalizeInRange(env.currentYear, g);
    }
  }

  /** The range rules still hold after deduplication. */
  lemma DeduplicatedInRange(env: Env, t: Table)
    requires WellFormed(t)
    ensures Everywhere(Deduplicated(env, t), RangeRule(env.currentYear))
  {
    var p := RangeRule(env.currentYear);
    var e := NumberSteps(env, TextSteps(env, t));
    NumberStepsInRange(env, TextSteps(env, t));
    ProfitUnconstrained(env.currentYear);
    LogicKeeps(e, p);
    var f := Prepared(env, t);
    assert f == Derived.EnforceLogic(e);
    DedupKeeps(f, p);
  }

  /** A validated year is at most one past the clock's, so as long as that
      fits in 64 bits "release_year" never overflows, and the only way the
      pipeline can raise is a "duration_min" beyond 64 bits. */
  lemma OnlyDurationOverflows(env: Env, t: Table)
    requires WellFormed(t) && env.currentYear < Int64Max
    ensures !Finalize.Overflowing(Deduplicated(env, t), "release_year")
    ensures FullCleanPipeline(env, t).Fail? ==> FullCleanPipeline(env, t).failure == OutOfRange("duration_min")
  {
    var g := Deduplicated(env, t);
    var year := env.currentYear;
    DeduplicatedInRange(env, t);
    var k := Find(g.columns, "release_year");
    if k >= 0 {
      var c := g.columns[k];
      forall i | 0 <= i < |c.cells| && c.cells[i].Num?
        ensures InInt64(Stats.RoundHalfEven(c.cells[i].x) as real)
      {
        assert InRange(year, "release_year", c.cells[i]);
        RoundWithin(c.cells[i].x, 1800, year + 1);
      }
    }
  }

  /** No range rule names "profit_cr". */
  lemma ProfitUnconstrained(year: int)
    ensures forall d, c :: IsNumeric(d) ==> RangeRule(year)("profit_cr", d, c)
  {
    forall d, c | IsNumeric(d) ensures RangeRule(year)("profit_cr", d, c) {
      assert InRange(year, "profit_cr", c);
    }
  }

  /** The columns the numeric step fills with their median. */
  const FillNames: set<string> := {"duration_min", "budget_cr", "box_office_cr"}

  /** Either every cell is missing or none is. */
  predicate AllOrNothing(cells: seq<Cell>) {
    forall i, k :: 0 <= i < |cells| && 0 <= k < |cells| ==> (cells[i].Absent? <==> cells[k].Absent?)
  }

  predicate Filled(t: Table) {
    forall j :: 0 <= j < |t.columns| && t.columns[j].name in FillNames ==> AllOrNothing(t.columns[j].cells)
  }

  lemma NumberStepsFilled(env: Env, t: Table)
    requires WellFormed(t)
    ensures Filled(NumberSteps(env, t))
  {
    var d := Numeric.ConvertAndValidateNumeric(env, t);
    var e := NumberSteps(env, t);
    forall j | 0 <= j < |e.columns| && e.columns[j].name in FillNames ensures AllOrNothing(e.columns[j].cells) {
      assert e.columns[j] == d.columns[j];
      var rule := Numeric.RuleFor(env.currentYear, t.columns[j].name).value;
      var before := t.columns[j].cells;
      var xs := Numeric.Admitted(env, rule, before);
      if |xs| > 0 {
        forall i | 0 <= i < |before| ensures d.columns[j].cells[i].Num? {
          if Numeric.Kept(env, rule, before[i]) {
            assert d.columns[j].cells[i] == Numeric.Coerce(env, before[i]);
          }
        }
      }
    }
  }

  lemma LogicFilled(t: Table)
    requires WellFormed(t) && Derived.NumericInputs(t) && Filled(t)
    ensures Filled(Derived.EnforceLogic(t))
  {
    var f := Derived.EnforceLogic(t);
    if Find(t.columns, "budget_cr") >= 0 && Find(t.columns, "box_office_cr") >= 0 {
      forall j | 0 <= j < |f.columns| && f.columns[j].name in FillNames ensures AllOrNothing(f.columns[j].cells) {
        assert f.columns[j].name != "profit_cr";
        assert f.columns[j] == t.columns[j];
      }
    }
  }

  lemma DedupFilled(t: Table)
    requires WellFormed(t) && Filled(t)
    ensures Filled(Dedup.DropDuplicates(t))
  {
    var g := Dedup.DropDuplicates(t);
    Dedup.DropDuplicatesRows(t);
    var ks :| Dedup.RowsOf(t, g, ks);
    forall j | 0 <= j < |g.columns| && g.columns[j].name in FillNames ensures AllOrNothing(g.columns[j].cells) {
      assert AllOrNothing(t.columns[j].cells);
      forall i, k | 0 <= i < |g.columns[j].cells| && 0 <= k < |g.columns[j].cells|
        ensures g.columns[j].cells[i].Absent? <==> g.columns[j].cells[k].Absent?
      {
        assert g.columns[j].cells[i] == t.columns[j].cells[ks[i]];
        assert g.columns[j].cells[k] == t.columns[j].cells[ks[k]];
      }
    }
  }

  lemma FinalizeFilled(t: Table)
    requires WellFormed(t) && Finalize.FinalizeTypes(t).Ok? && Filled(t)
    ensures Filled(Finalize.FinalizeTypes(t).value)
  {
    var r := Finalize.FinalizeTypes(t).value;
    forall j | 0 <= j < |r.columns| && r.columns[j].name in FillNames ensures AllOrNothing(r.columns[j].cells) {
      assert AllOrNothing(t.columns[j].cells);
    }
  }

  /** After the pipeline, "duration_min", "budget_cr" and "box_office_cr"
      have no missing cell at all, or nothing but missing cells: the median
      fill leaves a gap only when no value survived the range rule. */
  lemma PipelineFills(env: Env, t: Table)
    requires WellFormed(t)
    ensures FullCleanPipeline(env, t).Ok? ==> Filled(FullCleanPipeline(env, t).value)
  {
    NumberStepsFilled(env, TextSteps(env, t));
    LogicFilled(NumberSteps(env, TextSteps(env, t)));
    DedupFilled(Prepared(env, t));
    if FullCleanPipeline(env, t).Ok? {
      FinalizeFilled(Deduplicated(env, t));
    }
  }

  lemma DedupProfit(t: Table)
    requires WellFormed(t) && Derived.ProfitConsistent(t)
    ensures Derived.ProfitConsistent(Dedup.DropDuplicates(t))
  {
    var g := Dedup.DropDuplicates(t);
    Dedup.DropDuplicatesRows(t);
    var ks :| Dedup.RowsOf(t, g, ks);
    FindSameNames(t.columns, g.columns, "budget_cr");
    FindSameNames(t.columns, g.columns, "box_office_cr");
    FindSameNames(t.columns, g.columns, "profit_cr");
    var b, o, p := Find(t.columns, "budget_cr"), Find(t.columns, "box_office_cr"), Find(t.columns, "profit_cr");
    if b >= 0 && o >= 0 {
      var w := Derived.IntOperands(t, b, o);
      assert Derived.IntOperands(g, b, o) == w;
      forall i | 0 <= i < g.height
        ensures g.columns[p].cells[i] == Derived.Difference(g.columns[o].cells[i], g.columns[b].cells[i], w)
      {
        assert g.columns[p].cells[i] == t.columns[p].cells[ks[i]];
        assert g.columns[o].cells[i] == t.columns[o].cells[ks[i]];
        assert g.columns[b].cells[i] == t.columns[b].cells[ks[i]];
      }
    }
  }

  lemma FinalizeProfit(t: Table)
    requires WellFormed(t) && Finalize.FinalizeTypes(t).Ok? && Derived.ProfitConsistent(t)
    ensures Derived.ProfitConsistent(Finalize.FinalizeTypes(t).value)
  {
    var r := Finalize.FinalizeTypes(t).value;
    FindSameNames(t.columns, r.columns, "budget_cr");
    FindSameNames(t.columns, r.columns, "box_office_cr");
    FindSameNames(t.columns, r.columns, "profit_cr");
    var b, o, p := Find(t.columns, "budget_cr"), Find(t.columns, "box_office_cr"), Find(t.columns, "profit_cr");
    if b >= 0 && o >= 0 {
      assert !Finalize.IsRoundedName(t.columns[b].name) && !Finalize.IsRoundedName(t.columns[o].name);
      assert !Finalize.IsRoundedName(t.columns[p].name);
      assert r.columns[b] == t.columns[b] && r.columns[o] == t.columns[o] && r.columns[p] == t.columns[p];
    }
  }

  /** After the pipeline, wherever both "budget_cr" and "box_office_cr"
      exist, "profit_cr" exists and each row holds box office minus budget,
      or is missing when either is. */
  lemma PipelineProfit(env: Env, t: Table)
    requires WellFormed(t)
    ensures FullCleanPipeline(env, t).Ok? ==> Derived.ProfitConsistent(FullCleanPipeline(env, t).value)
  {
    Derived.EnforceLogicConsistent(NumberSteps(env, TextSteps(env, t)));
    DedupProfit(Prepared(env, t));
    if FullCleanPipeline(env, t).Ok? {
      FinalizeProfit(Deduplicated(env, t));
    }
  }

}
