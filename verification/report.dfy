/** `generate_report` (utils.py): missing cells and duplicate rows, before
    and after cleaning. */
module Report {
  import opened Frame
  import Dedup

  datatype Line = Line(metric: string, before: nat, after: nat)

  /** The two report lines. The counts are the table-wide number of missing
      cells and the number of rows equal to an earlier row; each is bounded by
      the table it counts, and is zero exactly when there is nothing missing,
      or no repeated row. `CountAbsent` and `MissingSplit` pin the missing
      count to the number of `Absent` cells, `Dedup.FirstsAndDuplicates` the
      duplicate count to the rows that are not first occurrences. */
  function GenerateReport(before: Table, after: Table): (r: seq<Line>)
    requires WellFormed(before) && WellFormed(after)
    ensures |r| == 2
    ensures r[0].metric == "Missing Values" && r[1].metric == "Duplicate Rows"
    ensures r[0].before == Missing(before.columns) && r[0].after == Missing(after.columns)
    ensures r[1].before == Dedup.CountDuplicated(before) && r[1].after == Dedup.CountDuplicated(after)
    ensures r[0].before <= |before.columns| * before.height && r[0].after <= |after.columns| * after.height
    ensures r[0].before == 0 <==>
              forall j, i :: 0 <= j < |before.columns| && 0 <= i < before.height ==> before.columns[j].cells[i] != Absent
    ensures r[0].after == 0 <==>
              forall j, i :: 0 <= j < |after.columns| && 0 <= i < after.height ==> after.columns[j].cells[i] != Absent
    ensures r[1].before <= before.height && r[1].after <= after.height
    ensures |before.columns| > 0 ==> (r[1].before == 0 <==> Dedup.DistinctRows(before))
    ensures |after.columns| > 0 ==> (r[1].after == 0 <==> Dedup.DistinctRows(after))
  {
    MissingFacts(before);
    MissingFacts(after);
    [Line("Missing Values", Missing(before.columns), Missing(after.columns)),
     Line("Duplicate Rows", Dedup.CountDuplicated(before), Dedup.CountDuplicated(after))]
  }

  lemma MissingFacts(t: Table)
    requires WellFormed(t)
    ensures Missing(t.columns) <= |t.columns| * t.height
    ensures Missing(t.columns) == 0 <==>
              forall j, i :: 0 <= j < |t.columns| && 0 <= i < t.height ==> t.columns[j].cells[i] != Absent
  {
    MissingBound(t.columns, t.height);
    NoneMissing(t.columns);
  }

  /** A deduplicated table reports no duplicate rows, and the rows the
      deduplication dropped are exactly those the "before" count reports. */
  lemma ReportAfterDedup(t: Table)
    requires WellFormed(t)
    ensures var d := Dedup.DropDuplicates(t);
            GenerateReport(t, d)[1].after == 0 &&
            GenerateReport(t, d)[1].before == t.height - d.height
  {
    Dedup.DropDuplicatesIdempotent(t);
    if |t.columns| > 0 {
      Dedup.DropDuplicatesSpec(t);
    }
  }

}
