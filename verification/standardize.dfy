/** `standardize_data` (utils.py): title-casing, the value corrections and the
    certificate allow-list. */
module Standardize {
  import opened Frame
  import opened Text
  import Normalize

  /** The column that title-casing skips (compared after lower-casing the
      name) and whose values are checked against `Allowed` (compared exactly). */
  const Exempt: string := "certificate"

  const Allowed: set<string> := {"U", "UA", "A"}

  /** The value corrections, per column name: a cell equal to a key is
      replaced by the key's value. */
  const Corrections: map<string, map<string, string>> :=
    map["platform" := map["Amazom Prime" := "Amazon Prime", "Zee 5" := "Zee5"],
        "country" := map["Indai" := "India", "India " := "India"]]

  /** A present text value the way the title-casing step leaves it when it
      starts from whitespace-clean text. */
  predicate Tidy(c: Cell) {
    c.Absent? || (c.Str? && c.s != "" && NormalForm(c.s) && IsTitled(c.s))
  }

  /** `fillna("")` followed by `astype(str)`. */
  function FilledText(env: Env, c: Cell): string {
    if c.Absent? then "" else AsText(env, c)
  }

  /** `fillna("").astype(str).str.strip().str.title().replace("", np.nan)`
      on one cell. */
  function TitleCell(env: Env, c: Cell): (r: Cell)
    ensures r.Absent? <==> Strip(FilledText(env, c)) == ""
    ensures r.Str? ==> IsTitled(r.s) && Lower(r.s) == Lower(Strip(FilledText(env, c)))
    ensures c.Absent? ==> r.Absent?
    ensures Normalize.WhitespaceClean(c) ==> Tidy(r)
    ensures Tidy(c) ==> r == c
  {
    var u := Strip(FilledText(env, c));
    TitleFacts(u);
    assert c.Str? && NormalForm(c.s) && |c.s| > 0 ==> u == c.s;
    if Title(u) == "" then Absent else Str(Title(u))
  }

  function TitleColumn(env: Env, c: Column): Column {
    if c.dtype == Object && Lower(c.name) != Exempt then
      c.(cells := seq(|c.cells|, i requires 0 <= i < |c.cells| => TitleCell(env, c.cells[i])))
    else c
  }

  /** The title-casing loop: every object column whose lower-cased name is not
      "certificate". */
  function TitleCaseColumns(env: Env, t: Table): (r: Table)
    requires WellFormed(t)
    ensures WellFormed(r) && r.height == t.height && |r.columns| == |t.columns|
    ensures forall j :: 0 <= j < |t.columns| ==>
              r.columns[j].name == t.columns[j].name && r.columns[j].dtype == t.columns[j].dtype
    ensures forall j :: 0 <= j < |t.columns| && (t.columns[j].dtype != Object || Lower(t.columns[j].name) == Exempt) ==>
              r.columns[j] == t.columns[j]
    ensures forall j, i :: 0 <= j < |t.columns| && 0 <= i < t.height &&
                           t.columns[j].dtype == Object && Lower(t.columns[j].name) != Exempt ==>
              var a, b := t.columns[j].cells[i], r.columns[j].cells[i];
              && (b.Absent? <==> Strip(FilledText(env, a)) == "")
              && (b.Str? ==> IsTitled(b.s) && Lower(b.s) == Lower(Strip(FilledText(env, a))))
              && (Normalize.WhitespaceClean(a) ==> Tidy(b))
              && (Tidy(a) ==> b == a)
  {
    Table(seq(|t.columns|, j requires 0 <= j < |t.columns| => TitleColumn(env, t.columns[j])), t.height)
  }

  function CorrectCell(m: map<string, string>, c: Cell): Cell {
    if c.Str? && c.s in m then Str(m[c.s]) else c
  }

  function CorrectColumn(c: Column): Column {
    if c.name in Corrections then
      c.(cells := seq(|c.cells|, i requires 0 <= i < |c.cells| => CorrectCell(Corrections[c.name], c.cells[i])))
    else c
  }

  /** The correction maps: in a column named "platform" or "country", a string
      cell equal to a key is replaced by its correction; every other cell, and
      every other column, is left as it is. */
  function ApplyCorrections(t: Table): (r: Table)
    requires WellFormed(t)
    ensures WellFormed(r) && r.height == t.height && |r.columns| == |t.columns|
    ensures forall j :: 0 <= j < |t.columns| ==>
              r.columns[j].name == t.columns[j].name && r.columns[j].dtype == t.columns[j].dtype
    ensures forall j :: 0 <= j < |t.columns| && t.columns[j].name !in Corrections ==> r.columns[j] == t.columns[j]
    ensures forall j, i :: 0 <= j < |t.columns| && 0 <= i < t.height && t.columns[j].name in Corrections ==>
              var a, b := t.columns[j].cells[i], r.columns[j].cells[i];
              && (a.Str? && a.s in Corrections[t.columns[j].name] ==> b == Str(Corrections[t.columns[j].name][a.s]))
              && (!(a.Str? && a.s in Corrections[t.columns[j].name]) ==> b == a)
  {
    Table(seq(|t.columns|, j requires 0 <= j < |t.columns| => CorrectColumn(t.columns[j])), t.height)
  }

  lemma NoSpaceIsNormal(s: string)
    requires forall i :: 0 <= i < |s| ==> !IsSpace(s[i])
    ensures NormalForm(s)
  {
  }

  lemma AmazonPrimeTidy()
    ensures Tidy(Str("Amazon Prime"))
  {
    AmazonPrimeTitled();
    AmazonPrimeNormal();
  }

  lemma AmazonPrimeTitled()
    ensures IsTitled("Amazon Prime")
  {
    var a := "Amazon Prime";
    var ta := Title(a);
    assert ta[0] == 'A' && ta[1] == 'm' && ta[2] == 'a' && ta[3] == 'z' && ta[4] == 'o' && ta[5] == 'n';
    assert ta[6] == ' ' && ta[7] == 'P' && ta[8] == 'r' && ta[9] == 'i' && ta[10] == 'm' && ta[11] == 'e';
  }

  lemma AmazonPrimeNormal()
    ensures NormalForm("Amazon Prime")
  {
    var a := "Amazon Prime";
    forall i | 0 <= i < |a| ensures IsSpace(a[i]) <==> i == 6 {
      if i != 6 { LetterIsNotSpace(a[i]); } else { BlankIsSpace(); }
    }
  }

  lemma Zee5Tidy()
    ensures Tidy(Str("Zee5"))
  {
    var z := "Zee5";
    var tz := Title(z);
    assert tz[0] == 'Z' && tz[1] == 'e' && tz[2] == 'e' && tz[3] == '5';
    forall i | 0 <= i < |z| ensures !IsSpace(z[i]) {
      if i < 3 { LetterIsNotSpace(z[i]); }
    }
    NoSpaceIsNormal(z);
  }

  lemma IndiaTidy()
    ensures Tidy(Str("India"))
  {
    var n := "India";
    var tn := Title(n);
    assert tn[0] == 'I' && tn[1] == 'n' && tn[2] == 'd' && tn[3] == 'i' && tn[4] == 'a';
    forall i | 0 <= i < |n| ensures !IsSpace(n[i]) { LetterIsNotSpace(n[i]); }
    NoSpaceIsNormal(n);
  }

  /** Every correction is itself a tidy, title-cased value, so correcting a
      tidy column keeps it tidy. */
  lemma CorrectionsAreTidy()
    ensures forall col, k :: col in Corrections && k in Corrections[col] ==> Tidy(Str(Corrections[col][k]))
  {
    AmazonPrimeTidy();
    Zee5Tidy();
    IndiaTidy();
    forall col, k | col in Corrections && k in Corrections[col] ensures Tidy(Str(Corrections[col][k])) {
      assert col == "platform" || col == "country";
    }
  }

  lemma NanIsRejected()
    ensures Strip(Upper("nan")) !in Allowed
  {
    var u := Upper("nan");
    assert u[0] == 'N' && u[2] == 'N';
    assert !IsSpace('N');
    assert Strip(u) == u;
  }

  /** `astype(str).str.upper().str.strip()` followed by the allow-list. */
  function CertificateCell(env: Env, c: Cell): (r: Cell)
    ensures r.Absent? || (r.Str? && r.s in Allowed)
    ensures r.Str? <==> Strip(Upper(AsText(env, c))) in Allowed
    ensures r.Str? ==> r.s == Strip(Upper(AsText(env, c)))
    ensures c.Absent? ==> r.Absent?
  {
    var s := Strip(Upper(AsText(env, c)));
    NanIsRejected();
    if s in Allowed then Str(s) else Absent
  }

  function CertificateColumn(env: Env, c: Column): Column {
    if c.name == Exempt then
      Column(c.name, Object, seq(|c.cells|, i requires 0 <= i < |c.cells| => CertificateCell(env, c.cells[i])))
    else c
  }

  /** The allow-list block, for the column named exactly "certificate". */
  function EnforceCertificate(env: Env, t: Table): (r: Table)
    requires WellFormed(t)
    ensures WellFormed(r) && r.height == t.height && |r.columns| == |t.columns|
    ensures forall j :: 0 <= j < |t.columns| ==> r.columns[j].name == t.columns[j].name
    ensures forall j :: 0 <= j < |t.columns| && t.columns[j].name != Exempt ==> r.columns[j] == t.columns[j]
    ensures forall j :: 0 <= j < |t.columns| && t.columns[j].name == Exempt ==> r.columns[j].dtype == Object
    ensures forall j, i :: 0 <= j < |t.columns| && 0 <= i < t.height && t.columns[j].name == Exempt ==>
              var a, b := t.columns[j].cells[i], r.columns[j].cells[i];
              && (b.Absent? || (b.Str? && b.s in Allowed))
              && (b.Str? <==> Strip(Upper(AsText(env, a))) in Allowed)
              && (b.Str? ==> b.s == Strip(Upper(AsText(env, a))))
              && (a.Absent? ==> b.Absent?)
  {
    Table(seq(|t.columns|, j requires 0 <= j < |t.columns| => CertificateColumn(env, t.columns[j])), t.height)
  }

  /** `standardize_data`: title-casing, then the corrections, then the
      allow-list. */
  function StandardizeData(env: Env, t: Table): (r: Table)
    requires WellFormed(t)
    ensures WellFormed(r) && r.height == t.height && |r.columns| == |t.columns|
    ensures forall j :: 0 <= j < |t.columns| ==> r.columns[j].name == t.columns[j].name
    ensures forall j :: 0 <= j < |t.columns| && t.columns[j].name != Exempt ==>
              r.columns[j].dtype == t.columns[j].dtype
    ensures forall j :: 0 <= j < |t.columns| && t.columns[j].name == Exempt ==> r.columns[j].dtype == Object
  {
    EnforceCertificate(env, ApplyCorrections(TitleCaseColumns(env, t)))
  }

  /** After `standardize_data` every "certificate" cell is missing or one of
      U, UA, A, and a cell that was missing stays missing. */
  lemma StandardizeCertificate(env: Env, t: Table)
    requires WellFormed(t)
    ensures var r := StandardizeData(env, t);
            forall j, i :: 0 <= j < |t.columns| && 0 <= i < t.height && t.columns[j].name == Exempt ==>
              && (r.columns[j].cells[i].Absent? || (r.columns[j].cells[i].Str? && r.columns[j].cells[i].s in Allowed))
              && (t.columns[j].cells[i].Absent? ==> r.columns[j].cells[i].Absent?)
  {
    var a := TitleCaseColumns(env, t);
    var b := ApplyCorrections(a);
    assert Lower(Exempt) == Exempt;
    assert Exempt !in Corrections;
    forall j, i | 0 <= j < |t.columns| && 0 <= i < t.height && t.columns[j].name == Exempt
      ensures t.columns[j].cells[i].Absent? ==> b.columns[j].cells[i].Absent?
    {
    }
  }

  /** A column whose lower-cased name is "certificate" but which is not named
      exactly so is skipped by all three parts; so is a non-object column
      outside the correction table. */
  lemma StandardizeSkips(env: Env, t: Table)
    requires WellFormed(t)
    ensures var r := StandardizeData(env, t);
            forall j :: 0 <= j < |t.columns| && t.columns[j].name != Exempt &&
                        (Lower(t.columns[j].name) == Exempt ||
                         (t.columns[j].dtype != Object && t.columns[j].name !in Corrections)) ==>
              r.columns[j] == t.columns[j]
  {
    assert Lower("platform") != Exempt && Lower("country") != Exempt;
  }

  /** An object column other than the exempt one, whose text
      `clean_whitespace` has already tidied, comes out title-cased: every
      present cell is a non-empty, title-cased string in normal form. */
  lemma StandardizeTidies(env: Env, t: Table)
    requires WellFormed(t)
    ensures var r := StandardizeData(env, t);
            forall j, i :: 0 <= j < |t.columns| && 0 <= i < t.height &&
                           t.columns[j].dtype == Object && Lower(t.columns[j].name) != Exempt &&
                           Normalize.WhitespaceClean(t.columns[j].cells[i]) ==>
              Tidy(r.columns[j].cells[i])
  {
    var a := TitleCaseColumns(env, t);
    var b := ApplyCorrections(a);
    var r := StandardizeData(env, t);
    forall j, i | 0 <= j < |t.columns| && 0 <= i < t.height &&
                  t.columns[j].dtype == Object && Lower(t.columns[j].name) != Exempt &&
                  Normalize.WhitespaceClean(t.columns[j].cells[i])
      ensures Tidy(r.columns[j].cells[i])
    {
      var name := t.columns[j].name;
      ExemptIsLower();
      var x := a.columns[j].cells[i];
      assert Tidy(x);
      CorrectedTidy(name, x);
      assert b.columns[j].cells[i] == if name in Corrections then CorrectCell(Corrections[name], x) else x;
      assert r.columns[j] == b.columns[j];
    }
  }

  lemma ExemptIsLower()
    ensures Lower(Exempt) == Exempt
  {
  }

  /** Correcting a tidy value keeps it tidy. */
  lemma CorrectedTidy(name: string, c: Cell)
    requires Tidy(c)
    ensures Tidy(if name in Corrections then CorrectCell(Corrections[name], c) else c)
  {
    if name in Corrections && c.Str? && c.s in Corrections[name] {
      CorrectionsAreTidy();
    }
  }

}
