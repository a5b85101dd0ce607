/** Row deduplication: `drop_duplicates().reset_index(drop=True)` as the
    pipeline runs it (utils.py) and the count `duplicated().sum()` the report
    takes. Two rows are duplicates when they are equal cell by cell, a
    missing cell being equal to a missing cell. */
module Dedup {
  import opened Frame

  /** Row `i` is the first of its kind: no earlier row equals it. */
  predicate IsFirst(rs: seq<seq<Cell>>, i: nat)
    requires i < |rs|
  {
    rs[i] !in rs[..i]
  }

  /** The positions below `n` of the first occurrences, in increasing order. */
  function Firsts(rs: seq<seq<Cell>>, n: nat): (ks: seq<nat>)
    requires n <= |rs|
    ensures |ks| <= n
    ensures forall a, b :: 0 <= a < b < |ks| ==> ks[a] < ks[b]
    ensures forall k :: 0 <= k < |ks| ==> ks[k] < n
    ensures forall i :: 0 <= i < n ==> (i in ks <==> IsFirst(rs, i))
    decreases n
  {
    if n == 0 then []
    else Firsts(rs, n - 1) + (if IsFirst(rs, n - 1) then [n - 1] else [])
  }

  /** Position of the first `x` in `s`. */
  function IndexOf<T(==)>(s: seq<T>, x: T): (k: nat)
    requires x in s
    ensures k < |s| && s[k] == x && x !in s[..k]
  {
    if s[0] == x then 0
    else
      var k := IndexOf(s[1..], x);
      assert s[..k + 1] == [s[0]] + s[1..][..k];
      k + 1
  }

  /** Every row has its first occurrence at or before it. */
  lemma FirstCovers(rs: seq<seq<Cell>>, n: nat, i: nat)
    requires n <= |rs| && i < n
    ensures exists a :: 0 <= a < |Firsts(rs, n)| && Firsts(rs, n)[a] <= i && rs[Firsts(rs, n)[a]] == rs[i]
  {
    var pre := rs[..i + 1];
    var k := IndexOf(pre, rs[i]);
    assert pre[..k] == rs[..k];
    assert IsFirst(rs, k);
    var ks := Firsts(rs, n);
    assert k in ks;
    var a :| 0 <= a < |ks| && ks[a] == k;
  }

  /** The number of rows below `n` equal to some earlier row. */
  function Duplicates(rs: seq<seq<Cell>>, n: nat): (d: nat)
    requires n <= |rs|
    ensures d <= n
    ensures d == 0 <==> forall i :: 0 <= i < n ==> IsFirst(rs, i)
    decreases n
  {
    if n == 0 then 0
    else Duplicates(rs, n - 1) + (if IsFirst(rs, n - 1) then 0 else 1)
  }

  /** Each row is either a first occurrence or a duplicate. */
  lemma {:induction false} FirstsAndDuplicates(rs: seq<seq<Cell>>, n: nat)
    requires n <= |rs|
    ensures |Firsts(rs, n)| + Duplicates(rs, n) == n
    decreases n
  {
    if n > 0 {
      FirstsAndDuplicates(rs, n - 1);
      var tail: seq<nat> := if IsFirst(rs, n - 1) then [n - 1] else [];
      assert Firsts(rs, n) == Firsts(rs, n - 1) + tail;
      assert |Firsts(rs, n)| == |Firsts(rs, n - 1)| + |tail|;
    }
  }

  /** No two rows of `t` are equal. */
  predicate DistinctRows(t: Table)
    requires WellFormed(t)
  {
    forall a, b :: 0 <= a < b < t.height ==> Row(t, a) != Row(t, b)
  }

  /** Rows are pairwise distinct exactly when each is a first occurrence. */
  lemma DistinctIffFirsts(t: Table)
    requires WellFormed(t)
    ensures DistinctRows(t) <==> forall i :: 0 <= i < t.height ==> IsFirst(Rows(t), i)
  {
    var rs := Rows(t);
    if DistinctRows(t) {
      forall i | 0 <= i < t.height ensures IsFirst(rs, i) {
        assert forall a :: 0 <= a < i ==> rs[..i][a] != rs[i];
      }
    } else {
      var a, b :| 0 <= a < b < t.height && Row(t, a) == Row(t, b);
      assert rs[..b][a] == rs[b];
      assert !IsFirst(rs, b);
    }
  }

  lemma DuplicatesOfRows(t: Table)
    requires WellFormed(t)
    ensures t.height > 0 ==> Duplicates(Rows(t), t.height) < t.height
    ensures Duplicates(Rows(t), t.height) == 0 <==> DistinctRows(t)
  {
    var rs := Rows(t);
    if t.height > 0 {
      assert IsFirst(rs, 0);
      FirstsAndDuplicates(rs, t.height);
      assert 0 in Firsts(rs, t.height);
    }
    DistinctIffFirsts(t);
  }

  /** `df.duplicated().sum()`; an empty frame (no columns) has no duplicates. */
  function CountDuplicated(t: Table): (d: nat)
    requires WellFormed(t)
    ensures d <= t.height
    ensures t.height > 0 ==> d < t.height
    ensures |t.columns| > 0 ==> (d == 0 <==> DistinctRows(t))
  {
    if |t.columns| == 0 then 0
    else
      DuplicatesOfRows(t);
      Duplicates(Rows(t), t.height)
  }

  /** `drop_duplicates().reset_index(drop=True)`: the first occurrence of
      every row, in the original order. pandas returns an empty frame (no
      columns) as it is. */
  function DropDuplicates(t: Table): (r: Table)
    requires WellFormed(t)
    ensures WellFormed(r) && r.height <= t.height && |r.columns| == |t.columns|
    ensures forall j :: 0 <= j < |t.columns| ==>
              r.columns[j].name == t.columns[j].name && r.columns[j].dtype == t.columns[j].dtype
    ensures |t.columns| == 0 ==> r == t
  {
    if |t.columns| == 0 then t
    else Select(t, Firsts(Rows(t), t.height))
  }

  /** `r` is made of rows of `t`: row `k` of `r` is row `ks[k]` of `t`. */
  predicate RowsOf(t: Table, r: Table, ks: seq<nat>) {
    && |ks| == r.height && |r.columns| == |t.columns|
    && (forall k :: 0 <= k < |ks| ==> ks[k] < t.height)
    && forall j, k :: 0 <= j < |t.columns| && 0 <= k < |ks| ==>
         |r.columns[j].cells| == |ks| && |t.columns[j].cells| == t.height &&
         r.columns[j].cells[k] == t.columns[j].cells[ks[k]]
  }

  /** Deduplication only drops rows: whatever holds of every cell of a column
      still holds afterwards. */
  lemma DropDuplicatesRows(t: Table)
    requires WellFormed(t)
    ensures exists ks :: RowsOf(t, DropDuplicates(t), ks)
  {
    var r := DropDuplicates(t);
    if |t.columns| == 0 {
      assert RowsOf(t, r, seq(t.height, k => k));
    } else {
      assert RowsOf(t, r, Firsts(Rows(t), t.height));
    }
  }

  /** The rows that survive are pairwise distinct, every input row has a
      surviving copy at or before its own position, the survivors are first
      occurrences kept in their original order, and the number dropped is
      the number `duplicated()` counts. */
  lemma DropDuplicatesSpec(t: Table)
    requires WellFormed(t) && |t.columns| > 0
    ensures var r := DropDuplicates(t); var ks := Firsts(Rows(t), t.height);
            && DistinctRows(r)
            && r.height == |ks|
            && (forall k :: 0 <= k < r.height ==> Row(r, k) == Row(t, ks[k]) && IsFirst(Rows(t), ks[k]))
            && (forall i :: 0 <= i < t.height ==> exists k :: 0 <= k < r.height && ks[k] <= i && Row(r, k) == Row(t, i))
            && r.height + CountDuplicated(t) == t.height
  {
    var rs := Rows(t);
    var ks := Firsts(rs, t.height);
    var r := DropDuplicates(t);
    SelectRows(t, ks);
    SurvivorsDistinct(t, r, ks);
    SurvivorsCover(t, r, ks);
    FirstsAndDuplicates(rs, t.height);
    assert CountDuplicated(t) == Duplicates(rs, t.height);
  }

  /** Every row of `t` has a copy among the rows picked at first
      occurrences, at or before its own position. */
  lemma SurvivorsCover(t: Table, r: Table, ks: seq<nat>)
    requires WellFormed(t) && WellFormed(r) && ks == Firsts(Rows(t), t.height) && r.height == |ks|
    requires forall k :: 0 <= k < r.height ==> Row(r, k) == Row(t, ks[k])
    ensures forall i :: 0 <= i < t.height ==> exists k :: 0 <= k < r.height && ks[k] <= i && Row(r, k) == Row(t, i)
  {
    forall i | 0 <= i < t.height
      ensures exists k :: 0 <= k < r.height && ks[k] <= i && Row(r, k) == Row(t, i)
    {
      FirstCovers(Rows(t), t.height, i);
    }
  }

  /** Rows picked at first occurrences, in increasing order, are first
      occurrences and pairwise distinct. */
  lemma SurvivorsDistinct(t: Table, r: Table, ks: seq<nat>)
    requires WellFormed(t) && WellFormed(r) && ks == Firsts(Rows(t), t.height) && r.height == |ks|
    requires forall k :: 0 <= k < r.height ==> Row(r, k) == Row(t, ks[k])
    ensures DistinctRows(r)
    ensures forall k :: 0 <= k < r.height ==> IsFirst(Rows(t), ks[k])
  {
    var rs := Rows(t);
    forall k | 0 <= k < r.height ensures IsFirst(rs, ks[k]) {
      assert ks[k] in ks;
    }
    forall a, b | 0 <= a < b < r.height ensures Row(r, a) != Row(r, b) {
      assert IsFirst(rs, ks[b]);
      assert rs[ks[a]] == rs[..ks[b]][ks[a]];
    }
  }

  /** Deduplicating twice is deduplicating once, and a deduplicated table
      has no duplicates to count. */
  lemma DropDuplicatesIdempotent(t: Table)
    requires WellFormed(t)
    ensures DropDuplicates(DropDuplicates(t)) == DropDuplicates(t)
    ensures CountDuplicated(DropDuplicates(t)) == 0
  {
    var r := DropDuplicates(t);
    if |t.columns| > 0 {
      DropDuplicatesSpec(t);
      var rs := Rows(r);
      var ks := Firsts(rs, r.height);
      DistinctIffFirsts(r);
      FirstsAndDuplicates(rs, r.height);
      AllFirsts(ks, r.height);
      SelectAll(r, ks);
    }
  }

  /** An increasing sequence of `n` positions below `n` is 0, 1, ..., n-1. */
  lemma {:induction false} AllFirsts(ks: seq<nat>, n: nat)
    requires |ks| == n
    requires forall a, b :: 0 <= a < b < |ks| ==> ks[a] < ks[b]
    requires forall k :: 0 <= k < |ks| ==> ks[k] < n
    ensures forall k :: 0 <= k < |ks| ==> ks[k] == k
    decreases n
  {
    if n > 0 {
      assert ks[n - 1] == n - 1 by {
        BelowPosition(ks, n - 1);
      }
      AllFirsts(ks[..n - 1], n - 1);
    }
  }

  /** In an increasing sequence of naturals the element at `k` is at least `k`. */
  lemma {:induction false} BelowPosition(ks: seq<nat>, k: nat)
    requires k < |ks|
    requires forall a, b :: 0 <= a < b < |ks| ==> ks[a] < ks[b]
    ensures ks[k] >= k
    decreases k
  {
    if k > 0 {
      BelowPosition(ks, k - 1);
    }
  }

}
