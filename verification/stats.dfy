/** The aggregates and rounding that pandas applies to a numeric column:
    `Series.median()`, `Series.mean()` (both skipping missing values), and
    numpy's round-half-to-even at zero and one decimal places. Values are
    exact reals; floating-point representation error is not modelled. */
module Stats {
  import opened Options

  predicate Sorted(s: seq<real>) {
    forall i, j :: 0 <= i <= j < |s| ==> s[i] <= s[j]
  }

  /** Number of values strictly below `m`. */
  function CountBelow(xs: seq<real>, m: real): nat {
    if |xs| == 0 then 0 else (if xs[0] < m then 1 else 0) + CountBelow(xs[1..], m)
  }

  /** Number of values strictly above `m`. */
  function CountAbove(xs: seq<real>, m: real): nat {
    if |xs| == 0 then 0 else (if xs[0] > m then 1 else 0) + CountAbove(xs[1..], m)
  }

  function Insert(x: real, s: seq<real>): (r: seq<real>)
    requires Sorted(s)
    ensures |r| == |s| + 1
    ensures r[0] == if |s| == 0 || x <= s[0] then x else s[0]
    ensures Sorted(r)
    ensures multiset(r) == multiset(s) + multiset{x}
  {
    if |s| == 0 then [x]
    else if x <= s[0] then [x] + s
    else
      assert s == [s[0]] + s[1..];
      var t := Insert(x, s[1..]);
      assert s[0] <= t[0];
      [s[0]] + t
  }

  function Sort(xs: seq<real>): (s: seq<real>)
    ensures |s| == |xs|
    ensures Sorted(s)
    ensures multiset(s) == multiset(xs)
  {
    if |xs| == 0 then []
    else
      assert xs == [xs[0]] + xs[1..];
      Insert(xs[0], Sort(xs[1..]))
  }

  lemma {:induction false} InsertBelow(x: real, s: seq<real>, m: real)
    requires Sorted(s)
    ensures CountBelow(Insert(x, s), m) == CountBelow(s, m) + (if x < m then 1 else 0)
  {
    if |s| > 0 && x > s[0] {
      var t := s[1..];
      assert Sorted(t);
      InsertBelow(x, t, m);
      var r := Insert(x, s);
      assert r == [s[0]] + Insert(x, t);
      assert r[0] == s[0] && r[1..] == Insert(x, t);
      assert CountBelow(s, m) == (if s[0] < m then 1 else 0) + CountBelow(t, m);
    } else if |s| > 0 {
      var r := Insert(x, s);
      assert r == [x] + s;
      assert r[0] == x && r[1..] == s;
    }
  }

  lemma {:induction false} InsertAbove(x: real, s: seq<real>, m: real)
    requires Sorted(s)
    ensures CountAbove(Insert(x, s), m) == CountAbove(s, m) + (if x > m then 1 else 0)
  {
    if |s| > 0 && x > s[0] {
      var t := s[1..];
      assert Sorted(t);
      InsertAbove(x, t, m);
      var r := Insert(x, s);
      assert r == [s[0]] + Insert(x, t);
      assert r[0] == s[0] && r[1..] == Insert(x, t);
      assert CountAbove(s, m) == (if s[0] > m then 1 else 0) + CountAbove(t, m);
    } else if |s| > 0 {
      var r := Insert(x, s);
      assert r == [x] + s;
      assert r[0] == x && r[1..] == s;
    }
  }

  lemma {:induction false} SortCounts(xs: seq<real>, m: real)
    ensures CountBelow(Sort(xs), m) == CountBelow(xs, m)
    ensures CountAbove(Sort(xs), m) == CountAbove(xs, m)
  {
    if |xs| > 0 {
      SortCounts(xs[1..], m);
      InsertBelow(xs[0], Sort(xs[1..]), m);
      InsertAbove(xs[0], Sort(xs[1..]), m);
    }
  }

  /** In a sorted sequence whose elements from index `k` on are at least `m`,
      at most `k` elements lie below `m`. */
  lemma {:induction false} BelowBound(s: seq<real>, k: nat, m: real)
    requires forall i :: k <= i < |s| ==> s[i] >= m
    ensures CountBelow(s, m) <= k
  {
    if |s| > 0 {
      BelowBound(s[1..], if k == 0 then 0 else k - 1, m);
    }
  }

  /** In a sequence whose first `k` elements are at most `m`, at most
      `|s| - k` elements lie above `m`. */
  lemma {:induction false} AboveBound(s: seq<real>, k: nat, m: real)
    requires k <= |s|
    requires forall i :: 0 <= i < k ==> s[i] <= m
    ensures CountAbove(s, m) <= |s| - k
  {
    if |s| > 0 {
      AboveBound(s[1..], if k == 0 then 0 else k - 1, m);
    }
  }

  lemma SortedTail(a: seq<real>)
    requires Sorted(a) && |a| > 0
    ensures Sorted(a[1..])
  {
    var t := a[1..];
    forall i, j | 0 <= i <= j < |t| ensures t[i] <= t[j] {
      assert t[i] == a[i + 1] && t[j] == a[j + 1];
    }
  }

  lemma HeadIsLeast(a: seq<real>, x: real)
    requires Sorted(a) && x in multiset(a)
    ensures a[0] <= x
  {
    var i :| 0 <= i < |a| && a[i] == x;
  }

  lemma MultisetTail(a: seq<real>)
    requires |a| > 0
    ensures multiset(a[1..]) == multiset(a) - multiset{a[0]}
  {
    assert a == [a[0]] + a[1..];
  }

  lemma SameHeadTail(a: seq<real>, b: seq<real>)
    requires |a| > 0 && |b| > 0 && a[0] == b[0] && a[1..] == b[1..]
    ensures a == b
  {
    assert a == [a[0]] + a[1..] && b == [b[0]] + b[1..];
  }

  /** Two sorted arrangements of the same values are the same sequence. */
  lemma {:induction false} SortedUnique(a: seq<real>, b: seq<real>)
    requires Sorted(a) && Sorted(b) && multiset(a) == multiset(b)
    ensures a == b
    decreases |a|
  {
    assert |a| == |multiset(a)| == |multiset(b)| == |b|;
    if |a| > 0 {
      HeadIsLeast(a, b[0]);
      HeadIsLeast(b, a[0]);
      MultisetTail(a);
      MultisetTail(b);
      SortedTail(a);
      SortedTail(b);
      SortedUnique(a[1..], b[1..]);
      SameHeadTail(a, b);
    }
  }

  /** pandas' median: the middle element of the sorted values, or the mean of
      the two middle elements when their number is even; none for no values. */
  function Median(xs: seq<real>): (r: Option<real>)
    ensures r.Some? <==> |xs| > 0
    ensures r.Some? ==> exists a, b :: a in xs && b in xs && a <= r.value <= b
    ensures |xs| % 2 == 1 ==> r.value == Sort(xs)[|xs| / 2]
    ensures |xs| > 0 && |xs| % 2 == 0 ==> r.value == (Sort(xs)[|xs| / 2 - 1] + Sort(xs)[|xs| / 2]) / 2.0
  {
    if |xs| == 0 then None
    else
      var s := Sort(xs);
      var h := |s| / 2;
      assert |s| == |multiset(s)| == |xs|;
      assert s[h] in multiset(xs);
      assert s[h] in xs;
      if |s| % 2 == 1 then Some(s[h])
      else
        assert s[h - 1] in multiset(xs);
        assert s[h - 1] in xs;
        Some((s[h - 1] + s[h]) / 2.0)
  }

  /** The median read off any sorted arrangement of the values: its middle
      element for an odd count, the mean of its two middle elements for an
      even one. */
  lemma MedianOfSorted(xs: seq<real>, s: seq<real>)
    requires Sorted(s) && multiset(s) == multiset(xs) && |xs| > 0
    ensures |s| == |xs|
    ensures |xs| % 2 == 1 ==> Median(xs).value == s[|xs| / 2]
    ensures |xs| % 2 == 0 ==> Median(xs).value == (s[|xs| / 2 - 1] + s[|xs| / 2]) / 2.0
  {
    SortedUnique(s, Sort(xs));
  }

  /** The middle of a sorted sequence splits it: at most half of its
      elements lie strictly below and at most half strictly above. */
  lemma MiddleSplits(s: seq<real>, m: real)
    requires Sorted(s) && |s| > 0
    requires |s| % 2 == 1 ==> m == s[|s| / 2]
    requires |s| % 2 == 0 ==> m == (s[|s| / 2 - 1] + s[|s| / 2]) / 2.0
    ensures CountBelow(s, m) <= |s| / 2
    ensures CountAbove(s, m) <= |s| / 2
  {
    var h := |s| / 2;
    if |s| % 2 == 1 {
      BelowBound(s, h, m);
      AboveBound(s, h + 1, m);
    } else {
      BelowBound(s, h, m);
      AboveBound(s, h, m);
    }
  }

  /** The median splits the values: at most half of them lie strictly below it
      and at most half strictly above it. */
  lemma MedianIsMiddle(xs: seq<real>)
    requires |xs| > 0
    ensures CountBelow(xs, Median(xs).value) <= |xs| / 2
    ensures CountAbove(xs, Median(xs).value) <= |xs| / 2
  {
    var m := Median(xs).value;
    SortCounts(xs, m);
    MiddleSplits(Sort(xs), m);
  }

  /** A median of values that all satisfy a lower bound satisfies it too. */
  lemma MedianAtLeast(xs: seq<real>, lo: real, strict: bool)
    requires |xs| > 0
    requires forall x :: x in xs ==> (if strict then x > lo else x >= lo)
    ensures if strict then Median(xs).value > lo else Median(xs).value >= lo
  {
  }

  function Sum(xs: seq<real>): real {
    if |xs| == 0 then 0.0 else xs[0] + Sum(xs[1..])
  }

  /** pandas' mean: the sum over the count; none for no values. */
  function Mean(xs: seq<real>): (r: Option<real>)
    ensures r.Some? <==> |xs| > 0
    ensures r.Some? ==> r.value * (|xs| as real) == Sum(xs)
  {
    if |xs| == 0 then None else Some(Sum(xs) / (|xs| as real))
  }

  /** `k` copies of `v` added up: `k * v` without a product of unknowns. */
  function Times(k: nat, v: real): real {
    if k == 0 then 0.0 else v + Times(k - 1, v)
  }

  lemma {:induction false} TimesIsProduct(k: nat, v: real)
    ensures Times(k, v) == (k as real) * v
  {
    if k > 0 {
      TimesIsProduct(k - 1, v);
      assert (k as real) * v == ((k - 1) as real) * v + v;
    }
  }

  lemma {:induction false} SumBetween(xs: seq<real>, lo: real, hi: real)
    requires forall x :: x in xs ==> lo <= x <= hi
    ensures Times(|xs|, lo) <= Sum(xs) <= Times(|xs|, hi)
  {
    if |xs| > 0 {
      var ys := xs[1..];
      assert forall x :: x in ys ==> x in xs;
      assert xs[0] in xs;
      SumBetween(ys, lo, hi);
    }
  }

  lemma SumBounds(xs: seq<real>, lo: real, hi: real)
    requires forall x :: x in xs ==> lo <= x <= hi
    ensures (|xs| as real) * lo <= Sum(xs) <= (|xs| as real) * hi
  {
    SumBetween(xs, lo, hi);
    TimesIsProduct(|xs|, lo);
    TimesIsProduct(|xs|, hi);
  }

  /** The mean lies between any lower and upper bound of the values. */
  lemma MeanBetween(xs: seq<real>, lo: real, hi: real)
    requires |xs| > 0
    requires forall x :: x in xs ==> lo <= x <= hi
    ensures lo <= Mean(xs).value <= hi
  {
    SumBounds(xs, lo, hi);
    var n := |xs| as real;
    var m := Mean(xs).value;
    assert m * n >= lo * n;
    assert m * n <= hi * n;
  }

  predicate IsIntegral(x: real) { x.Floor as real == x }

  /** numpy's `round()`: to the nearest integer, ties to the even one. */
  function RoundHalfEven(x: real): (n: int)
    ensures x - 0.5 <= n as real <= x + 0.5
    ensures (n as real == x - 0.5 || n as real == x + 0.5) ==> n % 2 == 0
  {
    var f := x.Floor;
    var d := x - f as real;
    if d < 0.5 then f
    else if d > 0.5 then f + 1
    else if f % 2 == 0 then f
    else f + 1
  }

  /** The two properties of `RoundHalfEven` determine its result. */
  lemma RoundHalfEvenUnique(x: real, n: int)
    requires x - 0.5 <= n as real <= x + 0.5
    requires (n as real == x - 0.5 || n as real == x + 0.5) ==> n % 2 == 0
    ensures n == RoundHalfEven(x)
  {
  }

  lemma RoundIntegral(x: real)
    requires IsIntegral(x)
    ensures RoundHalfEven(x) as real == x
  {
  }

  /** A real with at most one decimal place. */
  predicate OneDecimal(x: real) { IsIntegral(x * 10.0) }

  /** numpy's `round(1)`: to the nearest tenth, ties to the even tenth. */
  function Round1(x: real): (r: real)
    ensures OneDecimal(r)
    ensures x - 0.05 <= r <= x + 0.05
    ensures (r == x - 0.05 || r == x + 0.05) ==> (r * 10.0).Floor % 2 == 0
  {
    var n := RoundHalfEven(x * 10.0);
    var r := n as real / 10.0;
    assert r * 10.0 == n as real;
    assert (r * 10.0).Floor == n;
    assert r == x - 0.05 ==> n as real == x * 10.0 - 0.5;
    assert r == x + 0.05 ==> n as real == x * 10.0 + 0.5;
    r
  }

  /** The three properties of `Round1` determine its result. */
  lemma Round1Unique(x: real, r: real)
    requires OneDecimal(r)
    requires x - 0.05 <= r <= x + 0.05
    requires (r == x - 0.05 || r == x + 0.05) ==> (r * 10.0).Floor % 2 == 0
    ensures r == Round1(x)
  {
    var n := (r * 10.0).Floor;
    assert n as real == r * 10.0;
    RoundHalfEvenUnique(x * 10.0, n);
  }

  lemma Round1OneDecimal(x: real)
    requires OneDecimal(x)
    ensures Round1(x) == x
  {
    RoundIntegral(x * 10.0);
  }

}
