/** `Series.mode()[0]`: the most frequent present value, the smallest one
    among equally frequent values (app.py). */
module Modes {
  import opened Options
  import opened Frame

  /** How often `x` occurs in `cells`. */
  function Count(cells: seq<Cell>, x: Cell): nat {
    multiset(cells)[x]
  }

  /** `a` ranks before `b` in `mode()`: more frequent, or as frequent and
      smaller. */
  predicate Before(cells: seq<Cell>, a: Cell, b: Cell) {
    Count(cells, a) > Count(cells, b) || (Count(cells, a) == Count(cells, b) && CellLess(a, b))
  }

  lemma BeforeTransitive(cells: seq<Cell>, a: Cell, b: Cell, c: Cell)
    requires Before(cells, a, b) && Before(cells, b, c)
    ensures Before(cells, a, c)
  {
    if Count(cells, a) == Count(cells, b) && Count(cells, b) == Count(cells, c) {
      CellLessTransitive(a, b, c);
    }
  }

  lemma CellLessAsymmetric(a: Cell, b: Cell)
    ensures !(CellLess(a, b) && CellLess(b, a))
  {
    if CellLess(a, b) && CellLess(b, a) {
      CellLessTransitive(a, b, a);
      CellLessIrreflexive(a);
    }
  }

  /** The best present value among `cells[k..]`, ranked by frequency in the
      whole of `cells`. */
  function BestFrom(cells: seq<Cell>, k: nat): (r: Option<Cell>)
    requires k <= |cells|
    ensures r.Some? <==> exists i :: k <= i < |cells| && cells[i] != Absent
    ensures r.Some? ==> r.value != Absent && r.value in cells[k..]
    ensures r.Some? ==> forall i :: k <= i < |cells| && cells[i] != Absent ==> !Before(cells, cells[i], r.value)
    decreases |cells| - k
  {
    if k == |cells| then None
    else
      var rest := BestFrom(cells, k + 1);
      assert cells[k] == cells[k..][0];
      assert cells[k + 1..] == cells[k..][1..];
      CellLessIrreflexive(cells[k]);
      if cells[k] == Absent then rest
      else if rest.None? then Some(cells[k])
      else if Before(cells, cells[k], rest.value) then
        assert forall i :: k < i < |cells| && cells[i] != Absent ==> !Before(cells, cells[i], cells[k]) by {
          forall i | k < i < |cells| && cells[i] != Absent ensures !Before(cells, cells[i], cells[k]) {
            if Before(cells, cells[i], cells[k]) {
              BeforeTransitive(cells, cells[i], cells[k], rest.value);
            }
          }
        }
        Some(cells[k])
      else rest
  }

  /** `mode()[0]`, none when every cell is missing: a most frequent present
      value, and the smallest of those when several are equally frequent. */
  function Mode(cells: seq<Cell>): (r: Option<Cell>)
    ensures r.Some? <==> exists i :: 0 <= i < |cells| && cells[i] != Absent
    ensures r.Some? ==> r.value != Absent && r.value in cells
    ensures r.Some? ==> forall i :: 0 <= i < |cells| && cells[i] != Absent ==>
              Count(cells, cells[i]) <= Count(cells, r.value)
    ensures r.Some? ==> forall i :: (0 <= i < |cells| && cells[i] != Absent && cells[i] != r.value &&
              Count(cells, cells[i]) == Count(cells, r.value)) ==> CellLess(r.value, cells[i])
  {
    var r := BestFrom(cells, 0);
    assert cells[0..] == cells;
    if r.Some? then
      assert forall i :: 0 <= i < |cells| && cells[i] != Absent && cells[i] != r.value ==>
               CellLess(r.value, cells[i]) || CellLess(cells[i], r.value) by {
        forall i | 0 <= i < |cells| && cells[i] != Absent && cells[i] != r.value
          ensures CellLess(r.value, cells[i]) || CellLess(cells[i], r.value)
        {
          CellLessTotal(r.value, cells[i]);
        }
      }
      r
    else r
  }

  /** The mode is unique: a present value that satisfies the two defining
      properties is the one `Mode` returns. */
  lemma ModeUnique(cells: seq<Cell>, x: Cell)
    requires x != Absent && x in cells
    requires forall i :: 0 <= i < |cells| && cells[i] != Absent ==> Count(cells, cells[i]) <= Count(cells, x)
    requires forall i :: (0 <= i < |cells| && cells[i] != Absent && cells[i] != x &&
               Count(cells, cells[i]) == Count(cells, x)) ==> CellLess(x, cells[i])
    ensures Mode(cells) == Some(x)
  {
    var i :| 0 <= i < |cells| && cells[i] == x;
    var m := Mode(cells).value;
    var k :| 0 <= k < |cells| && cells[k] == m;
    CellLessAsymmetric(m, x);
  }

}
