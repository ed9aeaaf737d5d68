/** Positions on the mine field, the eight-cell neighbourhood, and the
    counting facts the rest of the model relies on.

    A position is (row, column) in tab coordinates: row 0 is the first row of
    the field (the source draws it on screen row 1). */
module Grid {

  type Pos = (int, int)

  /** The eight neighbour offsets, in the order the source visits them:
      up-left, up, up-right, left, right, down-left, down, down-right. */
  const Dirs: seq<Pos> := [(-1, -1), (-1, 0), (-1, 1), (0, -1), (0, 1), (1, -1), (1, 0), (1, 1)]

  predicate InField(lin: int, col: int, p: Pos) {
    0 <= p.0 < lin && 0 <= p.1 < col
  }

  /** q is one of the (up to) eight cells around p. */
  predicate Adjacent(p: Pos, q: Pos) {
    p != q && -1 <= q.0 - p.0 <= 1 && -1 <= q.1 - p.1 <= 1
  }

  /** The neighbour of p in direction k. */
  function Shift(p: Pos, k: int): Pos
    requires 0 <= k < 8
  {
    (p.0 + Dirs[k].0, p.1 + Dirs[k].1)
  }

  /** Which of the eight directions leads from p to its neighbour q. */
  function DirIndex(p: Pos, q: Pos): (k: int)
    requires Adjacent(p, q)
    ensures 0 <= k < 8 && Shift(p, k) == q
  {
    var dr, dc := q.0 - p.0, q.1 - p.1;
    if dr == -1 then (if dc == -1 then 0 else if dc == 0 then 1 else 2)
    else if dr == 0 then (if dc == -1 then 3 else 4)
    else (if dc == -1 then 5 else if dc == 0 then 6 else 7)
  }

  lemma DirIndexShift(p: Pos, k: int)
    requires 0 <= k < 8
    ensures Adjacent(p, Shift(p, k)) && DirIndex(p, Shift(p, k)) == k
  {
  }

  lemma ShiftAdjacent(p: Pos, k: int)
    requires 0 <= k < 8
    ensures Adjacent(p, Shift(p, k))
  {
  }

  /** Every cell of a lin x col field. */
  function Cells(lin: int, col: int): set<Pos> {
    set r, c | 0 <= r < lin && 0 <= c < col :: (r, c)
  }

  function RowCells(r: int, col: int): set<Pos> {
    set c | 0 <= c < col :: (r, c)
  }

  lemma {:induction false} RowCellsCard(r: int, col: nat)
    ensures |RowCells(r, col)| == col
  {
    if col == 0 {
      assert RowCells(r, col) == {};
    } else {
      RowCellsCard(r, col - 1);
      assert RowCells(r, col) == RowCells(r, col - 1) + {(r, col - 1)};
    }
  }

  /** A lin x col field has exactly lin * col cells. */
  lemma {:induction false} CellsCard(lin: nat, col: nat)
    ensures |Cells(lin, col)| == lin * col
  {
    if lin == 0 {
      assert Cells(lin, col) == {};
    } else {
      CellsCard(lin - 1, col);
      RowCellsCard(lin - 1, col);
      assert Cells(lin, col) == Cells(lin - 1, col) + RowCells(lin - 1, col);
      assert Cells(lin - 1, col) * RowCells(lin - 1, col) == {};
      assert lin * col == (lin - 1) * col + col;
    }
  }

  /** The members of s that lie around p. */
  function Around(s: set<Pos>, p: Pos): set<Pos> {
    set q | q in s && Adjacent(p, q)
  }

  /** No cell has more than eight neighbours of any kind. */
  lemma AroundAtMostEight(s: set<Pos>, p: Pos)
    ensures |Around(s, p)| <= 8
  {
    var ring := {Shift(p, 0), Shift(p, 1), Shift(p, 2), Shift(p, 3),
                 Shift(p, 4), Shift(p, 5), Shift(p, 6), Shift(p, 7)};
    forall q | q in Around(s, p) ensures q in ring {
      var k := DirIndex(p, q);
    }
    SubsetCard(Around(s, p), ring);
  }

  /** Subsets are no larger, and a subset of the same size is the whole set. */
  lemma SubsetCard<T>(a: set<T>, b: set<T>)
    requires a <= b
    ensures |a| <= |b|
    ensures |a| == |b| ==> a == b
  {
    assert b == a + (b - a);
    assert a * (b - a) == {};
    if |a| == |b| {
      assert |b - a| == 0;
    }
  }

  predicate Distinct<T(==)>(s: seq<T>) {
    forall a, b :: 0 <= a < b < |s| ==> s[a] != s[b]
  }

  function Elems<T>(s: seq<T>): set<T> {
    set x | x in s
  }

  /** A sequence without repetitions has as many members as it has elements. */
  lemma {:induction false} DistinctCard<T>(s: seq<T>)
    requires Distinct(s)
    ensures |Elems(s)| == |s|
  {
    if s != [] {
      var init := s[..|s| - 1];
      assert Distinct(init);
      DistinctCard(init);
      assert Elems(s) == Elems(init) + {s[|s| - 1]};
      assert s[|s| - 1] !in Elems(init);
    } else {
      assert Elems(s) == {};
    }
  }

  /** Two repetition-free sequences with no member in common concatenate
      into a repetition-free sequence. */
  lemma DistinctConcat<T>(a: seq<T>, b: seq<T>)
    requires Distinct(a) && Distinct(b) && Elems(a) !! Elems(b)
    ensures Distinct(a + b) && Elems(a + b) == Elems(a) + Elems(b)
  {
    forall x, y | 0 <= x < y < |a + b|
      ensures (a + b)[x] != (a + b)[y]
    {
      if y < |a| {
        assert (a + b)[x] == a[x] && (a + b)[y] == a[y];
      } else if |a| <= x {
        assert (a + b)[x] == b[x - |a|] && (a + b)[y] == b[y - |a|];
      } else {
        assert (a + b)[x] == a[x] && a[x] in Elems(a);
        assert (a + b)[y] == b[y - |a|] && b[y - |a|] in Elems(b);
      }
    }
    assert Elems(a + b) == Elems(a) + Elems(b);
  }
}
