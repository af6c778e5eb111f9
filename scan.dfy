/** Row-major scans of a grid: the cells of a band whose mark is set, listed row by row
    and, within a row, by ascending column. Both the flip events of a band step and the
    alive-cell list of a grid are such scans. */
module Scan {
  import opened World

  /** Row-major order: `a` is read strictly before `b` when the grid is read row by row. */
  predicate Before(a: Cell, b: Cell) {
    a.Y < b.Y || (a.Y == b.Y && a.X < b.X)
  }

  /** The cells are listed in strictly increasing row-major order. */
  predicate RowMajor(cells: seq<Cell>) {
    forall i, j :: 0 <= i < j < |cells| ==> Before(cells[i], cells[j])
  }

  /** The cells (x, y) with x < n whose mark in `row` is set, by ascending x. */
  function RowMarked(row: seq<bool>, y: int, n: nat): seq<Cell>
    requires n <= |row|
  {
    if n == 0 then [] else RowMarked(row, y, n - 1) + (if row[n - 1] then [Cell(n - 1, y)] else [])
  }

  /** The marked cells of rows [y0, y1), columns [0, n), row after row. */
  function MarkedRows(mask: seq<seq<bool>>, height: int, width: int, y0: int, y1: int, n: nat): seq<Cell>
    requires IsRect(mask, height, width)
    requires 0 <= y0 <= y1 <= height && n <= width
    decreases y1 - y0
  {
    if y1 == y0 then [] else MarkedRows(mask, height, width, y0, y1 - 1, n) + RowMarked(mask[y1 - 1], y1 - 1, n)
  }

  /** A row scan lists exactly the marked cells of the row prefix, by ascending column. */
  lemma {:induction false} RowMarkedSpec(row: seq<bool>, y: int, n: nat)
    requires n <= |row|
    ensures forall c :: c in RowMarked(row, y, n) <==> c.Y == y && 0 <= c.X < n && row[c.X]
    ensures RowMajor(RowMarked(row, y, n))
  {
    if n > 0 {
      RowMarkedSpec(row, y, n - 1);
      var init := RowMarked(row, y, n - 1);
      var last := if row[n - 1] then [Cell(n - 1, y)] else [];
      forall i, j | 0 <= i < |init| && 0 <= j < |last| ensures Before(init[i], last[j]) {
        assert init[i] in init;
      }
      RowMajorAppend(init, last);
    }
  }

  /** A band scan lists exactly the marked cells of the band, in row-major order. */
  lemma {:induction false} MarkedRowsSpec(mask: seq<seq<bool>>, height: int, width: int, y0: int, y1: int, n: nat)
    requires IsRect(mask, height, width)
    requires 0 <= y0 <= y1 <= height && n <= width
    ensures forall c :: c in MarkedRows(mask, height, width, y0, y1, n) <==> y0 <= c.Y < y1 && 0 <= c.X < n && mask[c.Y][c.X]
    ensures RowMajor(MarkedRows(mask, height, width, y0, y1, n))
    decreases y1 - y0
  {
    if y1 > y0 {
      MarkedRowsSpec(mask, height, width, y0, y1 - 1, n);
      RowMarkedSpec(mask[y1 - 1], y1 - 1, n);
      var init := MarkedRows(mask, height, width, y0, y1 - 1, n);
      var last := RowMarked(mask[y1 - 1], y1 - 1, n);
      forall i, j | 0 <= i < |init| && 0 <= j < |last| ensures Before(init[i], last[j]) {
        assert init[i] in init;
        assert last[j] in last;
      }
      RowMajorAppend(init, last);
    }
  }

  /** Two lists in row-major order, every cell of the first before every cell of the second,
      make one list in row-major order. */
  lemma RowMajorAppend(a: seq<Cell>, b: seq<Cell>)
    requires RowMajor(a) && RowMajor(b)
    requires forall i, j :: 0 <= i < |a| && 0 <= j < |b| ==> Before(a[i], b[j])
    ensures RowMajor(a + b)
  {
    var ab := a + b;
    forall i, j | 0 <= i < j < |ab| ensures Before(ab[i], ab[j]) {
      if j < |a| {
        assert ab[i] == a[i] && ab[j] == a[j];
      } else if i >= |a| {
        assert ab[i] == b[i - |a|] && ab[j] == b[j - |a|];
      } else {
        assert ab[i] == a[i] && ab[j] == b[j - |a|];
      }
    }
  }

  /** In a list in strictly increasing row-major order every listed cell occurs exactly once. */
  lemma {:induction false} RowMajorOnce(cells: seq<Cell>, c: Cell)
    requires RowMajor(cells) && c in cells
    ensures multiset(cells)[c] == 1
  {
    var init, last := cells[..|cells| - 1], cells[|cells| - 1];
    assert cells == init + [last];
    if c == last {
      assert forall i :: 0 <= i < |init| ==> Before(init[i], last);
      assert c !in init;
    } else {
      RowMajorOnce(init, c);
    }
  }
}
