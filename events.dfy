/** The notifications the engine sends to the event sink, and the two scans that produce
    cell lists for them. */
module Events {
  import opened World
  import opened Scan

  /** The state reported by a StateChange event. */
  datatype State = Paused | Executing | Quitting

  /** One notification. ImageOutputComplete carries the grid that was written out in place of
      the file name the source builds. */
  datatype Event =
    | CellFlipped(completedTurns: int, cell: Cell)
    | TurnComplete(completedTurns: int)
    | AliveCellsCount(completedTurns: int, cellsCount: int)
    | StateChange(completedTurns: int, newState: State)
    | ImageOutputComplete(completedTurns: int, image: Grid)
    | FinalTurnComplete(completedTurns: int, alive: seq<Cell>)

  /** One CellFlipped event per cell, in the order of the cells. */
  function FlipEvents(turn: int, cells: seq<Cell>): (events: seq<Event>)
    ensures |events| == |cells|
  {
    seq(|cells|, i requires 0 <= i < |cells| => CellFlipped(turn, cells[i]))
  }

  /** Reporting two lists of cells one after the other is reporting their concatenation. */
  lemma FlipEventsAppend(turn: int, s: seq<Cell>, t: seq<Cell>)
    ensures FlipEvents(turn, s) + FlipEvents(turn, t) == FlipEvents(turn, s + t)
  {
    var l, r, all := FlipEvents(turn, s), FlipEvents(turn, t), FlipEvents(turn, s + t);
    forall i | 0 <= i < |s| + |t| ensures (l + r)[i] == all[i] {
      if i < |s| { assert (l + r)[i] == l[i]; } else { assert (l + r)[i] == r[i - |s|]; }
    }
  }

  /** A CellFlipped event is in the list exactly when its turn is the given one and its cell
      is listed. */
  lemma FlipEventsMembership(turn: int, cells: seq<Cell>, e: Event)
    ensures e in FlipEvents(turn, cells) <==> e.CellFlipped? && e.completedTurns == turn && e.cell in cells
  {
    var events := FlipEvents(turn, cells);
    if e in events {
      var i :| 0 <= i < |events| && events[i] == e;
      assert cells[i] in cells;
    }
    if e.CellFlipped? && e.completedTurns == turn && e.cell in cells {
      var i :| 0 <= i < |cells| && cells[i] == e.cell;
      assert events[i] == e;
    }
  }

  /** The cells alive in a grid, in row-major order (X is the column, Y the row). */
  function AliveCells(world: Grid, height: int, width: int): (cells: seq<Cell>)
    requires height >= 0 && width >= 0 && IsRect(world, height, width)
    ensures forall c :: c in cells <==> 0 <= c.Y < height && 0 <= c.X < width && world[c.Y][c.X] == Alive
    ensures RowMajor(cells)
  {
    MarkedRowsSpec(AliveMask(world, height, width), height, width, 0, height, width);
    MarkedRows(AliveMask(world, height, width), height, width, 0, height, width)
  }

  /** The cells among the first n of grid row y that the band step reports, by ascending
      column. */
  function RowFlipCells(world: Grid, height: int, width: int, y: int, n: nat): seq<Cell>
    requires IsRect(world, height, width)
    requires 0 <= y < height && n <= width
  {
    if n == 0 then []
    else RowFlipCells(world, height, width, y, n - 1)
         + (if FlipsAt(world, height, width, n - 1, y) then [Cell(n - 1, y)] else [])
  }

  /** The cells of rows [startY, endY), columns [0, columns), that the band step reports, row
      after row. */
  function FlipCells(world: Grid, height: int, width: int, startY: int, endY: int, columns: int): seq<Cell>
    requires IsRect(world, height, width)
    requires 0 <= startY <= endY <= height && 0 <= columns <= width
    decreases endY - startY
  {
    if endY == startY then []
    else FlipCells(world, height, width, startY, endY - 1, columns) + RowFlipCells(world, height, width, endY - 1, columns)
  }

  /** Reporting two adjacent bands one after the other is reporting their union. */
  lemma {:induction false} FlipCellsSplit(world: Grid, height: int, width: int, a: int, b: int, c: int, columns: int)
    requires IsRect(world, height, width)
    requires 0 <= a <= b <= c <= height && 0 <= columns <= width
    ensures FlipCells(world, height, width, a, b, columns) + FlipCells(world, height, width, b, c, columns)
            == FlipCells(world, height, width, a, c, columns)
    decreases c - b
  {
    if c > b {
      FlipCellsSplit(world, height, width, a, b, c - 1, columns);
    }
  }

  /** The reported cells are the band scan of the flip mask. */
  lemma {:induction false} FlipCellsAreMarked(world: Grid, height: int, width: int, startY: int, endY: int, columns: int)
    requires IsRect(world, height, width)
    requires 0 <= startY <= endY <= height && 0 <= columns <= width
    ensures FlipCells(world, height, width, startY, endY, columns)
            == MarkedRows(FlipMask(world, height, width), height, width, startY, endY, columns)
    decreases endY - startY
  {
    if endY > startY {
      FlipCellsAreMarked(world, height, width, startY, endY - 1, columns);
      RowFlipCellsAreMarked(world, height, width, endY - 1, columns);
    }
  }

  lemma {:induction false} RowFlipCellsAreMarked(world: Grid, height: int, width: int, y: int, n: nat)
    requires IsRect(world, height, width)
    requires 0 <= y < height && n <= width
    ensures RowFlipCells(world, height, width, y, n) == RowMarked(FlipMask(world, height, width)[y], y, n)
  {
    if n > 0 {
      RowFlipCellsAreMarked(world, height, width, y, n - 1);
    }
  }

  /** The CellFlipped events the band step over rows [startY, endY), columns [0, columns),
      emits, tagged with `turn`. */
  function BandFlips(world: Grid, height: int, width: int, startY: int, endY: int, columns: int, turn: int): seq<Event>
    requires IsRect(world, height, width)
    requires 0 <= startY <= endY <= height && 0 <= columns <= width
  {
    FlipEvents(turn, FlipCells(world, height, width, startY, endY, columns))
  }

  /** For a two-state grid, the band step reports each cell of the band that the generation
      changes exactly once and no other cell, in row-major order. */
  lemma BandFlipsExact(world: Grid, height: int, width: int, startY: int, endY: int, columns: int, turn: int, c: Cell)
    requires height >= 0 && width >= 0 && IsRect(world, height, width) && IsBinary(world)
    requires 0 <= startY <= endY <= height && 0 <= columns <= width
    ensures CellFlipped(turn, c) in BandFlips(world, height, width, startY, endY, columns, turn)
            <==> startY <= c.Y < endY && 0 <= c.X < columns && NextGrid(world, height, width)[c.Y][c.X] != world[c.Y][c.X]
    ensures CellFlipped(turn, c) in BandFlips(world, height, width, startY, endY, columns, turn)
            ==> multiset(BandFlips(world, height, width, startY, endY, columns, turn))[CellFlipped(turn, c)] == 1
    ensures RowMajor(FlipCells(world, height, width, startY, endY, columns))
  {
    var cells := FlipCells(world, height, width, startY, endY, columns);
    FlipCellsAreMarked(world, height, width, startY, endY, columns);
    MarkedRowsSpec(FlipMask(world, height, width), height, width, startY, endY, columns);
    if startY <= c.Y < endY && 0 <= c.X < columns {
      FlipMaskIsChange(world, height, width, c.Y, c.X);
    }
    FlipEventsMembership(turn, cells, CellFlipped(turn, c));
    if c in cells {
      RowMajorOnce(cells, c);
      FlipEventsCount(turn, cells, c);
    }
  }

  /** Mapping cells to their flip events keeps how often each cell occurs. */
  lemma {:induction false} FlipEventsCount(turn: int, cells: seq<Cell>, c: Cell)
    ensures multiset(FlipEvents(turn, cells))[CellFlipped(turn, c)] == multiset(cells)[c]
  {
    if cells != [] {
      var init, last := cells[..|cells| - 1], cells[|cells| - 1];
      assert cells == init + [last];
      FlipEventsAppend(turn, init, [last]);
      assert FlipEvents(turn, [last]) == [CellFlipped(turn, last)];
      FlipEventsCount(turn, init, c);
    }
  }
}
