/** The work of one worker: counting neighbours, filling the next state of a band of rows,
    and listing the alive cells of a grid. */
module Workers {
  import opened World
  import opened Scan
  import opened Events

  /** A freshly allocated `height` by `width` matrix of dead cells. */
  method MakeMatrix(height: int, width: int) returns (matrix: array2<byte>)
    requires height >= 0 && width >= 0
    ensures fresh(matrix)
    ensures matrix.Length0 == height && matrix.Length1 == width
    ensures forall y, x :: 0 <= y < height && 0 <= x < width ==> matrix[y, x] == Dead
  {
    matrix := new byte[height, width]((_, _) => Dead);
  }

  /** The read-only view of a matrix that workers are given: a value that no later write can
      change. */
  function ImmutableWorld(matrix: array2<byte>): (world: Grid)
    reads matrix
    ensures IsRect(world, matrix.Length0, matrix.Length1)
    ensures forall y, x :: 0 <= y < matrix.Length0 && 0 <= x < matrix.Length1 ==> world[y][x] == matrix[y, x]
  {
    seq(matrix.Length0, y requires 0 <= y < matrix.Length0 reads matrix =>
      seq(matrix.Length1, x requires 0 <= x < matrix.Length1 reads matrix => matrix[y, x]))
  }

  /** Counts the live cells among the eight neighbours of (x, y), wrapping each coordinate
      with `Mod`. Go's remainder wraps correctly for every x >= 1 - width and y >= 1 - height,
      so the count is the toroidal one. */
  method CalculateNeighbours(p: Params, x: int, y: int, world: Grid) returns (neighbours: int)
    requires p.ImageHeight > 0 && p.ImageWidth > 0 && IsRect(world, p.ImageHeight, p.ImageWidth)
    requires x >= 1 - p.ImageWidth && y >= 1 - p.ImageHeight
    ensures neighbours == NeighbourCount(world, p.ImageHeight, p.ImageWidth, x, y)
    ensures 0 <= neighbours <= 8
  {
    var height, width := p.ImageHeight, p.ImageWidth;
    neighbours := 0;
    var i := -1;
    while i <= 1
      invariant -1 <= i <= 2
      invariant neighbours == RowsCount(world, height, width, x, y, i)
    {
      var j := -1;
      while j <= 1
        invariant -1 <= j <= 2
        invariant neighbours == RowsCount(world, height, width, x, y, i) + RowCount(world, height, width, x, y, i, j)
      {
        if i != 0 || j != 0 {
          if world[Mod(y + i, height)][Mod(x + j, width)] == Alive {
            neighbours := neighbours + 1;
          }
        }
        j := j + 1;
      }
      i := i + 1;
    }
    RowsCountIsNeighbourCount(world, height, width, x, y);
  }

  /** Applies the rule to rows [startY, endY) and emits one CellFlipped event for every cell
      whose state the rule changes, row by row. Column x of the band is column x of the grid:
      the start column is not added, which agrees with callers that always pass 0. */
  method CalculateNextState(startY: int, endY: int, startX: int, endX: int, p: Params, world: Grid, turns: int)
    returns (newWorld: Grid, events: seq<Event>)
    requires p.ImageHeight >= 0 && p.ImageWidth >= 0 && IsRect(world, p.ImageHeight, p.ImageWidth)
    requires 0 <= startY <= endY <= p.ImageHeight && startX <= endX && endX - startX <= p.ImageWidth
    ensures newWorld == StepBand(world, p.ImageHeight, p.ImageWidth, startY, endY, endX - startX)
    ensures events == BandFlips(world, p.ImageHeight, p.ImageWidth, startY, endY, endX - startX, turns)
  {
    var height, width, columns := p.ImageHeight, p.ImageWidth, endX - startX;
    var matrix := MakeMatrix(endY - startY, columns);
    ghost var rows: Grid := [];
    ghost var cells: seq<Cell> := [];
    events := [];
    var y := 0;
    while y < endY - startY
      invariant 0 <= y <= endY - startY
      invariant rows == StepBand(world, height, width, startY, startY + y, columns)
      invariant forall r, c :: 0 <= r < endY - startY && 0 <= c < columns ==> matrix[r, c] == if r < y then rows[r][c] else Dead
      invariant cells == FlipCells(world, height, width, startY, startY + y, columns)
      invariant events == FlipEvents(turns, cells)
    {
      var rowEvents := NextStateRow(matrix, y, startY, columns, p, world, turns);
      ghost var rowCells := RowFlipCells(world, height, width, startY + y, columns);
      FlipEventsAppend(turns, cells, rowCells);
      rows := rows + [StepRow(world, height, width, startY + y, columns)];
      cells := cells + rowCells;
      events := events + rowEvents;
      y := y + 1;
    }
    newWorld := ImmutableWorld(matrix);
    forall r | 0 <= r < endY - startY ensures newWorld[r] == rows[r] {
      assert forall c :: 0 <= c < columns ==> newWorld[r][c] == rows[r][c];
    }
  }

  /** The inner loop of the band step: fills row y of the matrix, grid row startY + y, and
      returns the flip events of that row. */
  method NextStateRow(matrix: array2<byte>, y: int, startY: int, columns: int, p: Params, world: Grid, turns: int)
    returns (events: seq<Event>)
    requires p.ImageHeight >= 0 && p.ImageWidth >= 0 && IsRect(world, p.ImageHeight, p.ImageWidth)
    requires 0 <= y < matrix.Length0 && 0 <= startY + y < p.ImageHeight && columns == matrix.Length1 <= p.ImageWidth
    requires forall c :: 0 <= c < columns ==> matrix[y, c] == Dead
    modifies matrix
    ensures forall r, c :: 0 <= r < matrix.Length0 && 0 <= c < columns ==>
              matrix[r, c] == if r == y then StepRow(world, p.ImageHeight, p.ImageWidth, startY + y, columns)[c] else old(matrix[r, c])
    ensures events == FlipEvents(turns, RowFlipCells(world, p.ImageHeight, p.ImageWidth, startY + y, columns))
  {
    var height, width, Y := p.ImageHeight, p.ImageWidth, y + startY;
    ghost var row := StepRow(world, height, width, Y, columns);
    events := [];
    ghost var cells := [];
    var x := 0;
    while x < columns
      invariant 0 <= x <= columns
      invariant forall r, c :: 0 <= r < matrix.Length0 && 0 <= c < columns ==>
                  matrix[r, c] == if r == y then (if c < x then row[c] else Dead) else old(matrix[r, c])
      invariant events == FlipEvents(turns, cells)
      invariant cells == RowFlipCells(world, height, width, Y, x)
    {
      var neighbours := CalculateNeighbours(p, x, Y, world);
      ghost var before := cells;
      StepRowAt(world, height, width, Y, columns, x);
      if world[Y][x] == Alive {
        if neighbours == 2 || neighbours == 3 {
          matrix[y, x] := Alive;
        } else {
          matrix[y, x] := Dead;
          events := events + [CellFlipped(turns, Cell(x, Y))];
        }
      }
      if world[Y][x] == Dead {
        if neighbours == 3 {
          matrix[y, x] := Alive;
          events := events + [CellFlipped(turns, Cell(x, Y))];
        } else {
          matrix[y, x] := Dead;
        }
      }
      ghost var step := if Flips(world[Y][x], neighbours) then [Cell(x, Y)] else [];
      cells := cells + step;
      FlipEventsAppend(turns, before, step);
      x := x + 1;
    }
  }

  /** One worker: the next state of its band and the flip events it emitted. */
  method Worker(startY: int, endY: int, startX: int, endX: int, p: Params, world: Grid, turns: int)
    returns (part: Grid, events: seq<Event>)
    requires p.ImageHeight >= 0 && p.ImageWidth >= 0 && IsRect(world, p.ImageHeight, p.ImageWidth)
    requires 0 <= startY <= endY <= p.ImageHeight && startX <= endX && endX - startX <= p.ImageWidth
    ensures part == StepBand(world, p.ImageHeight, p.ImageWidth, startY, endY, endX - startX)
    ensures IsRect(part, endY - startY, endX - startX)
    ensures events == BandFlips(world, p.ImageHeight, p.ImageWidth, startY, endY, endX - startX, turns)
  {
    part, events := CalculateNextState(startY, endY, startX, endX, p, world, turns);
  }

  /** The alive cells of the grid, row by row, each as (column, row). */
  method CalculateAliveCells(p: Params, world: Grid) returns (aliveCells: seq<Cell>)
    requires p.ImageHeight >= 0 && p.ImageWidth >= 0 && IsRect(world, p.ImageHeight, p.ImageWidth)
    ensures aliveCells == AliveCells(world, p.ImageHeight, p.ImageWidth)
    ensures forall c :: c in aliveCells <==> 0 <= c.Y < p.ImageHeight && 0 <= c.X < p.ImageWidth && world[c.Y][c.X] == Alive
    ensures RowMajor(aliveCells)
  {
    var height, width := p.ImageHeight, p.ImageWidth;
    ghost var mask := AliveMask(world, height, width);
    aliveCells := [];
    var y := 0;
    while y < height
      invariant 0 <= y <= height
      invariant aliveCells == MarkedRows(mask, height, width, 0, y, width)
    {
      var x := 0;
      while x < width
        invariant 0 <= x <= width
        invariant aliveCells == MarkedRows(mask, height, width, 0, y, width) + RowMarked(mask[y], y, x)
      {
        if world[y][x] == Alive {
          aliveCells := aliveCells + [Cell(x, y)];
        }
        x := x + 1;
      }
      y := y + 1;
    }
  }
}
