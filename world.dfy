/** Cells, grids, toroidal wraparound and the Game of Life rule B3/S23. */
module World {

  /** One cell as the image collaborator streams it: an unsigned byte. */
  newtype byte = x: int | 0 <= x < 256

  /** The two cell values the program writes. */
  const Alive: byte := 255
  const Dead: byte := 0

  /** A cell coordinate: X is the column, Y the row. */
  datatype Cell = Cell(X: int, Y: int)

  /** The parameters of a run, fixed from start to end. */
  datatype Params = Params(Turns: int, Threads: int, ImageWidth: int, ImageHeight: int)

  /** Dimensions every run accepts: a grid of non-negative size and at least one worker
      (a thread count of 0 divides by zero when the bands are computed). */
  predicate ValidParams(p: Params) {
    p.ImageHeight >= 0 && p.ImageWidth >= 0 && p.Threads >= 1
  }

  /** A grid is a sequence of rows; `g[y][x]` is the cell in row y, column x. */
  type Grid = seq<seq<byte>>

  /** `g` has `height` rows of `width` entries each. */
  predicate IsRect<T>(g: seq<seq<T>>, height: int, width: int) {
    |g| == height && forall y :: 0 <= y < |g| ==> |g[y]| == width
  }

  /** Every cell is one of the two states. */
  predicate IsBinary(g: Grid) {
    forall y, x :: 0 <= y < |g| && 0 <= x < |g[y]| ==> g[y][x] == Alive || g[y][x] == Dead
  }

  function Abs(m: int): int {
    if m < 0 then -m else m
  }

  /** Go's `/` on `int`: the quotient truncated toward zero. */
  function GoQuo(a: int, m: int): int
    requires m != 0
  {
    if a >= 0 then a / m else -((-a) / m)
  }

  /** Go's `%` on `int`: the remainder left by the truncated quotient, so it takes the sign
      of the dividend and is smaller than the divisor in magnitude. */
  function GoRem(a: int, m: int): (r: int)
    requires m != 0
    ensures a == GoQuo(a, m) * m + r
    ensures a >= 0 ==> 0 <= r < Abs(m)
    ensures a < 0 ==> -Abs(m) < r <= 0
  {
    if a >= 0 then a % m else -((-a) % m)
  }

  /** Reference wraparound onto a torus of `size` cells: add or subtract `size` until the
      coordinate lies in [0, size). */
  function Wrap(z: int, size: int): (r: int)
    requires size > 0
    ensures 0 <= r < size
    decreases if z < 0 then 1 else 0, if z < 0 then -z else z
  {
    if z < 0 then Wrap(z + size, size)
    else if z >= size then Wrap(z - size, size)
    else z
  }

  /** The wrapped coordinate is the Euclidean remainder: the same cell of the torus. */
  lemma {:induction false} WrapIsMod(z: int, size: int)
    requires size > 0
    ensures Wrap(z, size) == z % size
    decreases if z < 0 then 1 else 0, if z < 0 then -z else z
  {
    if z < 0 {
      WrapIsMod(z + size, size);
      ModShift(z, size);
    } else if z >= size {
      WrapIsMod(z - size, size);
      ModShift(z - size, size);
    } else {
      DivUnique(z, size, 0, z);
    }
  }

  /** `mod` of the source: `(x + m) % m` with Go's remainder. It wraps a coordinate onto the
      torus, agreeing with the Euclidean `x % m`, exactly when `x + m` is not negative; below
      that it yields a value in (-m, 0]. */
  function Mod(x: int, m: int): (r: int)
    requires m != 0
    ensures m > 0 && x >= -m ==> 0 <= r < m && r == x % m && r == Wrap(x, m)
    ensures m > 0 && x < -m ==> -m < r <= 0
  {
    if m > 0 && x >= -m then ModShift(x, m); WrapIsMod(x, m); GoRem(x + m, m) else GoRem(x + m, m)
  }

  /** Adding the modulus does not change the Euclidean remainder. */
  lemma ModShift(x: int, m: int)
    requires m > 0
    ensures (x + m) % m == x % m
  {
    var q, r := x / m, x % m;
    assert x + m == (q + 1) * m + r;
    DivUnique(x + m, m, q + 1, r);
  }

  /** Euclidean division has one quotient and one remainder. */
  lemma DivUnique(a: int, m: int, q: int, r: int)
    requires m > 0 && 0 <= r < m && a == q * m + r
    ensures a / m == q && a % m == r
  {
    var q', r' := a / m, a % m;
    assert q * m + r == q' * m + r';
    if q > q' {
      assert (q - q') * m == q * m - q' * m;
      MulAtLeast(q - q', m);
    } else if q < q' {
      assert (q' - q) * m == q' * m - q * m;
      MulAtLeast(q' - q, m);
    }
  }

  lemma {:induction false} MulAtLeast(d: int, m: int)
    requires d >= 1 && m > 0
    ensures d * m >= m
    decreases d
  {
    if d > 1 {
      MulAtLeast(d - 1, m);
      assert d * m == (d - 1) * m + m;
    }
  }

  /** 1 when the cell at (y, x), wrapped onto the torus, is alive. */
  function AliveAt(world: Grid, height: int, width: int, y: int, x: int): (n: nat)
    requires height > 0 && width > 0 && IsRect(world, height, width)
    ensures n <= 1
  {
    if world[Wrap(y, height)][Wrap(x, width)] == Alive then 1 else 0
  }

  /** The reference read is the read of the counting loop: for every coordinate the loop
      passes to `mod`, the wrapped cell is the one `mod` selects. */
  lemma AliveAtIsModRead(world: Grid, height: int, width: int, y: int, x: int)
    requires height > 0 && width > 0 && IsRect(world, height, width)
    requires y >= -height && x >= -width
    ensures AliveAt(world, height, width, y, x) == 1 <==> world[Mod(y, height)][Mod(x, width)] == Alive
  {
  }

  /** The eight neighbour offsets (row offset, column offset) in the order the counting loops
      visit them; (0, 0), the cell itself, is not among them. */
  const Offsets: seq<(int, int)> := [(-1, -1), (-1, 0), (-1, 1), (0, -1), (0, 1), (1, -1), (1, 0), (1, 1)]

  /** The number of live cells among the first k neighbour offsets of (x, y), wrapped onto the
      torus. */
  function CountAlive(world: Grid, height: int, width: int, x: int, y: int, k: nat): (n: nat)
    requires height > 0 && width > 0 && IsRect(world, height, width) && k <= |Offsets|
    ensures n <= k
  {
    if k == 0 then 0
    else CountAlive(world, height, width, x, y, k - 1) + AliveAt(world, height, width, y + Offsets[k - 1].0, x + Offsets[k - 1].1)
  }

  /** Reference definition: the number of live cells among the eight toroidal neighbours of
      (x, y). */
  function NeighbourCount(world: Grid, height: int, width: int, x: int, y: int): (n: nat)
    requires height > 0 && width > 0 && IsRect(world, height, width)
    ensures n <= 8
  {
    CountAlive(world, height, width, x, y, |Offsets|)
  }

  /** Live neighbours at offsets (di, dj) with dj < j, the order the inner loop of the
      neighbour count visits them in; (0, 0) is skipped. */
  function RowCount(world: Grid, height: int, width: int, x: int, y: int, di: int, j: int): nat
    requires height > 0 && width > 0 && IsRect(world, height, width)
    requires -1 <= j <= 2
    decreases j + 1
  {
    if j == -1 then 0
    else RowCount(world, height, width, x, y, di, j - 1)
         + (if di == 0 && j - 1 == 0 then 0 else AliveAt(world, height, width, y + di, x + j - 1))
  }

  /** Live neighbours at row offsets di < i, the order the outer loop visits them in. */
  function RowsCount(world: Grid, height: int, width: int, x: int, y: int, i: int): nat
    requires height > 0 && width > 0 && IsRect(world, height, width)
    requires -1 <= i <= 2
    decreases i + 1
  {
    if i == -1 then 0
    else RowsCount(world, height, width, x, y, i - 1) + RowCount(world, height, width, x, y, i - 1, 2)
  }

  /** Visiting the nine offsets row by row, skipping (0, 0), counts exactly the reference
      neighbours. */
  lemma RowsCountIsNeighbourCount(world: Grid, height: int, width: int, x: int, y: int)
    requires height > 0 && width > 0 && IsRect(world, height, width)
    ensures RowsCount(world, height, width, x, y, 2) == NeighbourCount(world, height, width, x, y)
  {
    var a0, a1, a2 := AliveAt(world, height, width, y - 1, x - 1), AliveAt(world, height, width, y - 1, x), AliveAt(world, height, width, y - 1, x + 1);
    var a3, a4 := AliveAt(world, height, width, y, x - 1), AliveAt(world, height, width, y, x + 1);
    var a5, a6, a7 := AliveAt(world, height, width, y + 1, x - 1), AliveAt(world, height, width, y + 1, x), AliveAt(world, height, width, y + 1, x + 1);
    assert RowCount(world, height, width, x, y, -1, 0) == a0;
    assert RowCount(world, height, width, x, y, -1, 1) == a0 + a1;
    assert RowCount(world, height, width, x, y, -1, 2) == a0 + a1 + a2;
    assert RowCount(world, height, width, x, y, 0, 0) == a3;
    assert RowCount(world, height, width, x, y, 0, 1) == a3;
    assert RowCount(world, height, width, x, y, 0, 2) == a3 + a4;
    assert RowCount(world, height, width, x, y, 1, 0) == a5;
    assert RowCount(world, height, width, x, y, 1, 1) == a5 + a6;
    assert RowCount(world, height, width, x, y, 1, 2) == a5 + a6 + a7;
    assert RowsCount(world, height, width, x, y, 0) == a0 + a1 + a2;
    assert RowsCount(world, height, width, x, y, 1) == a0 + a1 + a2 + a3 + a4;
    assert CountAlive(world, height, width, x, y, 1) == a0;
    assert CountAlive(world, height, width, x, y, 2) == a0 + a1;
    assert CountAlive(world, height, width, x, y, 3) == a0 + a1 + a2;
    assert CountAlive(world, height, width, x, y, 4) == a0 + a1 + a2 + a3;
    assert CountAlive(world, height, width, x, y, 5) == a0 + a1 + a2 + a3 + a4;
    assert CountAlive(world, height, width, x, y, 6) == a0 + a1 + a2 + a3 + a4 + a5;
    assert CountAlive(world, height, width, x, y, 7) == a0 + a1 + a2 + a3 + a4 + a5 + a6;
  }

  /** The rule as the band step applies it: a live cell survives with 2 or 3 live neighbours,
      a dead cell is born with exactly 3; any other byte value becomes dead. */
  function NextCell(cell: byte, neighbours: int): (next: byte)
    ensures next == Alive || next == Dead
  {
    if cell == Alive then (if neighbours == 2 || neighbours == 3 then Alive else Dead)
    else if cell == Dead then (if neighbours == 3 then Alive else Dead)
    else Dead
  }

  /** The band step emits a CellFlipped event for the cell. */
  predicate Flips(cell: byte, neighbours: int) {
    (cell == Alive && !(neighbours == 2 || neighbours == 3)) || (cell == Dead && neighbours == 3)
  }

  /** A flip event is emitted exactly when a live or dead cell changes state; a byte that is
      neither becomes dead silently. */
  lemma FlipIffChange(cell: byte, neighbours: int)
    ensures cell == Alive || cell == Dead ==> (Flips(cell, neighbours) <==> NextCell(cell, neighbours) != cell)
    ensures cell != Alive && cell != Dead ==> !Flips(cell, neighbours) && NextCell(cell, neighbours) == Dead
  {
  }

  /** The next state of cell (x, y) of the whole grid. */
  function NextAt(world: Grid, height: int, width: int, y: int, x: int): (next: byte)
    requires height > 0 && width > 0 && IsRect(world, height, width)
    requires 0 <= y < height && 0 <= x < width
  {
    NextCell(world[y][x], NeighbourCount(world, height, width, x, y))
  }

  /** The next state of the first n cells of grid row y. */
  function StepRow(world: Grid, height: int, width: int, y: int, n: nat): (row: seq<byte>)
    requires IsRect(world, height, width)
    requires 0 <= y < height && n <= width
    ensures |row| == n
  {
    if n == 0 then [] else StepRow(world, height, width, y, n - 1) + [NextAt(world, height, width, y, n - 1)]
  }

  /** The next state of rows [startY, endY), columns [0, columns): row y of the result is
      grid row startY + y. Neighbours are read from the whole grid. */
  function StepBand(world: Grid, height: int, width: int, startY: int, endY: int, columns: int): (band: Grid)
    requires IsRect(world, height, width)
    requires 0 <= startY <= endY <= height && 0 <= columns <= width
    ensures IsRect(band, endY - startY, columns)
    decreases endY - startY
  {
    if endY == startY then []
    else StepBand(world, height, width, startY, endY - 1, columns) + [StepRow(world, height, width, endY - 1, columns)]
  }

  /** Cell x of a stepped row is the next state of that grid cell. */
  lemma {:induction false} StepRowAt(world: Grid, height: int, width: int, y: int, n: nat, x: int)
    requires IsRect(world, height, width)
    requires 0 <= y < height && n <= width && 0 <= x < n
    ensures StepRow(world, height, width, y, n)[x] == NextAt(world, height, width, y, x)
  {
    if x < n - 1 {
      StepRowAt(world, height, width, y, n - 1, x);
    }
  }

  /** Row y of a stepped band is the stepped grid row startY + y. */
  lemma {:induction false} StepBandRow(world: Grid, height: int, width: int, startY: int, endY: int, columns: int, y: int)
    requires IsRect(world, height, width)
    requires 0 <= startY <= endY <= height && 0 <= columns <= width
    requires 0 <= y < endY - startY
    ensures StepBand(world, height, width, startY, endY, columns)[y] == StepRow(world, height, width, startY + y, columns)
    decreases endY - startY
  {
    if y < endY - startY - 1 {
      StepBandRow(world, height, width, startY, endY - 1, columns, y);
    }
  }

  /** Cell (x, y) of a stepped band is the next state of grid cell (x, startY + y): the rule
      applied to that cell and its toroidal neighbour count. */
  lemma StepBandAt(world: Grid, height: int, width: int, startY: int, endY: int, columns: int, y: int, x: int)
    requires IsRect(world, height, width)
    requires 0 <= startY <= endY <= height && 0 <= columns <= width
    requires 0 <= y < endY - startY && 0 <= x < columns
    ensures StepBand(world, height, width, startY, endY, columns)[y][x]
            == NextCell(world[startY + y][x], NeighbourCount(world, height, width, x, startY + y))
  {
    StepBandRow(world, height, width, startY, endY, columns, y);
    StepRowAt(world, height, width, startY + y, columns, x);
  }

  /** One generation of the whole grid. */
  function NextGrid(world: Grid, height: int, width: int): (next: Grid)
    requires height >= 0 && width >= 0 && IsRect(world, height, width)
    ensures IsRect(next, height, width)
  {
    StepBand(world, height, width, 0, height, width)
  }

  /** After one generation every cell is 0 or 255, whatever bytes the grid held before. */
  lemma NextGridIsBinary(world: Grid, height: int, width: int)
    requires height >= 0 && width >= 0 && IsRect(world, height, width)
    ensures IsBinary(NextGrid(world, height, width))
  {
    var next := NextGrid(world, height, width);
    forall y, x | 0 <= y < |next| && 0 <= x < |next[y]| ensures next[y][x] == Alive || next[y][x] == Dead {
      StepBandAt(world, height, width, 0, height, width, y, x);
    }
  }

  /** Stepping two adjacent bands and stacking the results is stepping their union. */
  lemma {:induction false} StepBandSplit(world: Grid, height: int, width: int, a: int, b: int, c: int, columns: int)
    requires IsRect(world, height, width)
    requires 0 <= a <= b <= c <= height && 0 <= columns <= width
    ensures StepBand(world, height, width, a, b, columns) + StepBand(world, height, width, b, c, columns)
            == StepBand(world, height, width, a, c, columns)
    decreases c - b
  {
    if c > b {
      StepBandSplit(world, height, width, a, b, c - 1, columns);
    }
  }

  /** Every neighbour offset moves by at most one row and one column, and never by zero in
      both. */
  lemma OffsetsAreNeighbours(k: int)
    requires 0 <= k < |Offsets|
    ensures -1 <= Offsets[k].0 <= 1 && -1 <= Offsets[k].1 <= 1 && Offsets[k] != (0, 0)
  {
  }

  /** With at least two rows and two columns no neighbour offset wraps back onto the cell
      itself, so the count does not depend on the cell's own state. */
  lemma NeighbourCountIgnoresOwnCell(world: Grid, height: int, width: int, x: int, y: int, v: byte)
    requires height >= 2 && width >= 2 && IsRect(world, height, width)
    requires 0 <= y < height && 0 <= x < width
    ensures IsRect(world[y := world[y][x := v]], height, width)
    ensures NeighbourCount(world[y := world[y][x := v]], height, width, x, y) == NeighbourCount(world, height, width, x, y)
  {
    CountAliveIgnoresOwnCell(world, height, width, x, y, v, |Offsets|);
  }

  lemma {:induction false} CountAliveIgnoresOwnCell(world: Grid, height: int, width: int, x: int, y: int, v: byte, k: nat)
    requires height >= 2 && width >= 2 && IsRect(world, height, width)
    requires 0 <= y < height && 0 <= x < width && k <= |Offsets|
    ensures IsRect(world[y := world[y][x := v]], height, width)
    ensures CountAlive(world[y := world[y][x := v]], height, width, x, y, k) == CountAlive(world, height, width, x, y, k)
  {
    if k > 0 {
      CountAliveIgnoresOwnCell(world, height, width, x, y, v, k - 1);
      var d := Offsets[k - 1];
      OffsetsAreNeighbours(k - 1);
      WrapMoves(y, height);
      WrapMoves(x, width);
      OtherCellUnchanged(world, height, width, x, y, v, y + d.0, x + d.1);
    }
  }

  /** Overwriting cell (x, y) leaves the liveness of every other wrapped cell as it was. */
  lemma OtherCellUnchanged(world: Grid, height: int, width: int, x: int, y: int, v: byte, yy: int, xx: int)
    requires height > 0 && width > 0 && IsRect(world, height, width)
    requires 0 <= y < height && 0 <= x < width
    requires Wrap(yy, height) != y || Wrap(xx, width) != x
    ensures IsRect(world[y := world[y][x := v]], height, width)
    ensures AliveAt(world[y := world[y][x := v]], height, width, yy, xx) == AliveAt(world, height, width, yy, xx)
  {
  }

  /** On a torus of size at least 2 a step of one moves off the starting coordinate. */
  lemma WrapMoves(z: int, size: int)
    requires size >= 2 && 0 <= z < size
    ensures Wrap(z + 1, size) != z && Wrap(z - 1, size) != z && Wrap(z + 0, size) == z
  {
    if z + 1 == size { assert Wrap(z + 1, size) == Wrap(0, size) == 0; }
    if z == 0 { assert Wrap(z - 1, size) == Wrap(size - 1, size) == size - 1; }
  }

  /** The band step reports cell (x, y) of the grid as flipped. */
  predicate FlipsAt(world: Grid, height: int, width: int, x: int, y: int)
    requires IsRect(world, height, width) && 0 <= y < height && 0 <= x < width
  {
    Flips(world[y][x], NeighbourCount(world, height, width, x, y))
  }

  /** Which cells the band step reports as flipped, over the whole grid. */
  function FlipMask(world: Grid, height: int, width: int): (mask: seq<seq<bool>>)
    requires height >= 0 && width >= 0 && IsRect(world, height, width)
    ensures IsRect(mask, height, width)
  {
    seq(height, y requires 0 <= y < height =>
      seq(width, x requires 0 <= x < width => FlipsAt(world, height, width, x, y)))
  }

  /** Which cells are alive. */
  function AliveMask(world: Grid, height: int, width: int): (mask: seq<seq<bool>>)
    requires height >= 0 && width >= 0 && IsRect(world, height, width)
    ensures IsRect(mask, height, width)
  {
    seq(height, y requires 0 <= y < height => seq(width, x requires 0 <= x < width => world[y][x] == Alive))
  }

  /** For a two-state grid a cell is marked as flipping exactly when one generation changes it. */
  lemma FlipMaskIsChange(world: Grid, height: int, width: int, y: int, x: int)
    requires height >= 0 && width >= 0 && IsRect(world, height, width) && IsBinary(world)
    requires 0 <= y < height && 0 <= x < width
    ensures FlipMask(world, height, width)[y][x] <==> NextGrid(world, height, width)[y][x] != world[y][x]
  {
    StepBandAt(world, height, width, 0, height, width, y, x);
    FlipIffChange(world[y][x], NeighbourCount(world, height, width, x, y));
  }
}
