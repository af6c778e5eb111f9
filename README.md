# Game of Life distributor

A Dafny model of the turn engine of a toroidal Game of Life (rule B3/S23), `gol/distributor.go`.
The engine loads an image of bytes, where 255 is alive and 0 is dead. For each turn it splits the
rows into one band per worker, has each worker compute the next state of its band, and stacks
the parts back in worker order. Between turns it reacts to a ticker and to the keys `s`, `p`
and `q`. At the end it writes the final image and reports the live cells.

The model has six modules, one file each:

- `world.dfy` (`World`): cells as bytes, grids, Go's truncating remainder and the source's
  `mod`, the reference neighbour count on the torus, and the rule. `StepBand` and `NextGrid`
  are the reference definitions of a band step and of a generation.
- `scan.dfy` (`Scan`): row-major scans of a boolean mask, with what they list and the order
  they list it in.
- `events.dfy` (`Events`): the events sent to the event sink, the flip events of a band, and the
  list of live cells.
- `workers.dfy` (`Workers`): the worker code as methods with loops.
  - `CalculateNeighbours` is the nested counting loop.
  - `CalculateNextState` and `NextStateRow` fill a fresh `array2<byte>` cell by cell and append
    events.
  - `CalculateAliveCells` appends to a list.
  - Each method is proved equal to the reference functions.
- `partition.dfy` (`Partition`): the row bands for a thread count and their tiling property.
  It also holds the worker loop (`RunWorkers`), the in-order reassembly (`Reassemble`), and the
  proof that the result is one whole-grid generation whatever the thread count.
- `distributor.dfy` (`Distributor`): loading the image, the reaction to one poll of the input,
  the turn loop as a function on a loop state (`TurnLoop`, `Run`), and the `Distributor` method
  that runs it imperatively and is proved equal to `Run`.

Collaborators become values:

- The image read at start is a grid.
- The ticker and the keyboard are one stream of polls: `Tick`, `Key(c)`, or `Idle` for the
  `default` branch of the `select`. An exhausted stream reads as `Idle`.
- Every event is appended to a list. `ImageOutputComplete` carries the grid that was written,
  not a file name.
- A run whose pause is never resumed ends with status `Blocked`, because the source would wait
  forever there.
- The workers run one after the other in band order, so the flip events of a turn come band by
  band, in row-major order.

The neighbour count is the toroidal one. On a grid at least two cells high and two wide it never
includes the cell itself (`NeighbourCountIgnoresOwnCell`). On a grid one cell high or wide, the
wraparound makes a cell its own neighbour, as in the source.

## Model

| member | source | states |
|---|---|---|
| World.GoRem | gol/distributor.go:29 | Go's `%`: the remainder of the quotient truncated toward zero, with the sign of the dividend and smaller than the divisor in magnitude |
| World.Mod | gol/distributor.go:28-30 | For `m > 0` and `x >= -m`, `mod(x, m)` lies in `[0, m)`, equals the Euclidean `x % m` and is the wrapped coordinate; below `-m` it is in `(-m, 0]` |
| World.AliveAtIsModRead | gol/distributor.go:54 | For `y >= -height` and `x >= -width`, the reference read of (y, x) finds a live cell exactly when the cell the source reads through `mod(y, ImageHeight)` and `mod(x, ImageWidth)` is alive |
| World.CountAlive | gol/distributor.go:51-59 | The live count over the first k neighbour offsets is at most k |
| World.NeighbourCount | gol/distributor.go:49-61 | The toroidal neighbour count lies in `[0, 8]` |
| World.OffsetsAreNeighbours | gol/distributor.go:51-53 | Every offset moves by at most one row and one column, and none is `(0, 0)` |
| World.RowsCountIsNeighbourCount | gol/distributor.go:51-59 | Visiting `i` then `j` over `-1..1` and skipping `(0, 0)` counts exactly the eight reference neighbours |
| World.NeighbourCountIgnoresOwnCell | gol/distributor.go:53 | On a grid at least 2 by 2, changing a cell does not change its own neighbour count |
| World.NextCell | gol/distributor.go:72-88 | The next state is always 0 or 255 |
| World.FlipIffChange | gol/distributor.go:72-88 | For a 0/255 cell, a flip event is emitted exactly when its state changes; any other byte becomes dead with no event |
| World.StepRow | gol/distributor.go:70-89 | The stepped row prefix has one entry per column visited |
| World.StepBand | gol/distributor.go:64-92 | A band step gives `EndY-StartY` rows of `EndX-StartX` cells |
| World.StepRowAt | gol/distributor.go:70-88 | Cell x of a stepped row is the rule applied to grid cell (x, y) |
| World.StepBandAt | gol/distributor.go:67-88 | Cell [y][x] of a band is the rule applied to grid cell (x, StartY+y) and its toroidal neighbour count |
| World.NextGrid | gol/distributor.go:64-92 | One generation keeps the grid's height and width |
| World.NextGridIsBinary | gol/distributor.go:72-88 | After one generation every cell is 0 or 255 |
| World.StepBandSplit | gol/distributor.go:174-180 | Stacking the steps of two adjacent bands is the step of their union |
| World.FlipMaskIsChange | gol/distributor.go:72-88 | On a 0/255 grid a cell is reported as flipping exactly when the generation changes it |
| Scan.RowMarkedSpec | gol/distributor.go:70-89 | A row scan lists exactly the marked cells of the row prefix, by ascending column |
| Scan.MarkedRowsSpec | gol/distributor.go:67-90 | A band scan lists exactly the marked cells of the band, in strictly increasing row-major order |
| Scan.RowMajorAppend | gol/distributor.go:67-90 | Two row-major lists, the first wholly before the second, make one row-major list |
| Scan.RowMajorOnce | gol/distributor.go:72-88 | In a strictly row-major list every cell occurs exactly once |
| Events.FlipEvents | gol/distributor.go:77 | One CellFlipped event per listed cell |
| Events.FlipEventsAppend | gol/distributor.go:77-84 | Reporting two cell lists one after the other is reporting their concatenation |
| Events.FlipEventsMembership | gol/distributor.go:77-84 | A CellFlipped event is in the list exactly when its turn matches and its cell is listed |
| Events.FlipEventsCount | gol/distributor.go:77-84 | Each event occurs as often as its cell does |
| Events.AliveCells | gol/distributor.go:95-106 | The list holds exactly the live cells, X the column and Y the row, in row-major order |
| Events.FlipCellsSplit | gol/distributor.go:174-180 | The flips of two adjacent bands, one after the other, are the flips of their union |
| Events.FlipCellsAreMarked | gol/distributor.go:67-90 | The flips a band reports are the row-major scan of the flip mask over the band |
| Events.RowFlipCellsAreMarked | gol/distributor.go:70-89 | The flips one row reports are the scan of that row of the flip mask |
| Events.BandFlipsExact | gol/distributor.go:72-88 | On a 0/255 grid the band emits exactly one CellFlipped for each band cell the generation changes, none for the others, in row-major order |
| Workers.MakeMatrix | gol/distributor.go:33-39 | A fresh `height` by `width` matrix of dead cells |
| Workers.ImmutableWorld | gol/distributor.go:42-46 | The read-only view has the matrix's dimensions and reads its cells |
| Workers.CalculateNeighbours | gol/distributor.go:49-61 | The nested loop returns the reference toroidal count, in `[0, 8]`, for every `x >= 1-width`, `y >= 1-height` |
| Workers.CalculateNextState | gol/distributor.go:64-92 | The band matrix is the reference band step, and the events are the band's flips in row-major order |
| Workers.NextStateRow | gol/distributor.go:70-89 | The inner loop fills one row of the matrix with the stepped row and leaves the other rows as they were; it returns that row's flip events |
| Workers.Worker | gol/distributor.go:109-112 | A worker returns the stepped band and its flip events |
| Workers.CalculateAliveCells | gol/distributor.go:95-106 | The loop returns exactly the live cells, in row-major order |
| Partition.Bands | gol/distributor.go:159-172 | One band per thread |
| Partition.BandsTile | gol/distributor.go:159-172 | For every thread count the bands are contiguous, ascending, not reversed, run from row 0 to ImageHeight and stay inside the grid |
| Partition.BandsWithinGrid | gol/distributor.go:159-172 | No band reaches outside rows `[0, ImageHeight)` |
| Partition.BandSizes | gol/distributor.go:168-171 | With two or more threads every band but the last has `ImageHeight/Threads` rows; the last also takes the remainder |
| Partition.BandsOfTen | gol/distributor.go:159-172 | Height 10 on 3 threads gives bands [0,3), [3,6), [6,10) |
| Partition.TilesCoverOnce | gol/distributor.go:159-172 | In a tiling every row lies in exactly one band, and the bands are in ascending order |
| Partition.Ascending | gol/distributor.go:168-171 | Later bands of a tiling start no earlier than earlier ones end |
| Partition.FindBand | gol/distributor.go:159-172 | Every row of a tiling's range has a band that holds it |
| Partition.TilesWithin | gol/distributor.go:159-172 | The bands of a tiling lie between its ends |
| Partition.Parts | gol/distributor.go:165-172 | One part per band |
| Partition.AssembleTiles | gol/distributor.go:174-180 | Stacking the stepped bands of a tiling in order is the step of its whole range |
| Partition.FlipsTile | gol/distributor.go:165-180 | The bands' flip events in band order are the flip events of the whole range, in row-major order |
| Partition.ThreadCountIrrelevant | gol/distributor.go:159-180 | For every thread count the reassembled grid is one whole-grid generation, and the events are the whole-grid flips |
| Partition.ComputeTurn | gol/distributor.go:157-180 | One turn gives the next generation and the whole-grid flip events |
| Partition.RunWorkers | gol/distributor.go:159-172 | The worker loop returns each band's part and events, in band order |
| Partition.PartsSnoc | gol/distributor.go:168-171 | One more worker adds its part and its events at the end |
| Partition.WorkerBand | gol/distributor.go:168-171 | With two or more workers, worker i gets rows `[i*h, (i+1)*h)` with `h = ImageHeight/Threads`, and the last worker gets `[(Threads-1)*h, ImageHeight)` |
| Partition.Reassemble | gol/distributor.go:174-180 | Repeated appends, starting from an empty grid, stack the parts in order |
| Distributor.Generations | gol/distributor.go:156-181 | The grid after n generations keeps its dimensions |
| Distributor.InitialFlips | gol/distributor.go:142-150 | The load reports exactly the live cells of the image, for turn 0, each at its column and row |
| Distributor.InitialFlipsAsWritten | gol/distributor.go:147 | The load as written reports as many events as there are live cells |
| Distributor.InitialFlipsSwapped | gol/distributor.go:147 | On image [[0, 255]] the as-written load reports cell (0, 1), which lies outside the grid; the intended load reports cell (1, 0) |
| Distributor.LoadWorld | gol/distributor.go:134-150 | The loaded grid equals the image byte for byte, and the events are the intended initial flips |
| Distributor.FindResume | gol/distributor.go:201-212 | The pause ends at the first `p` after it, or never if there is none |
| Distributor.FindResumeIsFirst | gol/distributor.go:201-212 | The first `p` is where the pause ends, whatever follows it |
| Distributor.Select | gol/distributor.go:186-220 | A look at the input always moves on. Only a pause moves more than one poll. It quits exactly on `q`, and blocks exactly on a `p` with no later `p`. It never sends FinalTurnComplete, and every event carries the current turn, so a pause never advances the turn |
| Distributor.OtherKeyIgnored | gol/distributor.go:193-219 | A key other than `s`, `p`, `q` does nothing, as if nothing had been ready |
| Distributor.PauseResumes | gol/distributor.go:197-212 | A resumed pause sends Paused, the image, then Executing and TurnComplete for the same turn, and continues after the resuming key |
| Distributor.PauseIgnoresInput | gol/distributor.go:197-212 | While paused every key except `p` is ignored: replacing them changes nothing |
| Distributor.HandleInput | gol/distributor.go:186-220 | The `select` and the pause loop give the reaction `Select` defines |
| Distributor.TurnStep | gol/distributor.go:157-220 | One pass computes one generation, advances turn by one, only appends events, and never sends FinalTurnComplete. It stops the loop on `q`, and blocks only on `p` |
| Distributor.TurnLoop | gol/distributor.go:153-224 | The loop keeps the grid's dimensions |
| Distributor.Run | gol/distributor.go:131-246 | A whole run keeps the grid's dimensions. Its events start with the corrected initial flips (X the column, Y the row), not those of line 147 as written |
| Distributor.TurnLoopGenerations | gol/distributor.go:153-224 | The loop's grid is the generation of its completed turn count, and a stopped loop does nothing |
| Distributor.TurnLoopCount | gol/distributor.go:153-224 | A loop that is never stopped runs all its turns; one that stops does so after at least one turn |
| Distributor.TurnLoopEvents | gol/distributor.go:153-224 | The loop only appends events and never a FinalTurnComplete |
| Distributor.TurnLoopStops | gol/distributor.go:213-223 | The loop stops early only for a `q` or a pause that never ends |
| Distributor.RunTurns | gol/distributor.go:153-224 | A run completes `Turns` turns (none if `Turns` is not positive) unless a `q` or an endless pause stops it. Its grid is always the generation of its turn count |
| Distributor.QuitAfter | gol/distributor.go:213-223 | A `q` with no `p` or `q` before it stops the loop right after the turn that reads it |
| Distributor.QuitAtTurn | gol/distributor.go:183-223 | A `q` as the k-th poll, with no `p` or `q` before it and `k <= Turns`, ends the run with status Quit and `turn = k` |
| Distributor.FinalTurnCompleteLast | gol/distributor.go:226-246 | An unblocked run ends with the final image, then FinalTurnComplete with the row-major live cells. FinalTurnComplete is sent once, as the last event; a blocked run never sends it |
| Distributor.Distributor | gol/distributor.go:131-246 | The imperative distributor produces exactly the events, grid, turn and status of `Run`; its load sends the corrected initial flips of `LoadWorld` (X the column, Y the row), not those of line 147 as written |

## Left out

- Goroutines and channels: workers run one after the other in band order. In the source their
  CellFlipped events may interleave on the event channel, and only the grid is reassembled in
  order.
- The `select` between the ticker and the keyboard is a single ordered stream of polls.
  - When both are ready, the source picks one at random; the stream fixes the order.
  - Ticks during a pause are passed over. The source keeps at most one pending tick in the
    ticker's channel and could report it after the resume.
- Ticker timing: a two-second tick is one `Tick` poll.
- Image I/O: the `ioCommand`, `filename`, `input` and `output` channels, the streaming of bytes in
  `printImage`, and file names built with `strconv` and `strings.Join`.
  - The bytes read at start are the image grid.
  - `ImageOutputComplete` records the grid instead of a file name.
- The `ioCheckIdle` handshake and the closing of the event channel are not modelled.
  FinalTurnComplete being the last event stands for "nothing after the close".
- `fmt.Println` on resume.
- The benchmark harness `benchmark_test.go`: it has no logic of its own. The determinism it
  relies on is `Partition.ThreadCountIrrelevant`.
- A pause that is never resumed blocks the source forever. The model ends such a run with
  status `Blocked`, and the final image and FinalTurnComplete are not sent.
- A thread count below 1 makes the source divide by zero, or allocate a slice of negative
  length. `ValidParams` requires `Threads >= 1`.
- Workers.CalculateNextState: `StartX` is ignored, as in the source. The band is columns
  `[0, EndX-StartX)`, which is right only because every caller passes 0.

## Findings

| source | as written | input that shows it | evidently intended | confidence | as-written member | corrected member |
|---|---|---|---|---|---|---|
| gol/distributor.go:147 | The initial CellFlipped for a live cell at row `i`, column `j` reports `X: i, Y: j`, swapping column and row | A 1-row, 2-column image `[[0, 255]]`: it reports cell (0, 1), outside the grid, and never (1, 0) | `X: j, Y: i`, like every other cell report | not executed | Distributor.InitialFlipsAsWritten, Distributor.InitialFlipsSwapped | Distributor.InitialFlips, Distributor.LoadWorld |
