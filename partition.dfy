/** Dividing the rows of the grid between the workers, and stacking their results back in
    worker order. */
module Partition {
  import opened World
  import opened Scan
  import opened Events
  import opened Workers

  /** The rows [startY, endY) one worker steps. */
  datatype Band = Band(startY: int, endY: int)

  /** Row y belongs to the band. */
  predicate InBand(b: Band, y: int) {
    b.startY <= y < b.endY
  }

  /** The bands of a run with `threads` workers: a single band with fewer than two workers;
      otherwise bands of height / threads rows each, the last one running to the bottom of the
      grid and so taking the remainder too. */
  function Bands(height: int, threads: int): (bands: seq<Band>)
    requires height >= 0 && threads >= 1
    ensures |bands| == threads
  {
    if threads < 2 then [Band(0, height)]
    else
      var h := height / threads;
      seq(threads, i requires 0 <= i < threads => if i < threads - 1 then Band(i * h, (i + 1) * h) else Band((threads - 1) * h, height))
  }

  /** The bands are contiguous and in ascending order, none reversed, and together they run
      from row `from` to row `to`. */
  predicate Tiles(bands: seq<Band>, from: int, to: int) {
    && |bands| > 0
    && bands[0].startY == from
    && bands[|bands| - 1].endY == to
    && (forall i :: 0 <= i < |bands| ==> bands[i].startY <= bands[i].endY)
    && (forall i :: 0 <= i < |bands| - 1 ==> bands[i].endY == bands[i + 1].startY)
  }

  /** Every band lies inside rows [0, height). */
  predicate WithinGrid(bands: seq<Band>, height: int) {
    forall i :: 0 <= i < |bands| ==> 0 <= bands[i].startY <= bands[i].endY <= height
  }

  /** The partition of every run tiles the whole grid, whatever the thread count. */
  lemma BandsTile(height: int, threads: int)
    requires height >= 0 && threads >= 1
    ensures Tiles(Bands(height, threads), 0, height)
    ensures WithinGrid(Bands(height, threads), height)
  {
    BandsWithinGrid(height, threads);
  }

  /** No band of the partition reaches outside the grid. */
  lemma BandsWithinGrid(height: int, threads: int)
    requires height >= 0 && threads >= 1
    ensures WithinGrid(Bands(height, threads), height)
  {
    var bands := Bands(height, threads);
    if threads >= 2 {
      var h := height / threads;
      forall i | 0 <= i < threads
        ensures 0 <= bands[i].startY <= bands[i].endY <= height
      {
        MulMonotone(i, threads - 1, h);
        MulMonotone(i + 1, threads, h);
        assert h * threads <= height;
      }
    }
  }

  /** Every band but the last has height / threads rows; the last one has the remainder as
      well. So height 10 on 3 workers gives 3, 3 and 4 rows. */
  lemma BandSizes(height: int, threads: int, i: int)
    requires height >= 0 && threads >= 2 && 0 <= i < threads
    ensures var b := Bands(height, threads)[i];
            b.endY - b.startY == if i < threads - 1 then height / threads else height / threads + height % threads
  {
    var h := height / threads;
    if i == threads - 1 {
      assert height == h * threads + height % threads;
      assert (threads - 1) * h == threads * h - h;
    } else {
      assert (i + 1) * h == i * h + h;
    }
  }

  /** The partition of a 10-row grid between 3 workers. */
  lemma BandsOfTen()
    ensures Bands(10, 3) == [Band(0, 3), Band(3, 6), Band(6, 10)]
  {
    var bands := Bands(10, 3);
    assert bands[0] == Band(0, 3) && bands[1] == Band(3, 6) && bands[2] == Band(6, 10);
  }

  /** In a tiling of [from, to) every row of that range lies in exactly one band, and the bands
      are in ascending order. */
  lemma TilesCoverOnce(bands: seq<Band>, from: int, to: int, y: int)
    requires Tiles(bands, from, to)
    ensures from <= y < to ==> exists i :: 0 <= i < |bands| && InBand(bands[i], y)
    ensures forall i, j :: 0 <= i < j < |bands| ==> bands[i].endY <= bands[j].startY
    ensures forall i, j :: 0 <= i < |bands| && 0 <= j < |bands| && InBand(bands[i], y) && InBand(bands[j], y) ==> i == j
  {
    forall i, j | 0 <= i < j < |bands| ensures bands[i].endY <= bands[j].startY {
      Ascending(bands, from, to, i, j);
    }
    if from <= y < to {
      var k := FindBand(bands, from, to, y);
    }
  }

  /** Bands further along a tiling start no earlier than earlier bands end. */
  lemma {:induction false} Ascending(bands: seq<Band>, from: int, to: int, i: int, j: int)
    requires Tiles(bands, from, to) && 0 <= i < j < |bands|
    ensures bands[i].endY <= bands[j].startY
    decreases j - i
  {
    if j > i + 1 {
      Ascending(bands, from, to, i, j - 1);
    }
  }

  /** The band of a tiling that holds row y of its range. */
  lemma {:induction false} FindBand(bands: seq<Band>, from: int, to: int, y: int) returns (k: int)
    requires Tiles(bands, from, to) && from <= y < to
    ensures 0 <= k < |bands| && InBand(bands[k], y)
    decreases |bands|
  {
    var last := bands[|bands| - 1];
    if y >= last.startY {
      k := |bands| - 1;
    } else {
      k := FindBand(bands[..|bands| - 1], from, last.startY, y);
    }
  }

  /** The bands of a tiling lie between its ends. */
  lemma TilesWithin(bands: seq<Band>, from: int, to: int)
    requires Tiles(bands, from, to) && 0 <= from
    ensures forall i :: 0 <= i < |bands| ==> from <= bands[i].startY <= bands[i].endY <= to
  {
    forall i | 0 <= i < |bands| ensures from <= bands[i].startY <= bands[i].endY <= to {
      if i > 0 { Ascending(bands, from, to, 0, i); }
      if i < |bands| - 1 { Ascending(bands, from, to, i, |bands| - 1); }
    }
  }

  lemma {:induction false} MulMonotone(a: int, b: int, h: int)
    requires 0 <= a <= b && h >= 0
    ensures a * h <= b * h
    decreases b - a
  {
    if a < b {
      MulMonotone(a, b - 1, h);
      assert b * h == (b - 1) * h + h;
    }
  }

  /** What each worker returns: the stepped band, in worker order. */
  function Parts(world: Grid, height: int, width: int, bands: seq<Band>): (parts: seq<Grid>)
    requires IsRect(world, height, width) && width >= 0 && WithinGrid(bands, height)
    ensures |parts| == |bands|
  {
    seq(|bands|, i requires 0 <= i < |bands| => StepBand(world, height, width, bands[i].startY, bands[i].endY, width))
  }

  /** The parts stacked one after the other. */
  function Concat(parts: seq<Grid>): Grid {
    if parts == [] then [] else Concat(parts[..|parts| - 1]) + parts[|parts| - 1]
  }

  /** The flip events of the bands, band after band. */
  function BandsFlips(world: Grid, height: int, width: int, bands: seq<Band>, turn: int): seq<Event>
    requires IsRect(world, height, width) && width >= 0 && WithinGrid(bands, height)
  {
    if bands == [] then []
    else
      var b := bands[|bands| - 1];
      BandsFlips(world, height, width, bands[..|bands| - 1], turn) + BandFlips(world, height, width, b.startY, b.endY, width, turn)
  }

  /** Stacking the stepped bands of a tiling in order is stepping its whole range at once. */
  lemma {:induction false} AssembleTiles(world: Grid, height: int, width: int, bands: seq<Band>, from: int, to: int)
    requires IsRect(world, height, width) && width >= 0
    requires Tiles(bands, from, to) && WithinGrid(bands, height)
    ensures 0 <= from <= to <= height
    ensures Concat(Parts(world, height, width, bands)) == StepBand(world, height, width, from, to, width)
    decreases |bands|
  {
    var parts := Parts(world, height, width, bands);
    var last := bands[|bands| - 1];
    var init := bands[..|bands| - 1];
    assert parts[..|parts| - 1] == Parts(world, height, width, init);
    if |bands| == 1 {
      assert Concat(parts) == Concat([]) + parts[0];
    } else {
      assert Tiles(init, from, last.startY);
      AssembleTiles(world, height, width, init, from, last.startY);
      StepBandSplit(world, height, width, from, last.startY, to, width);
    }
  }

  /** Reporting the flips of the bands of a tiling in order is reporting the flips of its whole
      range in row-major order. */
  lemma {:induction false} FlipsTile(world: Grid, height: int, width: int, bands: seq<Band>, from: int, to: int, turn: int)
    requires IsRect(world, height, width) && width >= 0
    requires Tiles(bands, from, to) && WithinGrid(bands, height)
    ensures 0 <= from <= to <= height
    ensures BandsFlips(world, height, width, bands, turn) == BandFlips(world, height, width, from, to, width, turn)
    decreases |bands|
  {
    var last := bands[|bands| - 1];
    var init := bands[..|bands| - 1];
    if |bands| == 1 {
      assert BandsFlips(world, height, width, bands, turn) == [] + BandFlips(world, height, width, from, to, width, turn);
    } else {
      assert Tiles(init, from, last.startY);
      FlipsTile(world, height, width, init, from, last.startY, turn);
      FlipCellsSplit(world, height, width, from, last.startY, to, width);
      FlipEventsAppend(turn, FlipCells(world, height, width, from, last.startY, width), FlipCells(world, height, width, last.startY, to, width));
    }
  }

  /** Whatever the thread count, stacking the workers' parts gives one generation of the whole
      grid and their events are the whole-grid flips in row-major order: the result does not
      depend on how many workers share the grid. */
  lemma ThreadCountIrrelevant(world: Grid, height: int, width: int, threads: int, turn: int)
    requires height >= 0 && width >= 0 && IsRect(world, height, width) && threads >= 1
    ensures WithinGrid(Bands(height, threads), height)
    ensures Concat(Parts(world, height, width, Bands(height, threads))) == NextGrid(world, height, width)
    ensures BandsFlips(world, height, width, Bands(height, threads), turn) == BandFlips(world, height, width, 0, height, width, turn)
  {
    BandsTile(height, threads);
    AssembleTiles(world, height, width, Bands(height, threads), 0, height);
    FlipsTile(world, height, width, Bands(height, threads), 0, height, turn);
  }

  /** One generation, as the distributor runs it: one worker per band, then the parts stacked
      in worker order. */
  method ComputeTurn(p: Params, world: Grid, turn: int) returns (newWorld: Grid, events: seq<Event>)
    requires ValidParams(p) && IsRect(world, p.ImageHeight, p.ImageWidth)
    ensures newWorld == NextGrid(world, p.ImageHeight, p.ImageWidth)
    ensures events == BandFlips(world, p.ImageHeight, p.ImageWidth, 0, p.ImageHeight, p.ImageWidth, turn)
  {
    var parts;
    parts, events := RunWorkers(p, world, turn);
    newWorld := Reassemble(parts);
    ThreadCountIrrelevant(world, p.ImageHeight, p.ImageWidth, p.Threads, turn);
  }

  /** Starts one worker per band of the partition and collects what each returns, in worker
      order. The workers run one after the other, so their flip events come band by band. */
  method RunWorkers(p: Params, world: Grid, turn: int) returns (parts: seq<Grid>, events: seq<Event>)
    requires ValidParams(p) && IsRect(world, p.ImageHeight, p.ImageWidth)
    ensures WithinGrid(Bands(p.ImageHeight, p.Threads), p.ImageHeight)
    ensures parts == Parts(world, p.ImageHeight, p.ImageWidth, Bands(p.ImageHeight, p.Threads))
    ensures events == BandsFlips(world, p.ImageHeight, p.ImageWidth, Bands(p.ImageHeight, p.Threads), turn)
  {
    var height, width, threads := p.ImageHeight, p.ImageWidth, p.Threads;
    ghost var bands := Bands(height, threads);
    BandsWithinGrid(height, threads);
    var workerHeight := height / threads;
    parts, events := [], [];
    if threads < 2 {
      var part, partEvents := Worker(0, height, 0, width, p, world, turn);
      PartsSnoc(world, height, width, bands, 0, turn, 0, height);
      parts, events := parts + [part], events + partEvents;
    } else {
      var i := 0;
      while i < threads - 1
        invariant 0 <= i <= threads - 1
        invariant parts == Parts(world, height, width, bands[..i])
        invariant events == BandsFlips(world, height, width, bands[..i], turn)
      {
        WorkerBand(height, threads, i);
        var part, partEvents := Worker(i * workerHeight, (i + 1) * workerHeight, 0, width, p, world, turn);
        PartsSnoc(world, height, width, bands, i, turn, i * workerHeight, (i + 1) * workerHeight);
        parts, events := parts + [part], events + partEvents;
        i := i + 1;
      }
      WorkerBand(height, threads, threads - 1);
      var part, partEvents := Worker((threads - 1) * workerHeight, height, 0, width, p, world, turn);
      PartsSnoc(world, height, width, bands, threads - 1, turn, (threads - 1) * workerHeight, height);
      parts, events := parts + [part], events + partEvents;
    }
    WholePrefix(world, height, width, bands, turn);
  }

  /** Band i of the partition with two or more workers: `ImageHeight / Threads` rows from row
      i times that, the last band running to the bottom of the grid. */
  lemma WorkerBand(height: int, threads: int, i: int)
    requires height >= 0 && threads >= 2 && 0 <= i < threads
    ensures Bands(height, threads)[i]
            == if i < threads - 1 then Band(i * (height / threads), (i + 1) * (height / threads))
               else Band((threads - 1) * (height / threads), height)
  {
  }

  /** Adding band i, which runs over rows [startY, endY), adds its part and its events at the
      end. */
  lemma PartsSnoc(world: Grid, height: int, width: int, bands: seq<Band>, i: int, turn: int, startY: int, endY: int)
    requires IsRect(world, height, width) && width >= 0 && WithinGrid(bands, height) && 0 <= i < |bands|
    requires bands[i] == Band(startY, endY)
    ensures WithinGrid(bands[..i], height) && WithinGrid(bands[..i + 1], height)
    ensures Parts(world, height, width, bands[..i + 1])
            == Parts(world, height, width, bands[..i]) + [StepBand(world, height, width, startY, endY, width)]
    ensures BandsFlips(world, height, width, bands[..i + 1], turn)
            == BandsFlips(world, height, width, bands[..i], turn) + BandFlips(world, height, width, startY, endY, width, turn)
  {
    assert bands[..i + 1][..i] == bands[..i];
  }

  /** The prefix of all the bands is all the bands. */
  lemma WholePrefix(world: Grid, height: int, width: int, bands: seq<Band>, turn: int)
    requires IsRect(world, height, width) && width >= 0 && WithinGrid(bands, height)
    ensures WithinGrid(bands[..|bands|], height)
    ensures Parts(world, height, width, bands[..|bands|]) == Parts(world, height, width, bands)
    ensures BandsFlips(world, height, width, bands[..|bands|], turn) == BandsFlips(world, height, width, bands, turn)
  {
    assert bands[..|bands|] == bands;
  }

  /** Stacks the parts in worker order, starting from an empty grid. */
  method Reassemble(parts: seq<Grid>) returns (newWorld: Grid)
    ensures newWorld == Concat(parts)
  {
    newWorld := [];
    var j := 0;
    while j < |parts|
      invariant 0 <= j <= |parts|
      invariant newWorld == Concat(parts[..j])
    {
      assert parts[..j + 1][..j] == parts[..j];
      newWorld := newWorld + parts[j];
      j := j + 1;
    }
    assert parts[..|parts|] == parts;
  }
}
