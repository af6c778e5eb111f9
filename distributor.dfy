/** The distributor: it loads the initial grid, runs the turns one generation at a time,
    reacts to the ticker and to key presses between turns, and reports the final state.
    The collaborators it talks to become values: the image it reads is a grid, the ticker
    and the keyboard are one stream of polls, and everything it sends to the event sink is
    appended to a list of events. */
module Distributor {
  import opened World
  import opened Scan
  import opened Events
  import opened Workers
  import opened Partition

  datatype Option<T> = None | Some(value: T)

  /** What the distributor finds when it looks for input between two turns: the ticker has
      fired, a key was pressed, or nothing is ready. An exhausted stream reads as nothing. */
  datatype Poll = Tick | Key(key: char) | Idle

  /** Whether the run goes on, has been asked to quit, or waits forever in a pause because no
      key that resumes it ever comes. */
  datatype Status = Running | Quit | Blocked

  /** The distributor's state between two turns: the grid, the number of completed turns,
      the turns still to run, the position in the poll stream and the events sent so far. */
  datatype LoopState = LoopState(world: Grid, turn: int, remaining: int, next: nat, events: seq<Event>, status: Status)

  /** What one look at the input adds: its events, where the stream continues, the status. */
  datatype Reaction = Reaction(events: seq<Event>, next: nat, status: Status)

  /** The end of a run: every event sent, the last grid, the completed turns, and how the
      turn loop ended (Running when it ran all its turns). */
  datatype Outcome = Outcome(events: seq<Event>, world: Grid, turn: int, status: Status)

  /** No event of the list is a FinalTurnComplete. */
  predicate NoFinal(events: seq<Event>) {
    forall i :: 0 <= i < |events| ==> !events[i].FinalTurnComplete?
  }

  /** The grid after n generations. */
  function Generations(world: Grid, height: int, width: int, n: nat): (g: Grid)
    requires height >= 0 && width >= 0 && IsRect(world, height, width)
    ensures IsRect(g, height, width)
    decreases n
  {
    if n == 0 then world else Generations(NextGrid(world, height, width), height, width, n - 1)
  }

  // ---------------------------------------------------------------------------------------
  // Loading the initial grid

  /** The events sent while the initial image is read: one CellFlipped for turn 0 per live
      cell, in the order the image arrives (row by row), each at its own column and row. */
  function InitialFlips(image: Grid, height: int, width: int): (events: seq<Event>)
    requires height >= 0 && width >= 0 && IsRect(image, height, width)
    ensures forall e :: e in events <==> e.CellFlipped? && e.completedTurns == 0 && 0 <= e.cell.Y < height
                                         && 0 <= e.cell.X < width && image[e.cell.Y][e.cell.X] == Alive
  {
    var events := FlipEvents(0, AliveCells(image, height, width));
    forall e ensures e in events <==> e.CellFlipped? && e.completedTurns == 0 && e.cell in AliveCells(image, height, width) {
      FlipEventsMembership(0, AliveCells(image, height, width), e);
    }
    events
  }

  /** The events as the load loop writes them: the row index is put in X and the column index
      in Y. */
  function InitialFlipsAsWritten(image: Grid, height: int, width: int): (events: seq<Event>)
    requires height >= 0 && width >= 0 && IsRect(image, height, width)
    ensures |events| == |InitialFlips(image, height, width)|
  {
    var cells := AliveCells(image, height, width);
    seq(|cells|, i requires 0 <= i < |cells| => CellFlipped(0, Cell(cells[i].Y, cells[i].X)))
  }

  /** On a one-row, two-column image whose second cell is alive, the load loop as written
      reports cell (0, 1), which lies outside the grid, and the live cell (1, 0) is never
      reported. */
  lemma InitialFlipsSwapped()
    ensures InitialFlipsAsWritten([[Dead, Alive]], 1, 2) == [CellFlipped(0, Cell(0, 1))]
    ensures InitialFlips([[Dead, Alive]], 1, 2) == [CellFlipped(0, Cell(1, 0))]
  {
    var image: Grid := [[Dead, Alive]];
    var cells := AliveCells(image, 1, 2);
    var row := AliveMask(image, 1, 2)[0];
    assert row == [false, true];
    assert RowMarked(row, 0, 1) == [];
    assert cells == MarkedRows(AliveMask(image, 1, 2), 1, 2, 0, 0, 2) + RowMarked(row, 0, 2) == [Cell(1, 0)];
  }

  /** Reads the image row by row into a fresh matrix, sending a CellFlipped event for turn 0
      for every live cell as it arrives. A byte other than 0 and 255 is stored as it is and
      sends nothing. */
  method LoadWorld(p: Params, image: Grid) returns (world: Grid, events: seq<Event>)
    requires ValidParams(p) && IsRect(image, p.ImageHeight, p.ImageWidth)
    ensures world == image
    ensures events == InitialFlips(image, p.ImageHeight, p.ImageWidth)
  {
    var height, width := p.ImageHeight, p.ImageWidth;
    var matrix := MakeMatrix(height, width);
    ghost var mask := AliveMask(image, height, width);
    ghost var cells: seq<Cell> := [];
    events := [];
    var i := 0;
    while i < height
      invariant 0 <= i <= height
      invariant forall r, c :: 0 <= r < height && 0 <= c < width ==> matrix[r, c] == if r < i then image[r][c] else Dead
      invariant cells == MarkedRows(mask, height, width, 0, i, width)
      invariant events == FlipEvents(0, cells)
    {
      var j := 0;
      while j < width
        invariant 0 <= j <= width
        invariant forall r, c :: 0 <= r < height && 0 <= c < width ==>
                    matrix[r, c] == if r < i || (r == i && c < j) then image[r][c] else Dead
        invariant cells == MarkedRows(mask, height, width, 0, i, width) + RowMarked(mask[i], i, j)
        invariant events == FlipEvents(0, cells)
      {
        var a := image[i][j];
        matrix[i, j] := a;
        if a == Alive {
          FlipEventsAppend(0, cells, [Cell(j, i)]);
          assert FlipEvents(0, [Cell(j, i)]) == [CellFlipped(0, Cell(j, i))];
          events := events + [CellFlipped(0, Cell(j, i))];
          cells := cells + [Cell(j, i)];
        }
        j := j + 1;
      }
      i := i + 1;
    }
    world := ImmutableWorld(matrix);
    forall r | 0 <= r < height ensures world[r] == image[r] {
      assert forall c :: 0 <= c < width ==> world[r][c] == image[r][c];
    }
  }

  // ---------------------------------------------------------------------------------------
  // Reacting to input between turns

  /** The poll at position k of the stream; past its end nothing is ever ready. */
  function PollAt(polls: seq<Poll>, k: nat): Poll {
    if k < |polls| then polls[k] else Idle
  }

  /** Where a pause that reads keys from position k on ends: at the first 'p' key, if any.
      Ticks, empty polls and every other key are passed over. */
  function FindResume(polls: seq<Poll>, k: nat): (r: Option<nat>)
    ensures r.Some? ==> k <= r.value < |polls| && polls[r.value] == Key('p')
                        && forall i :: k <= i < r.value ==> polls[i] != Key('p')
    ensures r.None? ==> forall i :: k <= i < |polls| ==> polls[i] != Key('p')
    decreases |polls| - k
  {
    if k >= |polls| then None
    else if polls[k] == Key('p') then Some(k)
    else FindResume(polls, k + 1)
  }

  /** The first 'p' key at or after k is where the pause ends, whatever comes after it. */
  lemma {:induction false} FindResumeIsFirst(polls: seq<Poll>, k: nat, j: nat)
    requires k <= j < |polls| && polls[j] == Key('p')
    requires forall i :: k <= i < j ==> polls[i] != Key('p')
    ensures FindResume(polls, k) == Some(j)
    decreases j - k
  {
    if k < j {
      FindResumeIsFirst(polls, k + 1, j);
    }
  }

  /** The reaction to the input after a turn, `turn` being the number of turns now complete and
      `world` the grid after them. */
  function Select(world: Grid, height: int, width: int, turn: int, polls: seq<Poll>, k: nat): (r: Reaction)
    requires height >= 0 && width >= 0 && IsRect(world, height, width)
    ensures r.next > k
    ensures PollAt(polls, k) != Key('p') ==> r.next == k + 1
    ensures r.status == Quit <==> PollAt(polls, k) == Key('q')
    ensures r.status == Blocked <==> PollAt(polls, k) == Key('p') && FindResume(polls, k + 1).None?
    ensures NoFinal(r.events)
    ensures forall i :: 0 <= i < |r.events| ==> r.events[i].completedTurns == turn
  {
    match PollAt(polls, k)
    case Tick => Reaction([AliveCellsCount(turn, |AliveCells(world, height, width)|)], k + 1, Running)
    case Idle => Reaction([], k + 1, Running)
    case Key(c) =>
      if c == 's' then
        Reaction([StateChange(turn, Executing), ImageOutputComplete(turn, world)], k + 1, Running)
      else if c == 'p' then
        var paused := [StateChange(turn, Paused), ImageOutputComplete(turn, world)];
        match FindResume(polls, k + 1)
        case None => Reaction(paused, |polls|, Blocked)
        case Some(j) => Reaction(paused + [StateChange(turn, Executing), TurnComplete(turn)], j + 1, Running)
      else if c == 'q' then
        Reaction([StateChange(turn, Quitting), ImageOutputComplete(turn, world), TurnComplete(turn)], k + 1, Quit)
      else
        Reaction([], k + 1, Running)
  }

  /** A key other than 's', 'p' and 'q' does nothing: the distributor reacts as if nothing had
      been ready. */
  lemma OtherKeyIgnored(world: Grid, height: int, width: int, turn: int, polls: seq<Poll>, k: nat, c: char)
    requires height >= 0 && width >= 0 && IsRect(world, height, width)
    requires k < |polls| && polls[k] == Key(c) && c != 's' && c != 'p' && c != 'q'
    ensures Select(world, height, width, turn, polls, k) == Reaction([], k + 1, Running)
    ensures Select(world, height, width, turn, polls, k) == Select(world, height, width, turn, polls[k := Idle], k)
  {
  }

  /** While paused the distributor only waits for 'p': replacing everything between the key
      that paused and the key that resumes by any polls without a 'p' (a 'q' or an 's'
      included) changes nothing. */
  lemma PauseIgnoresInput(world: Grid, height: int, width: int, turn: int, polls: seq<Poll>, k: nat, filler: seq<Poll>)
    requires height >= 0 && width >= 0 && IsRect(world, height, width)
    requires k < |polls| && polls[k] == Key('p') && FindResume(polls, k + 1).Some?
    requires |filler| == FindResume(polls, k + 1).value - (k + 1) && Key('p') !in filler
    ensures Select(world, height, width, turn, polls[..k + 1] + filler + polls[FindResume(polls, k + 1).value..], k)
            == Select(world, height, width, turn, polls, k)
  {
    var j := FindResume(polls, k + 1).value;
    var other := polls[..k + 1] + filler + polls[j..];
    assert |other| == |polls|;
    assert other[k] == Key('p');
    assert other[j] == polls[j];
    forall i | k + 1 <= i < j ensures other[i] != Key('p') {
      assert other[i] == filler[i - (k + 1)];
    }
    FindResumeIsFirst(other, k + 1, j);
  }

  /** A pause that is resumed by the j-th poll writes the image, then, on the resume, reports
      Executing and a TurnComplete for the same turn, and the loop goes on from the poll after
      the resuming key. */
  lemma PauseResumes(world: Grid, height: int, width: int, turn: int, polls: seq<Poll>, k: nat, j: nat)
    requires height >= 0 && width >= 0 && IsRect(world, height, width)
    requires k < j < |polls| && polls[k] == Key('p') && polls[j] == Key('p')
    requires forall i :: k < i < j ==> polls[i] != Key('p')
    ensures var r := Select(world, height, width, turn, polls, k);
            && r.status == Running && r.next == j + 1
            && r.events == [StateChange(turn, Paused), ImageOutputComplete(turn, world),
                            StateChange(turn, Executing), TurnComplete(turn)]
  {
    FindResumeIsFirst(polls, k + 1, j);
  }

  /** Looks at the input once after a turn and reacts: the ticker reports the number of live
      cells; 's' writes the image; 'p' writes the image and then waits for a second 'p',
      passing over every other key; 'q' writes the image and asks the loop to stop. */
  method HandleInput(p: Params, world: Grid, turn: int, polls: seq<Poll>, k: nat)
    returns (events: seq<Event>, next: nat, status: Status)
    requires ValidParams(p) && IsRect(world, p.ImageHeight, p.ImageWidth)
    ensures Reaction(events, next, status) == Select(world, p.ImageHeight, p.ImageWidth, turn, polls, k)
  {
    var poll := if k < |polls| then polls[k] else Idle;
    next, status := k + 1, Running;
    events := [];
    match poll
    case Tick =>
      var alive := CalculateAliveCells(p, world);
      events := [AliveCellsCount(turn, |alive|)];
    case Idle =>
    case Key(command) =>
      if command == 's' {
        events := [StateChange(turn, Executing), ImageOutputComplete(turn, world)];
      } else if command == 'p' {
        events := [StateChange(turn, Paused), ImageOutputComplete(turn, world)];
        var resumed := false;
        while !resumed
          invariant k + 1 <= next <= |polls|
          invariant !resumed ==> FindResume(polls, next) == FindResume(polls, k + 1)
          invariant !resumed ==> events == [StateChange(turn, Paused), ImageOutputComplete(turn, world)]
          invariant resumed ==> Reaction(events, next, status) == Select(world, p.ImageHeight, p.ImageWidth, turn, polls, k)
          decreases |polls| - next, !resumed
        {
          if next >= |polls| {
            next, status := |polls|, Blocked;
            return;
          }
          var key := polls[next];
          next := next + 1;
          if key == Key('p') {
            events := events + [StateChange(turn, Executing), TurnComplete(turn)];
            resumed := true;
          }
        }
      } else if command == 'q' {
        events := [StateChange(turn, Quitting), ImageOutputComplete(turn, world), TurnComplete(turn)];
        status := Quit;
      }
  }

  // ---------------------------------------------------------------------------------------
  // The turn loop

  /** One pass of the turn loop: a generation, its CellFlipped events, TurnComplete for the
      turn just computed, then the reaction to the input with the turn counter advanced. */
  function TurnStep(p: Params, polls: seq<Poll>, s: LoopState): (r: LoopState)
    requires ValidParams(p) && IsRect(s.world, p.ImageHeight, p.ImageWidth)
    ensures IsRect(r.world, p.ImageHeight, p.ImageWidth)
    ensures r.world == NextGrid(s.world, p.ImageHeight, p.ImageWidth)
    ensures r.turn == s.turn + 1 && r.remaining == s.remaining - 1 && r.next > s.next
    ensures r.status == Quit <==> PollAt(polls, s.next) == Key('q')
    ensures r.status == Blocked ==> PollAt(polls, s.next) == Key('p')
    ensures s.events <= r.events
    ensures NoFinal(s.events) ==> NoFinal(r.events)
  {
    var height, width := p.ImageHeight, p.ImageWidth;
    var next := NextGrid(s.world, height, width);
    var flips := BandFlips(s.world, height, width, 0, height, width, s.turn);
    assert forall i :: 0 <= i < |flips| ==> flips[i].CellFlipped?;
    var reaction := Select(next, height, width, s.turn + 1, polls, s.next);
    LoopState(next, s.turn + 1, s.remaining - 1, reaction.next,
              s.events + flips + [TurnComplete(s.turn)] + reaction.events, reaction.status)
  }

  /** The turn loop from state s: passes while turns remain and the status is Running. */
  function TurnLoop(p: Params, polls: seq<Poll>, s: LoopState): (r: LoopState)
    requires ValidParams(p) && IsRect(s.world, p.ImageHeight, p.ImageWidth)
    ensures IsRect(r.world, p.ImageHeight, p.ImageWidth)
    decreases s.remaining
  {
    if s.status != Running || s.remaining <= 0 then s
    else TurnLoop(p, polls, TurnStep(p, polls, s))
  }

  /** A whole run on the given image and input. A run that ends blocked in a pause sends no
      more events; any other run writes the final image and then sends FinalTurnComplete with
      the live cells. */
  function Run(p: Params, image: Grid, polls: seq<Poll>): (o: Outcome)
    requires ValidParams(p) && IsRect(image, p.ImageHeight, p.ImageWidth)
    ensures IsRect(o.world, p.ImageHeight, p.ImageWidth)
  {
    var height, width := p.ImageHeight, p.ImageWidth;
    var s := TurnLoop(p, polls, LoopState(image, 0, p.Turns, 0, InitialFlips(image, height, width), Running));
    if s.status == Blocked then Outcome(s.events, s.world, s.turn, Blocked)
    else Outcome(s.events + [ImageOutputComplete(s.turn, s.world), FinalTurnComplete(s.turn, AliveCells(s.world, height, width))],
                 s.world, s.turn, s.status)
  }

  /** The grid the turn loop ends with is the generation of its turn count, and a loop that
      is not running does nothing. */
  lemma {:induction false} TurnLoopGenerations(p: Params, polls: seq<Poll>, s: LoopState)
    requires ValidParams(p) && IsRect(s.world, p.ImageHeight, p.ImageWidth)
    ensures var r := TurnLoop(p, polls, s);
            && s.turn <= r.turn
            && r.world == Generations(s.world, p.ImageHeight, p.ImageWidth, r.turn - s.turn)
            && (s.status != Running ==> r == s)
    decreases s.remaining
  {
    if s.status == Running && s.remaining > 0 {
      var t := TurnStep(p, polls, s);
      TurnLoopGenerations(p, polls, t);
      var r := TurnLoop(p, polls, t);
      assert r.turn - s.turn == (r.turn - t.turn) + 1;
    }
  }

  /** A loop that is not stopped runs all its turns, and one that stops does so after at
      least one turn and at most the turns it had left. */
  lemma {:induction false} TurnLoopCount(p: Params, polls: seq<Poll>, s: LoopState)
    requires ValidParams(p) && IsRect(s.world, p.ImageHeight, p.ImageWidth) && s.status == Running
    ensures var r := TurnLoop(p, polls, s);
            && (r.status == Running ==> r.turn - s.turn == if s.remaining > 0 then s.remaining else 0)
            && (r.status != Running ==> s.turn < r.turn <= s.turn + s.remaining)
    decreases s.remaining
  {
    if s.remaining > 0 {
      var t := TurnStep(p, polls, s);
      if t.status == Running {
        TurnLoopCount(p, polls, t);
      } else {
        assert TurnLoop(p, polls, s) == t;
      }
    }
  }

  /** The turn loop only ever appends events, and never a FinalTurnComplete. */
  lemma {:induction false} TurnLoopEvents(p: Params, polls: seq<Poll>, s: LoopState)
    requires ValidParams(p) && IsRect(s.world, p.ImageHeight, p.ImageWidth)
    ensures s.events <= TurnLoop(p, polls, s).events
    ensures NoFinal(s.events) ==> NoFinal(TurnLoop(p, polls, s).events)
    decreases s.remaining
  {
    if s.status == Running && s.remaining > 0 {
      TurnLoopEvents(p, polls, TurnStep(p, polls, s));
    }
  }

  /** The turn loop stops early only for a 'q' or for a pause that never ends. */
  lemma {:induction false} TurnLoopStops(p: Params, polls: seq<Poll>, s: LoopState)
    requires ValidParams(p) && IsRect(s.world, p.ImageHeight, p.ImageWidth) && s.status == Running
    ensures TurnLoop(p, polls, s).status == Quit ==> Key('q') in polls
    ensures TurnLoop(p, polls, s).status == Blocked ==> Key('p') in polls
    decreases s.remaining
  {
    if s.remaining > 0 {
      var t := TurnStep(p, polls, s);
      if t.status == Running {
        TurnLoopStops(p, polls, t);
      } else {
        assert TurnLoop(p, polls, s) == TurnLoop(p, polls, t) == t;
        assert PollAt(polls, s.next) == polls[s.next] && polls[s.next] in polls;
      }
    }
  }

  /** A run stops early only for a 'q' or a pause that never ends; otherwise it completes
      exactly Turns turns (none when Turns is not positive). Its grid is always the generation
      of its turn count. */
  lemma RunTurns(p: Params, image: Grid, polls: seq<Poll>)
    requires ValidParams(p) && IsRect(image, p.ImageHeight, p.ImageWidth)
    ensures var o := Run(p, image, polls);
            && 0 <= o.turn
            && o.world == Generations(image, p.ImageHeight, p.ImageWidth, o.turn)
            && (o.status == Running ==> o.turn == if p.Turns > 0 then p.Turns else 0)
            && (o.status != Running ==> 1 <= o.turn <= p.Turns)
            && (o.status == Quit ==> Key('q') in polls)
            && (o.status == Blocked ==> Key('p') in polls)
  {
    var s := LoopState(image, 0, p.Turns, 0, InitialFlips(image, p.ImageHeight, p.ImageWidth), Running);
    TurnLoopGenerations(p, polls, s);
    TurnLoopCount(p, polls, s);
    TurnLoopStops(p, polls, s);
  }

  /** With no 'p' or 'q' before it, a 'q' that is the j-th poll from state s stops the loop
      right after the turn that reads it. */
  lemma {:induction false} QuitAfter(p: Params, polls: seq<Poll>, s: LoopState, j: nat)
    requires ValidParams(p) && IsRect(s.world, p.ImageHeight, p.ImageWidth) && s.status == Running
    requires s.next <= j < |polls| && j - s.next < s.remaining && polls[j] == Key('q')
    requires forall i :: s.next <= i < j ==> polls[i] != Key('p') && polls[i] != Key('q')
    ensures TurnLoop(p, polls, s).status == Quit
    ensures TurnLoop(p, polls, s).turn == s.turn + (j - s.next) + 1
    decreases j - s.next
  {
    var t := TurnStep(p, polls, s);
    if j > s.next {
      QuitAfter(p, polls, t, j);
    }
  }

  /** A 'q' read at the k-th look at the input, with no 'p' or 'q' before it, ends the run
      with k turns complete. */
  lemma QuitAtTurn(p: Params, image: Grid, polls: seq<Poll>, k: int)
    requires ValidParams(p) && IsRect(image, p.ImageHeight, p.ImageWidth)
    requires 1 <= k <= p.Turns && k <= |polls| && polls[k - 1] == Key('q')
    requires forall i :: 0 <= i < k - 1 ==> polls[i] != Key('p') && polls[i] != Key('q')
    ensures Run(p, image, polls).status == Quit
    ensures Run(p, image, polls).turn == k
  {
    QuitAfter(p, polls, LoopState(image, 0, p.Turns, 0, InitialFlips(image, p.ImageHeight, p.ImageWidth), Running), k - 1);
  }

  /** A run that is not blocked ends with the final image and then FinalTurnComplete, which
      lists the live cells of the last grid in row-major order and is sent exactly once; a
      blocked run never sends it. */
  lemma FinalTurnCompleteLast(p: Params, image: Grid, polls: seq<Poll>)
    requires ValidParams(p) && IsRect(image, p.ImageHeight, p.ImageWidth)
    ensures var o := Run(p, image, polls);
            && (o.status != Blocked ==>
                  && |o.events| >= 2
                  && o.events[|o.events| - 1] == FinalTurnComplete(o.turn, AliveCells(o.world, p.ImageHeight, p.ImageWidth))
                  && o.events[|o.events| - 2] == ImageOutputComplete(o.turn, o.world)
                  && NoFinal(o.events[..|o.events| - 1]))
            && (o.status == Blocked ==> NoFinal(o.events))
  {
    var height, width := p.ImageHeight, p.ImageWidth;
    var initial := InitialFlips(image, height, width);
    assert forall i :: 0 <= i < |initial| ==> initial[i].CellFlipped?;
    var s := LoopState(image, 0, p.Turns, 0, initial, Running);
    TurnLoopEvents(p, polls, s);
    var r := TurnLoop(p, polls, s);
    var o := Run(p, image, polls);
    if o.status != Blocked {
      assert o.events[..|o.events| - 1] == r.events + [ImageOutputComplete(r.turn, r.world)];
    }
  }

  /** The distributor: loads the image, runs the turns, reacting to the input after each one,
      and, unless a pause never ends, writes the final image and sends FinalTurnComplete. */
  method Distributor(p: Params, image: Grid, polls: seq<Poll>) returns (outcome: Outcome)
    requires ValidParams(p) && IsRect(image, p.ImageHeight, p.ImageWidth)
    ensures outcome == Run(p, image, polls)
  {
    var height, width := p.ImageHeight, p.ImageWidth;
    var world, events := LoadWorld(p, image);
    var turn, currentTurn, k := 0, p.Turns, 0;
    var status := Running;
    ghost var result := TurnLoop(p, polls, LoopState(world, turn, currentTurn, k, events, status));
    while currentTurn > 0
      invariant IsRect(world, height, width)
      invariant status == Running
      invariant TurnLoop(p, polls, LoopState(world, turn, currentTurn, k, events, status)) == result
      decreases currentTurn
    {
      ghost var s := LoopState(world, turn, currentTurn, k, events, status);
      var newWorld, flips := ComputeTurn(p, world, turn);
      world := newWorld;
      currentTurn := currentTurn - 1;
      events := events + flips + [TurnComplete(turn)];
      turn := turn + 1;
      var reaction, next, reacted := HandleInput(p, world, turn, polls, k);
      events, k, status := events + reaction, next, reacted;
      assert LoopState(world, turn, currentTurn, k, events, status) == TurnStep(p, polls, s);
      if status != Running {
        break;
      }
    }
    assert LoopState(world, turn, currentTurn, k, events, status) == result;
    if status == Blocked {
      outcome := Outcome(events, world, turn, Blocked);
      return;
    }
    events := events + [ImageOutputComplete(turn, world)];
    var alive := CalculateAliveCells(p, world);
    events := events + [FinalTurnComplete(turn, alive)];
    outcome := Outcome(events, world, turn, status);
  }
}
