/**
  The pieces of the main loop that act on the grid: seeding again, toggling
  one cell from a click, advancing one generation, and one whole pass of the
  loop with its input given as a value.
*/
module Driver {
  import Life
  import Patterns
  import opened Game

  datatype Option<T> = None | Some(value: T)

  /** What was pressed during one pass of the loop; click is the grid cell under the mouse. */
  datatype Input = Input(reset: bool, quit: bool, pause: bool, click: Option<(int, int)>, step: bool)

  /** The part of a grid the loop reads and writes: the board, the generations left and the pause flag. */
  datatype World = World(board: Life.Board, lifetime: int, paused: bool)

  /** The grid is seeded and every cached count is up to date. */
  ghost predicate Ready(g: Grid)
    reads g`cells, g`dimension, g.cells
  {
    g.Valid() && g.dimension == GridDimension && g.Counted()
  }

  ghost function WorldOf(g: Grid): World
    reads g, g.cells
    requires g.Valid()
  {
    World(g.States(), g.lifetime, g.paused)
  }

  /** A freshly seeded world: the seed board, a full lifetime, and the starting pause flag. */
  function Reseeded(seed: Life.Board): World {
    World(seed, GridLifeTime, StartPaused)
  }

  /** One generation and one fewer left. */
  function Advance(w: World): World
    requires Life.IsSquare(w.board, GridDimension)
  {
    World(Life.Step(w.board, GridDimension), w.lifetime - 1, w.paused)
  }

  /** A click on a cell of the grid. */
  predicate ClickOnGrid(ev: Input) {
    ev.click.Some? ==> Life.InBounds(GridDimension, ev.click.value.0, ev.click.value.1)
  }

  /** The start of a pass: seed again when no generation is left, then seed again on reset. */
  function Restart(w: World, reset: bool, seed: Life.Board): (r: World)
    requires Life.IsSquare(w.board, GridDimension) && Life.IsSquare(seed, GridDimension)
    ensures Life.IsSquare(r.board, GridDimension)
  {
    var expired := if w.lifetime <= 0 then Reseeded(seed) else w;
    if reset then Reseeded(seed) else expired
  }

  /** The keys and the mouse: flip the pause flag on pause, then toggle the clicked cell. */
  function Respond(w: World, ev: Input): (r: World)
    requires Life.IsSquare(w.board, GridDimension) && ClickOnGrid(ev)
    ensures Life.IsSquare(r.board, GridDimension)
  {
    var toggled := if ev.pause then w.(paused := !w.paused) else w;
    if ev.click.Some? then toggled.(board := Life.Flip(toggled.board, GridDimension, ev.click.value.0, ev.click.value.1))
    else toggled
  }

  /** The end of a pass: advance once when paused and stepping, then advance once when running. */
  function Run(w: World, step: bool): (r: World)
    requires Life.IsSquare(w.board, GridDimension)
    ensures Life.IsSquare(r.board, GridDimension)
  {
    var stepped := if w.paused && step then Advance(w) else w;
    if !stepped.paused then Advance(stepped) else stepped
  }

  /**
    One pass of the main loop on the world w, in the order the loop runs:
    Restart, stop on quit, Respond, Run. The second component is false when
    the loop stops.
  */
  function FrameSpec(w: World, ev: Input, seed: Life.Board): (World, bool)
    requires Life.IsSquare(w.board, GridDimension) && Life.IsSquare(seed, GridDimension) && (!ev.quit ==> ClickOnGrid(ev))
  {
    var restarted := Restart(w, ev.reset, seed);
    if ev.quit then (restarted, false)
    else (Run(Respond(restarted, ev), ev.step), true)
  }

  /** Every input of the sequence may be handed to FrameSpec. */
  predicate Playable(evs: seq<Input>) {
    forall k :: 0 <= k < |evs| ==> (!evs[k].quit ==> ClickOnGrid(evs[k]))
  }

  /** Every seed is a 100 x 100 board. */
  predicate SquareSeeds(seeds: seq<Life.Board>) {
    forall k :: 0 <= k < |seeds| ==> Life.IsSquare(seeds[k], GridDimension)
  }

  /**
    The main loop on the world w from the k-th input on: one pass per input,
    the k-th pass seeding from seeds[k], until a pass quits or the inputs
    run out.
  */
  function Replay(w: World, evs: seq<Input>, seeds: seq<Life.Board>, k: nat): (r: World)
    requires Life.IsSquare(w.board, GridDimension) && Playable(evs) && |seeds| == |evs| && SquareSeeds(seeds)
    ensures Life.IsSquare(r.board, GridDimension)
    decreases |evs| - k
  {
    if k >= |evs| then w
    else
      var (next, running) := FrameSpec(w, evs[k], seeds[k]);
      FrameBoardSquare(w, evs[k], seeds[k]);
      if !running then next else Replay(next, evs, seeds, k + 1)
  }

  /** A pass keeps the board 100 x 100. */
  lemma FrameBoardSquare(w: World, ev: Input, seed: Life.Board)
    requires Life.IsSquare(w.board, GridDimension) && Life.IsSquare(seed, GridDimension) && (!ev.quit ==> ClickOnGrid(ev))
    ensures Life.IsSquare(FrameSpec(w, ev, seed).0.board, GridDimension)
  {
  }

  /**
    With time left and no input at all, a paused world stays as it is for
    any number of passes.
  */
  lemma {:induction false} PausedIdleReplay(w: World, evs: seq<Input>, seeds: seq<Life.Board>, k: nat)
    requires Life.IsSquare(w.board, GridDimension) && Playable(evs) && |seeds| == |evs| && SquareSeeds(seeds)
    requires forall m :: 0 <= m < |evs| ==> Idle(evs[m])
    requires w.lifetime > 0 && w.paused
    ensures Replay(w, evs, seeds, k) == w
    decreases |evs| - k
  {
    if k < |evs| {
      PausedIdleFrame(w, evs[k], seeds[k]);
      PausedIdleReplay(w, evs, seeds, k + 1);
    }
  }

  /** A pass with no key pressed and no click. */
  predicate Idle(ev: Input) {
    !ev.reset && !ev.quit && !ev.pause && ev.click.None? && !ev.step
  }

  /**
    The end of a pass advances at most one generation: it stands still
    exactly when the world is paused and no step is asked for, and it never
    changes the pause flag.
  */
  lemma RunAtMostOnce(w: World, step: bool)
    requires Life.IsSquare(w.board, GridDimension)
    ensures Run(w, step) == if w.paused && !step then w else Advance(w)
    ensures Run(w, step).paused == w.paused
  {
  }

  /**
    A pass that starts with at most a full lifetime left ends with a
    lifetime between zero and a full lifetime: an exhausted grid is seeded
    again before it is advanced, and a pass advances at most once.
  */
  lemma FrameKeepsLifetime(w: World, ev: Input, seed: Life.Board)
    requires Life.IsSquare(w.board, GridDimension) && Life.IsSquare(seed, GridDimension) && (!ev.quit ==> ClickOnGrid(ev))
    requires w.lifetime <= GridLifeTime
    ensures 0 <= FrameSpec(w, ev, seed).0.lifetime <= GridLifeTime
  {
    var restarted := Restart(w, ev.reset, seed);
    assert 1 <= restarted.lifetime <= GridLifeTime;
    if !ev.quit {
      RunAtMostOnce(Respond(restarted, ev), ev.step);
    }
  }

  /** With time left and nothing pressed, a running world advances exactly one generation. */
  lemma RunningIdleFrame(w: World, ev: Input, seed: Life.Board)
    requires Life.IsSquare(w.board, GridDimension) && Life.IsSquare(seed, GridDimension) && Idle(ev)
    requires w.lifetime > 0 && !w.paused
    ensures FrameSpec(w, ev, seed) == (Advance(w), true)
  {
  }

  /** With time left and nothing pressed, a paused world stays exactly as it is. */
  lemma PausedIdleFrame(w: World, ev: Input, seed: Life.Board)
    requires Life.IsSquare(w.board, GridDimension) && Life.IsSquare(seed, GridDimension) && Idle(ev)
    requires w.lifetime > 0 && w.paused
    ensures FrameSpec(w, ev, seed) == (w, true)
  {
  }

  /** With time left, a paused world advances exactly one generation when a step is asked for and nothing else is pressed. */
  lemma PausedStepFrame(w: World, ev: Input, seed: Life.Board)
    requires Life.IsSquare(w.board, GridDimension) && Life.IsSquare(seed, GridDimension)
    requires ev == Input(false, false, false, None, true)
    requires w.lifetime > 0 && w.paused
    ensures FrameSpec(w, ev, seed) == (Advance(w), true)
  {
  }

  /**
    A world whose lifetime has run out is seeded again and, since a fresh
    grid starts paused, the pass ends with the fresh seed standing still,
    whether or not the world was running before.
  */
  lemma ExpiredFrame(w: World, ev: Input, seed: Life.Board)
    requires Life.IsSquare(w.board, GridDimension) && Life.IsSquare(seed, GridDimension) && Idle(ev)
    requires w.lifetime <= 0
    ensures FrameSpec(w, ev, seed) == (Reseeded(seed), true)
    ensures FrameSpec(w, ev, seed).0.paused
  {
  }

  /**
    Quit ends the loop after the expiry and reset seedings of that pass and
    before the pause flag, the click or any generation takes effect; the
    click need not be on the grid.
  */
  lemma QuitFrame(w: World, ev: Input, seed: Life.Board)
    requires Life.IsSquare(w.board, GridDimension) && Life.IsSquare(seed, GridDimension)
    requires ev.quit
    ensures FrameSpec(w, ev, seed) == (Restart(w, ev.reset, seed), false)
    ensures !ev.reset && w.lifetime > 0 ==> FrameSpec(w, ev, seed) == (w, false)
  {
  }

  /** With time left, two passes that each only click the same cell leave a paused world as it was. */
  lemma DoubleClickRestores(w: World, x: int, y: int, seed: Life.Board)
    requires Life.IsSquare(w.board, GridDimension) && Life.IsSquare(seed, GridDimension)
    requires Life.InBounds(GridDimension, x, y) && w.lifetime > 0 && w.paused
    ensures
      var ev := Input(false, false, false, Some((x, y)), false);
      FrameSpec(FrameSpec(w, ev, seed).0, ev, seed) == (w, true)
  {
    Life.FlipTwice(w.board, GridDimension, x, y);
  }

  /**
    Seeds the grid again and recounts. The result is the seed board with
    consistent counts, a full lifetime and the starting pause flag; without
    randomness every cell is dead and every count zero.
  */
  method Reseed(g: Grid, useRandom: bool, draw: (int, int) -> bool)
    modifies g
    ensures Ready(g) && fresh(g.cells)
    ensures WorldOf(g) == Reseeded(Life.Seed(GridDimension, useRandom, draw))
    ensures !useRandom ==> forall i, j :: 0 <= i < GridDimension && 0 <= j < GridDimension ==>
      g.cells[i, j] == Cell(i, j, false, 0)
  {
    g.InitGrid(useRandom, draw);
    g.CountNeighbours();
    if !useRandom {
      Patterns.DeadBoardIsStill(g.States(), g.dimension);
    }
  }

  /** Program start: a new grid, seeded and counted. */
  method Start(useRandom: bool, draw: (int, int) -> bool) returns (g: Grid)
    ensures fresh(g) && fresh(g.cells) && Ready(g)
    ensures WorldOf(g) == Reseeded(Life.Seed(GridDimension, useRandom, draw))
  {
    g := new Grid();
    Reseed(g, useRandom, draw);
  }

  /**
    Inverts the clicked cell and recounts the whole grid: only that cell's
    state changes, every count is up to date again, and when the counts were
    up to date before, only the counts of the cell's on-board neighbours
    move, each by one.
  */
  method ToggleCell(g: Grid, x: int, y: int)
    requires g.Valid() && Life.InBounds(g.dimension, x, y)
    modifies g.cells
    ensures g.Valid() && g.Counted()
    ensures g.States() == Life.Flip(old(g.States()), g.dimension, x, y)
    ensures old(g.Counted()) ==> forall i, j :: 0 <= i < g.dimension && 0 <= j < g.dimension ==>
      g.cells[i, j].neighbours ==
        if Life.Adjacent(i, j, x, y) then old(g.cells[i, j].neighbours) + (if old(g.cells[x, y].state) then -1 else 1)
        else old(g.cells[i, j].neighbours)
  {
    ghost var b := g.States();
    ghost var n := g.dimension;
    g.cells[x, y] := g.cells[x, y].(state := !g.cells[x, y].state);
    Life.BoardExt(g.States(), Life.Flip(b, n, x, y), n);
    g.CountNeighbours();
    if old(g.Counted()) {
      forall i, j | 0 <= i < n && 0 <= j < n
        ensures g.cells[i, j].neighbours ==
          if Life.Adjacent(i, j, x, y) then old(g.cells[i, j].neighbours) + (if old(g.cells[x, y].state) then -1 else 1)
          else old(g.cells[i, j].neighbours)
      {
        assert old(g.cells[i, j].neighbours) == Life.Neighbours(b, n, i, j);
        Life.FlipNeighbours(b, n, x, y, i, j);
      }
    }
  }

  /**
    One generation as the loop runs it: the update pass on the cached counts,
    then a fresh count, then one fewer generation left. With the counts up to
    date beforehand this is the synchronous Life step, and the counts are up
    to date afterwards.
  */
  method Generation(g: Grid)
    requires Ready(g)
    modifies g, g.cells
    ensures g.cells == old(g.cells) && Ready(g)
    ensures g.States() == Life.Step(old(g.States()), g.dimension)
    ensures WorldOf(g) == Advance(old(WorldOf(g)))
  {
    g.UpdateGrid();
    g.CountNeighbours();
    g.lifetime := g.lifetime - 1;
  }

  /** Seeds again when no generation is left, then again when reset is pressed. */
  method RestartGrid(g: Grid, reset: bool, useRandom: bool, draw: (int, int) -> bool)
    requires Ready(g)
    modifies g
    ensures Ready(g) && (g.cells == old(g.cells) || fresh(g.cells))
    ensures WorldOf(g) == Restart(old(WorldOf(g)), reset, Life.Seed(GridDimension, useRandom, draw))
  {
    if g.lifetime <= 0 {
      Reseed(g, useRandom, draw);
    }
    if reset {
      Reseed(g, useRandom, draw);
    }
  }

  /** Flips the pause flag when pause is pressed, then toggles the clicked cell. */
  method RespondGrid(g: Grid, ev: Input)
    requires Ready(g) && ClickOnGrid(ev)
    modifies g, g.cells
    ensures Ready(g) && g.cells == old(g.cells)
    ensures WorldOf(g) == Respond(old(WorldOf(g)), ev)
  {
    ghost var w := WorldOf(g);
    if ev.pause {
      g.paused := !g.paused;
    }
    ghost var toggled := WorldOf(g);
    assert toggled == if ev.pause then w.(paused := !w.paused) else w;
    if ev.click.Some? {
      ToggleCell(g, ev.click.value.0, ev.click.value.1);
      assert WorldOf(g) == toggled.(board := Life.Flip(toggled.board, GridDimension, ev.click.value.0, ev.click.value.1));
    }
  }

  /** Advances once when paused and stepping, then once more when running. */
  method RunGrid(g: Grid, step: bool)
    requires Ready(g)
    modifies g, g.cells
    ensures Ready(g) && g.cells == old(g.cells)
    ensures WorldOf(g) == Run(old(WorldOf(g)), step)
  {
    if g.paused && step {
      Generation(g);
    }
    if !g.paused {
      Generation(g);
    }
  }

  /**
    One pass of the main loop with its input given as a value; seeding draws
    from draw. Returns false when the loop stops. The grid stays ready and
    its world follows FrameSpec.
  */
  method Frame(g: Grid, ev: Input, useRandom: bool, draw: (int, int) -> bool) returns (running: bool)
    requires Ready(g) && (!ev.quit ==> ClickOnGrid(ev))
    modifies g, g.cells
    ensures Ready(g) && (g.cells == old(g.cells) || fresh(g.cells))
    ensures (WorldOf(g), running) == FrameSpec(old(WorldOf(g)), ev, Life.Seed(GridDimension, useRandom, draw))
  {
    RestartGrid(g, ev.reset, useRandom, draw);
    if ev.quit {
      return false;
    }
    RespondGrid(g, ev);
    RunGrid(g, ev.step);
    running := true;
  }

  /** The boards seeded by the passes: the k-th pass draws from draws[k + 1]. */
  function PassSeeds(useRandom: bool, draws: seq<(int, int) -> bool>): (r: seq<Life.Board>)
    requires |draws| >= 1
    ensures |r| == |draws| - 1 && SquareSeeds(r)
    ensures forall k :: 0 <= k < |r| ==> r[k] == Life.Seed(GridDimension, useRandom, draws[k + 1])
  {
    seq(|draws| - 1, k requires 0 <= k < |draws| - 1 => Life.Seed(GridDimension, useRandom, draws[k + 1]))
  }

  /** One more pass of Replay: the pass on w, then the rest unless it quit. */
  lemma ReplayStep(w: World, evs: seq<Input>, seeds: seq<Life.Board>, k: nat)
    requires Life.IsSquare(w.board, GridDimension) && Playable(evs) && |seeds| == |evs| && SquareSeeds(seeds)
    requires k < |evs|
    ensures
      var (next, running) := FrameSpec(w, evs[k], seeds[k]);
      Life.IsSquare(next.board, GridDimension) &&
      Replay(w, evs, seeds, k) == if running then Replay(next, evs, seeds, k + 1) else next
  {
    FrameBoardSquare(w, evs[k], seeds[k]);
  }

  /**
    The program: start the grid, then run one pass per input until a pass
    quits or the inputs run out. draws[0] seeds the start and draws[k + 1]
    is the random source of the k-th pass. The grid ends ready and its world
    is the Replay of the inputs from the freshly seeded world.
  */
  method MainLoop(useRandom: bool, draws: seq<(int, int) -> bool>, evs: seq<Input>) returns (g: Grid)
    requires |draws| == |evs| + 1 && Playable(evs)
    ensures Ready(g)
    ensures WorldOf(g) == Replay(Reseeded(Life.Seed(GridDimension, useRandom, draws[0])), evs, PassSeeds(useRandom, draws), 0)
  {
    ghost var seeds := PassSeeds(useRandom, draws);
    g := Start(useRandom, draws[0]);
    ghost var start := WorldOf(g);
    var k := 0;
    var running := true;
    while k < |evs| && running
      invariant 0 <= k <= |evs|
      invariant fresh(g) && fresh(g.cells) && Ready(g)
      invariant Replay(start, evs, seeds, 0) == if running then Replay(WorldOf(g), evs, seeds, k) else WorldOf(g)
      decreases |evs| - k
    {
      ReplayStep(WorldOf(g), evs, seeds, k);
      running := Frame(g, evs[k], useRandom, draws[k + 1]);
      k := k + 1;
    }
  }
}
