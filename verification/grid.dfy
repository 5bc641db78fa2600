/**
  The simulation state: a square grid of cells updated in place by two full
  passes per generation, one that caches every cell's neighbour count and one
  that applies the Life rule to the cached counts.
*/
module Game {
  import Life

  /** Side of the grid. */
  const GridDimension: nat := 100
  /** Generations to run before the grid is seeded again. */
  const GridLifeTime: int := 10000
  /** Whether a freshly seeded grid starts paused. */
  const StartPaused: bool := true

  /** One grid position: its coordinates, whether it is alive, and its last computed neighbour count. */
  datatype Cell = Cell(x: int, y: int, state: bool, neighbours: int)

  class Grid {
    var cells: array2<Cell>
    var dimension: nat
    var lifetime: int
    var paused: bool

    /** The array is dimension x dimension and every cell records its own position. */
    ghost predicate Valid()
      reads this`cells, this`dimension, cells
    {
      cells.Length0 == dimension && cells.Length1 == dimension &&
      forall i, j :: 0 <= i < dimension && 0 <= j < dimension ==> cells[i, j].x == i && cells[i, j].y == j
    }

    /** The alive/dead states, as a board. */
    ghost function States(): (b: Life.Board)
      reads this`cells, this`dimension, cells
      requires Valid()
      ensures Life.IsSquare(b, dimension)
      ensures forall i, j :: 0 <= i < dimension && 0 <= j < dimension ==> b[i][j] == cells[i, j].state
    {
      var a := cells;
      seq(a.Length0, i requires 0 <= i < a.Length0 reads a =>
        seq(a.Length1, j requires 0 <= j < a.Length1 reads a => a[i, j].state))
    }

    /** Every cached count is the reference count of the current states. */
    ghost predicate Counted()
      reads this`cells, this`dimension, cells
      requires Valid()
    {
      forall i, j :: 0 <= i < dimension && 0 <= j < dimension ==>
        cells[i, j].neighbours == Life.Neighbours(States(), dimension, i, j)
    }

    /** A zero-valued grid with no cells, as allocated before it is first seeded. */
    constructor ()
      ensures Valid() && Counted()
      ensures dimension == 0 && lifetime == 0 && !paused
    {
      cells := new Cell[0, 0];
      dimension := 0;
      lifetime := 0;
      paused := false;
    }

    /**
      Allocates a fresh GridDimension x GridDimension array, stamps each cell
      with its coordinates and seeds its state (draw(i, j) when seeding is
      random, dead otherwise), and resets the lifetime and the pause flag.
      Counts are left at zero, the value a fresh cell has.
    */
    method InitGrid(useRandom: bool, draw: (int, int) -> bool)
      modifies this
      ensures Valid() && fresh(cells)
      ensures dimension == GridDimension && lifetime == GridLifeTime && paused == StartPaused
      ensures forall i, j :: 0 <= i < dimension && 0 <= j < dimension ==>
        cells[i, j] == Cell(i, j, useRandom && draw(i, j), 0)
      ensures States() == Life.Seed(dimension, useRandom, draw)
    {
      var n := GridDimension;
      dimension := n;
      lifetime := GridLifeTime;
      paused := StartPaused;
      var a := new Cell[n, n]((_, _) => Cell(0, 0, false, 0));
      for i := 0 to n
        modifies a
        invariant forall p, q :: 0 <= p < i && 0 <= q < n ==> a[p, q] == Cell(p, q, useRandom && draw(p, q), 0)
        invariant forall p, q :: i <= p < n && 0 <= q < n ==> a[p, q] == Cell(0, 0, false, 0)
      {
        for j := 0 to n
          modifies a
          invariant forall p, q :: 0 <= p < i && 0 <= q < n ==> a[p, q] == Cell(p, q, useRandom && draw(p, q), 0)
          invariant forall q :: 0 <= q < j ==> a[i, q] == Cell(i, q, useRandom && draw(i, q), 0)
          invariant forall p, q :: i <= p < n && 0 <= q < n && (p != i || j <= q) ==> a[p, q] == Cell(0, 0, false, 0)
        {
          a[i, j] := a[i, j].(x := i, y := j);
          if useRandom {
            a[i, j] := a[i, j].(state := draw(i, j));
          } else {
            a[i, j] := a[i, j].(state := false);
          }
        }
      }
      cells := a;
      Life.BoardExt(States(), Life.Seed(dimension, useRandom, draw), dimension);
    }

    /**
      One full counting pass. Each cell's count is the scan of its clipped
      3x3 window minus itself, which is the reference count of the states
      before the pass; states and coordinates are left as they were.
    */
    method CountNeighbours()
      requires Valid()
      modifies cells
      ensures Valid() && Counted()
      ensures States() == old(States())
      ensures forall i, j :: 0 <= i < dimension && 0 <= j < dimension ==>
        cells[i, j] == old(cells[i, j]).(neighbours := Life.Neighbours(old(States()), dimension, i, j))
    {
      ghost var b := States();
      var n := dimension;
      for i := 0 to n
        invariant Valid()
        invariant forall p, q :: 0 <= p < n && 0 <= q < n ==>
          cells[p, q] == if p < i then old(cells[p, q]).(neighbours := Life.Neighbours(b, n, p, q)) else old(cells[p, q])
      {
        CountRow(b, i);
      }
      Life.BoardExt(States(), b, n);
    }

    /** The counting pass over row i: each of its cells gets the reference count of b; no other cell is written. */
    method CountRow(ghost b: Life.Board, i: int)
      requires Valid() && Life.IsSquare(b, dimension) && 0 <= i < dimension
      requires forall p, q :: 0 <= p < dimension && 0 <= q < dimension ==> cells[p, q].state == b[p][q]
      modifies cells
      ensures forall p, q :: 0 <= p < dimension && 0 <= q < dimension ==>
        cells[p, q] == if p == i then old(cells[p, q]).(neighbours := Life.Neighbours(b, dimension, p, q)) else old(cells[p, q])
    {
      var n := dimension;
      for j := 0 to n
        invariant forall q :: 0 <= q < n ==>
          cells[i, q] == if q < j then old(cells[i, q]).(neighbours := Life.Neighbours(b, n, i, q)) else old(cells[i, q])
        invariant forall p, q :: 0 <= p < n && 0 <= q < n && p != i ==> cells[p, q] == old(cells[p, q])
      {
        var live := CountWindow(b, i, j);
        if cells[i, j].state {
          live := live - 1;
        }
        Life.WindowScanExcludesSelf(b, n, i, j);
        cells[i, j] := cells[i, j].(neighbours := live);
      }
    }

    /** The scan of one 3x3 window: live cells at the on-grid positions around (i, j), (i, j) included. */
    method CountWindow(ghost b: Life.Board, i: int, j: int) returns (live: int)
      requires Valid() && Life.IsSquare(b, dimension) && Life.InBounds(dimension, i, j)
      requires forall p, q :: 0 <= p < dimension && 0 <= q < dimension ==> cells[p, q].state == b[p][q]
      ensures live == Life.BlockSum(b, dimension, i - 1, i + 2, j - 1, j + 2)
    {
      live := 0;
      for x := i - 1 to i + 2
        invariant live == Life.BlockSum(b, dimension, i - 1, x, j - 1, j + 2)
      {
        for y := j - 1 to j + 2
          invariant live == Life.BlockSum(b, dimension, i - 1, x, j - 1, j + 2) + Life.RowSum(b, dimension, x, j - 1, y)
        {
          if x >= 0 && x < dimension && y >= 0 && y < dimension {
            if cells[x, y].state {
              live := live + 1;
            }
          }
        }
      }
    }

    /**
      One full update pass. Each cell's new state is the Life rule applied to
      its own state and cached count from before the pass; counts and
      coordinates are not written. When the counts were up to date this is
      one synchronous generation.
    */
    method UpdateGrid()
      requires Valid()
      modifies cells
      ensures Valid()
      ensures forall i, j :: 0 <= i < dimension && 0 <= j < dimension ==>
        cells[i, j] == old(cells[i, j]).(state := Life.NextState(old(cells[i, j].state), old(cells[i, j].neighbours)))
      ensures old(Counted()) ==> States() == Life.Step(old(States()), dimension)
    {
      var n := dimension;
      for i := 0 to n
        invariant forall p, q :: 0 <= p < i && 0 <= q < n ==>
          cells[p, q] == old(cells[p, q]).(state := Life.NextState(old(cells[p, q].state), old(cells[p, q].neighbours)))
        invariant forall p, q :: i <= p < n && 0 <= q < n ==> cells[p, q] == old(cells[p, q])
      {
        for j := 0 to n
          invariant forall p, q :: 0 <= p < i && 0 <= q < n ==>
            cells[p, q] == old(cells[p, q]).(state := Life.NextState(old(cells[p, q].state), old(cells[p, q].neighbours)))
          invariant forall q :: 0 <= q < j ==>
            cells[i, q] == old(cells[i, q]).(state := Life.NextState(old(cells[i, q].state), old(cells[i, q].neighbours)))
          invariant forall p, q :: i <= p < n && 0 <= q < n && (p != i || j <= q) ==> cells[p, q] == old(cells[p, q])
        {
          var curr := cells[i, j];
          if curr.state {
            if curr.neighbours < 2 || curr.neighbours > 3 {
              cells[i, j] := cells[i, j].(state := false);
            } else if curr.neighbours == 3 || curr.neighbours == 2 {
              cells[i, j] := cells[i, j].(state := true);
            }
          } else if curr.neighbours == 3 {
            cells[i, j] := cells[i, j].(state := true);
          }
        }
      }
      if old(Counted()) {
        Life.BoardExt(States(), Life.Step(old(States()), n), n);
      }
    }
  }
}
