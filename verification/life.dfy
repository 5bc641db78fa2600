/**
  The rules of Conway's Game of Life on a square board of side n whose
  borders clip the neighbourhood (there is no wraparound).

  A board is indexed board[x][y] as the program's cells are: the first index
  is the horizontal screen position, the second the vertical one; `true` is a
  live cell. Everything here is a specification: the Grid class in module
  Game is proved against it.
*/
module Life {

  type Board = seq<seq<bool>>

  /** b has exactly n columns of n cells each. */
  predicate IsSquare(b: Board, n: nat) {
    |b| == n && forall i :: 0 <= i < |b| ==> |b[i]| == n
  }

  predicate InBounds(n: nat, x: int, y: int) {
    0 <= x < n && 0 <= y < n
  }

  /** 1 for a live cell inside the board, 0 for a dead one or a position off the board. */
  function LiveAt(b: Board, n: nat, x: int, y: int): nat
    requires IsSquare(b, n)
  {
    if InBounds(n, x, y) && b[x][y] then 1 else 0
  }

  /** (x, y) is one of the eight positions of the Moore neighbourhood of (i, j). */
  predicate Adjacent(i: int, j: int, x: int, y: int) {
    (x, y) != (i, j) && i - 1 <= x <= i + 1 && j - 1 <= y <= j + 1
  }

  /** Live on-board cells among the positions ps, counted one position at a time. */
  function LiveCount(b: Board, n: nat, ps: seq<(int, int)>): nat
    requires IsSquare(b, n)
  {
    if ps == [] then 0 else LiveCount(b, n, ps[..|ps| - 1]) + LiveAt(b, n, ps[|ps| - 1].0, ps[|ps| - 1].1)
  }

  /** The live on-board positions among ps. */
  function LiveSet(b: Board, n: nat, ps: seq<(int, int)>): set<(int, int)>
    requires IsSquare(b, n)
  {
    set p | p in ps && InBounds(n, p.0, p.1) && b[p.0][p.1]
  }

  /** No position occurs twice in ps. */
  predicate Distinct(ps: seq<(int, int)>) {
    forall k, m :: 0 <= k < m < |ps| ==> ps[k] != ps[m]
  }

  /** For distinct positions the count is the size of the set of live ones. */
  lemma {:induction false} LiveSetSize(b: Board, n: nat, ps: seq<(int, int)>)
    requires IsSquare(b, n) && Distinct(ps)
    ensures |LiveSet(b, n, ps)| == LiveCount(b, n, ps)
  {
    if ps != [] {
      var front, p := ps[..|ps| - 1], ps[|ps| - 1];
      LiveSetSize(b, n, front);
      assert p !in front;
      if InBounds(n, p.0, p.1) && b[p.0][p.1] {
        assert LiveSet(b, n, ps) == LiveSet(b, n, front) + {p};
      } else {
        assert LiveSet(b, n, ps) == LiveSet(b, n, front);
      }
    }
  }

  /** The eight positions around (i, j), in the order of the source's scan. */
  function Ring(i: int, j: int): seq<(int, int)> {
    [(i - 1, j - 1), (i - 1, j), (i - 1, j + 1), (i, j - 1), (i, j + 1), (i + 1, j - 1), (i + 1, j), (i + 1, j + 1)]
  }

  /** At most one live cell per position. */
  lemma {:induction false} LiveCountBound(b: Board, n: nat, ps: seq<(int, int)>)
    requires IsSquare(b, n)
    ensures LiveCount(b, n, ps) <= |ps|
  {
    if ps != [] {
      LiveCountBound(b, n, ps[..|ps| - 1]);
    }
  }

  /**
    The reference count: live cells among the eight positions around (i, j)
    that lie on the board. The cell itself is not one of the positions.
  */
  function Neighbours(b: Board, n: nat, i: int, j: int): (r: int)
    requires IsSquare(b, n)
    ensures 0 <= r <= 8
  {
    LiveCountBound(b, n, Ring(i, j));
    LiveCount(b, n, Ring(i, j))
  }

  /** The reference count, written out as its eight terms. */
  lemma NeighboursExpanded(b: Board, n: nat, i: int, j: int)
    requires IsSquare(b, n)
    ensures Neighbours(b, n, i, j) ==
      LiveAt(b, n, i - 1, j - 1) + LiveAt(b, n, i - 1, j) + LiveAt(b, n, i - 1, j + 1) +
      LiveAt(b, n, i, j - 1) + LiveAt(b, n, i, j + 1) +
      LiveAt(b, n, i + 1, j - 1) + LiveAt(b, n, i + 1, j) + LiveAt(b, n, i + 1, j + 1)
  {
    var r := Ring(i, j);
    assert r[..7] == r[..|r| - 1];
    assert LiveCount(b, n, r) == LiveCount(b, n, r[..7]) + LiveAt(b, n, i + 1, j + 1);
    assert r[..7][..6] == r[..6];
    assert LiveCount(b, n, r[..7]) == LiveCount(b, n, r[..6]) + LiveAt(b, n, i + 1, j);
    assert r[..6][..5] == r[..5];
    assert LiveCount(b, n, r[..6]) == LiveCount(b, n, r[..5]) + LiveAt(b, n, i + 1, j - 1);
    assert r[..5][..4] == r[..4];
    assert LiveCount(b, n, r[..5]) == LiveCount(b, n, r[..4]) + LiveAt(b, n, i, j + 1);
    assert r[..4][..3] == r[..3];
    assert LiveCount(b, n, r[..4]) == LiveCount(b, n, r[..3]) + LiveAt(b, n, i, j - 1);
    assert r[..3][..2] == r[..2];
    assert LiveCount(b, n, r[..3]) == LiveCount(b, n, r[..2]) + LiveAt(b, n, i - 1, j + 1);
    assert r[..2][..1] == r[..1];
    assert LiveCount(b, n, r[..2]) == LiveCount(b, n, r[..1]) + LiveAt(b, n, i - 1, j);
    assert r[..1][..0] == r[..0];
    assert LiveCount(b, n, r[..1]) == LiveCount(b, n, r[..0]) + LiveAt(b, n, i - 1, j - 1);
  }

  /** Live cells at (x, lo), ..., (x, hi - 1): one pass of the scan's inner loop. */
  function RowSum(b: Board, n: nat, x: int, lo: int, hi: int): (r: nat)
    requires IsSquare(b, n)
    decreases hi - lo
  {
    if hi <= lo then 0 else RowSum(b, n, x, lo, hi - 1) + LiveAt(b, n, x, hi - 1)
  }

  /** Live cells at first index lo .. hi - 1 and second index ylo .. yhi - 1, first index outermost. */
  function BlockSum(b: Board, n: nat, lo: int, hi: int, ylo: int, yhi: int): (r: nat)
    requires IsSquare(b, n)
    decreases hi - lo
  {
    if hi <= lo then 0 else BlockSum(b, n, lo, hi - 1, ylo, yhi) + RowSum(b, n, hi - 1, ylo, yhi)
  }

  /**
    What the source's scan computes: every on-board cell of the 3x3 window
    centred on (i, j), the centre included, minus one when the centre is alive.
    This is the reference count, and a cell's own state never enters it.
  */
  lemma WindowScanExcludesSelf(b: Board, n: nat, i: int, j: int)
    requires IsSquare(b, n) && InBounds(n, i, j)
    ensures BlockSum(b, n, i - 1, i + 2, j - 1, j + 2) - (if b[i][j] then 1 else 0) == Neighbours(b, n, i, j)
  {
    forall x | i - 1 <= x <= i + 1
      ensures RowSum(b, n, x, j - 1, j + 2) == LiveAt(b, n, x, j - 1) + LiveAt(b, n, x, j) + LiveAt(b, n, x, j + 1)
    {
      assert RowSum(b, n, x, j - 1, j + 1) == RowSum(b, n, x, j - 1, j) + LiveAt(b, n, x, j);
    }
    assert BlockSum(b, n, i - 1, i, j - 1, j + 2) == RowSum(b, n, i - 1, j - 1, j + 2);
    assert BlockSum(b, n, i - 1, i + 1, j - 1, j + 2) ==
      BlockSum(b, n, i - 1, i, j - 1, j + 2) + RowSum(b, n, i, j - 1, j + 2);
    assert BlockSum(b, n, i - 1, i + 2, j - 1, j + 2) ==
      BlockSum(b, n, i - 1, i + 1, j - 1, j + 2) + RowSum(b, n, i + 1, j - 1, j + 2);
    assert LiveAt(b, n, i, j) == (if b[i][j] then 1 else 0);
    NeighboursExpanded(b, n, i, j);
  }

  /** The live on-board positions adjacent to (i, j). */
  function LiveNeighbourSet(b: Board, n: nat, i: int, j: int): set<(int, int)>
    requires IsSquare(b, n)
  {
    set x, y | i - 1 <= x <= i + 1 && j - 1 <= y <= j + 1 && Adjacent(i, j, x, y) && InBounds(n, x, y) && b[x][y] :: (x, y)
  }

  /** The reference count is the number of live on-board positions around (i, j). */
  lemma NeighboursCountsLiveNeighbourSet(b: Board, n: nat, i: int, j: int)
    requires IsSquare(b, n)
    ensures Neighbours(b, n, i, j) == |LiveNeighbourSet(b, n, i, j)|
  {
    var r := Ring(i, j);
    LiveSetSize(b, n, r);
    assert LiveSet(b, n, r) == LiveNeighbourSet(b, n, i, j);
  }

  /** A cell on a corner has at most the three on-board neighbours; one on an edge at most five. */
  lemma BorderNeighbours(b: Board, n: nat, i: int, j: int)
    requires IsSquare(b, n) && InBounds(n, i, j)
    ensures (i == 0 || i == n - 1) && (j == 0 || j == n - 1) ==> Neighbours(b, n, i, j) <= 3
    ensures (i == 0 || i == n - 1 || j == 0 || j == n - 1) ==> Neighbours(b, n, i, j) <= 5
  {
    NeighboursExpanded(b, n, i, j);
  }

  /** The count of (i, j) depends only on the on-board cells adjacent to it. */
  lemma NeighboursLocal(a: Board, b: Board, n: nat, i: int, j: int)
    requires IsSquare(a, n) && IsSquare(b, n)
    requires forall x, y :: InBounds(n, x, y) && Adjacent(i, j, x, y) ==> a[x][y] == b[x][y]
    ensures Neighbours(a, n, i, j) == Neighbours(b, n, i, j)
  {
    assert LiveAt(a, n, i - 1, j - 1) == LiveAt(b, n, i - 1, j - 1);
    assert LiveAt(a, n, i - 1, j) == LiveAt(b, n, i - 1, j);
    assert LiveAt(a, n, i - 1, j + 1) == LiveAt(b, n, i - 1, j + 1);
    assert LiveAt(a, n, i, j - 1) == LiveAt(b, n, i, j - 1);
    assert LiveAt(a, n, i, j + 1) == LiveAt(b, n, i, j + 1);
    assert LiveAt(a, n, i + 1, j - 1) == LiveAt(b, n, i + 1, j - 1);
    assert LiveAt(a, n, i + 1, j) == LiveAt(b, n, i + 1, j);
    assert LiveAt(a, n, i + 1, j + 1) == LiveAt(b, n, i + 1, j + 1);
    NeighboursExpanded(a, n, i, j);
    NeighboursExpanded(b, n, i, j);
  }

  /**
    The Life rule for one cell, in the branch order of the source: a live
    cell dies below two or above three neighbours and lives on with two or
    three; a dead cell is born with exactly three. Any other case leaves the
    state as it was.
  */
  function NextState(alive: bool, k: int): (r: bool)
    ensures alive && (k < 2 || k > 3) ==> !r
    ensures alive && (k == 2 || k == 3) ==> r
    ensures !alive && k == 3 ==> r
    ensures !alive && k != 3 ==> !r
  {
    if alive then
      if k < 2 || k > 3 then false
      else if k == 3 || k == 2 then true
      else alive
    else if k == 3 then true
    else alive
  }

  /** One synchronous generation: every cell's next state is taken from the same board b. */
  function Step(b: Board, n: nat): (r: Board)
    requires IsSquare(b, n)
    ensures IsSquare(r, n)
  {
    seq(n, i requires 0 <= i < n => seq(n, j requires 0 <= j < n => NextState(b[i][j], Neighbours(b, n, i, j))))
  }

  /** The cell (i, j) of the next generation follows the rule from its state and its count on b. */
  lemma StepAt(b: Board, n: nat, i: int, j: int)
    requires IsSquare(b, n) && InBounds(n, i, j)
    ensures Step(b, n)[i][j] == NextState(b[i][j], Neighbours(b, n, i, j))
  {
  }

  /**
    The next state of (i, j) depends only on (i, j) and the on-board cells
    adjacent to it on the same board: no cell sees another cell's new state.
  */
  lemma StepLocal(a: Board, b: Board, n: nat, i: int, j: int)
    requires IsSquare(a, n) && IsSquare(b, n) && InBounds(n, i, j) && a[i][j] == b[i][j]
    requires forall x, y :: InBounds(n, x, y) && Adjacent(i, j, x, y) ==> a[x][y] == b[x][y]
    ensures Step(a, n)[i][j] == Step(b, n)[i][j]
  {
    NeighboursLocal(a, b, n, i, j);
  }

  /** k generations. */
  function StepN(b: Board, n: nat, k: nat): (r: Board)
    requires IsSquare(b, n)
    ensures IsSquare(r, n)
  {
    if k == 0 then b else Step(StepN(b, n, k - 1), n)
  }

  /** b with the state of (x, y) inverted. */
  function Flip(b: Board, n: nat, x: int, y: int): (r: Board)
    requires IsSquare(b, n) && InBounds(n, x, y)
    ensures IsSquare(r, n)
    ensures r[x][y] == !b[x][y]
    ensures forall i, j :: InBounds(n, i, j) && (i, j) != (x, y) ==> r[i][j] == b[i][j]
  {
    b[x := b[x][y := !b[x][y]]]
  }

  /**
    Inverting (x, y) moves the count of each of its on-board neighbours by
    one, up when the cell comes alive and down when it dies, and leaves every
    other count, its own included, as it was.
  */
  lemma FlipNeighbours(b: Board, n: nat, x: int, y: int, i: int, j: int)
    requires IsSquare(b, n) && InBounds(n, x, y) && InBounds(n, i, j)
    ensures Neighbours(Flip(b, n, x, y), n, i, j) ==
      if Adjacent(i, j, x, y) then Neighbours(b, n, i, j) + (if b[x][y] then -1 else 1)
      else Neighbours(b, n, i, j)
  {
    FlipLiveAt(b, n, x, y, i - 1, j - 1);
    FlipLiveAt(b, n, x, y, i - 1, j);
    FlipLiveAt(b, n, x, y, i - 1, j + 1);
    FlipLiveAt(b, n, x, y, i, j - 1);
    FlipLiveAt(b, n, x, y, i, j + 1);
    FlipLiveAt(b, n, x, y, i + 1, j - 1);
    FlipLiveAt(b, n, x, y, i + 1, j);
    FlipLiveAt(b, n, x, y, i + 1, j + 1);
    NeighboursExpanded(b, n, i, j);
    NeighboursExpanded(Flip(b, n, x, y), n, i, j);
  }

  /** Inverting (x, y) changes whether (p, q) counts as live exactly when (p, q) is (x, y). */
  lemma FlipLiveAt(b: Board, n: nat, x: int, y: int, p: int, q: int)
    requires IsSquare(b, n) && InBounds(n, x, y)
    ensures LiveAt(Flip(b, n, x, y), n, p, q) ==
      if (p, q) == (x, y) then 1 - LiveAt(b, n, p, q) else LiveAt(b, n, p, q)
  {
  }

  /** Inverting the same cell twice gives back the board. */
  lemma FlipTwice(b: Board, n: nat, x: int, y: int)
    requires IsSquare(b, n) && InBounds(n, x, y)
    ensures Flip(Flip(b, n, x, y), n, x, y) == b
  {
    BoardExt(Flip(Flip(b, n, x, y), n, x, y), b, n);
  }

  /** The board every cell of which is in the given state when seeding is random, dead otherwise. */
  function Seed(n: nat, useRandom: bool, draw: (int, int) -> bool): (r: Board)
    ensures IsSquare(r, n)
  {
    seq(n, i => seq(n, j => useRandom && draw(i, j)))
  }

  predicate AllDead(b: Board, n: nat)
    requires IsSquare(b, n)
  {
    forall i, j :: 0 <= i < n && 0 <= j < n ==> !b[i][j]
  }

  /** Two square boards with the same cells are equal. */
  lemma BoardExt(a: Board, b: Board, n: nat)
    requires IsSquare(a, n) && IsSquare(b, n)
    requires forall i, j :: InBounds(n, i, j) ==> a[i][j] == b[i][j]
    ensures a == b
  {
    forall i | 0 <= i < n ensures a[i] == b[i] {
      assert forall j :: 0 <= j < n ==> a[i][j] == b[i][j];
    }
  }
}
