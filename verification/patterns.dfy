/**
  Well-known configurations and what one generation does to them, on a
  clipped board of any size that holds them.
*/
module Patterns {
  import opened Life

  /** The live cells of b are exactly the positions in live. */
  predicate Exactly(b: Board, n: nat, live: set<(int, int)>) {
    IsSquare(b, n) && forall i, j :: 0 <= i < n && 0 <= j < n ==> (b[i][j] <==> (i, j) in live)
  }

  /** On a board with no live cell every count is zero and a generation changes nothing. */
  lemma DeadBoardIsStill(b: Board, n: nat)
    requires IsSquare(b, n) && AllDead(b, n)
    ensures forall i, j :: 0 <= i < n && 0 <= j < n ==> Neighbours(b, n, i, j) == 0
    ensures Step(b, n) == b
  {
    forall i, j | 0 <= i < n && 0 <= j < n ensures Neighbours(b, n, i, j) == 0 {
      NeighboursExpanded(b, n, i, j);
    }
    BoardExt(Step(b, n), b, n);
  }

  /** Seeding without randomness gives a board with no live cell. */
  lemma SeedWithoutRandomIsDead(n: nat, draw: (int, int) -> bool)
    ensures AllDead(Seed(n, false, draw), n)
  {
  }

  /** A live cell none of whose neighbours is alive dies of underpopulation. */
  lemma IsolatedCellDies(b: Board, n: nat, i: int, j: int)
    requires IsSquare(b, n) && InBounds(n, i, j) && b[i][j]
    requires forall x, y :: InBounds(n, x, y) && Adjacent(i, j, x, y) ==> !b[x][y]
    ensures Neighbours(b, n, i, j) == 0
    ensures !Step(b, n)[i][j]
  {
    NeighboursCountsLiveNeighbourSet(b, n, i, j);
    assert LiveNeighbourSet(b, n, i, j) == {};
  }

  /** A single live cell in the corner (0, 0) sees no neighbour: nothing off the board is counted. */
  lemma LoneCornerCell(b: Board, n: nat)
    requires n >= 1 && Exactly(b, n, {(0, 0)})
    ensures Neighbours(b, n, 0, 0) == 0
    ensures AllDead(Step(b, n), n)
  {
    forall i, j | 0 <= i < n && 0 <= j < n ensures !Step(b, n)[i][j] {
      LoneCornerCounts(b, n, i, j);
      StepAt(b, n, i, j);
    }
    LoneCornerCounts(b, n, 0, 0);
  }

  /** Around a single live cell at (0, 0), the corner itself counts no neighbour and every other cell at most one. */
  lemma LoneCornerCounts(b: Board, n: nat, i: int, j: int)
    requires n >= 1 && Exactly(b, n, {(0, 0)}) && InBounds(n, i, j)
    ensures Neighbours(b, n, i, j) <= 1
    ensures (i, j) == (0, 0) ==> Neighbours(b, n, i, j) == 0
  {
    forall x, y ensures LiveAt(b, n, x, y) == if (x, y) == (0, 0) then 1 else 0 {
      ExactlyLiveAt(b, n, {(0, 0)}, x, y);
    }
    NeighboursExpanded(b, n, i, j);
  }

  /** On a board holding only the live positions in live, a position counts as live exactly when it is in live. */
  lemma ExactlyLiveAt(b: Board, n: nat, live: set<(int, int)>, x: int, y: int)
    requires Exactly(b, n, live)
    requires forall p :: p in live ==> InBounds(n, p.0, p.1)
    ensures LiveAt(b, n, x, y) == if (x, y) in live then 1 else 0
  {
  }

  /** The 2x2 block whose top-left cell is (r, c). */
  function Block(r: int, c: int): set<(int, int)> {
    {(r, c), (r, c + 1), (r + 1, c), (r + 1, c + 1)}
  }

  /** An isolated block is a still life: each of its cells has three neighbours, no other cell three. */
  lemma BlockIsStill(b: Board, n: nat, r: int, c: int)
    requires 0 <= r && r + 1 < n && 0 <= c && c + 1 < n
    requires Exactly(b, n, Block(r, c))
    ensures Step(b, n) == b
  {
    forall i, j | 0 <= i < n && 0 <= j < n ensures Step(b, n)[i][j] == b[i][j] {
      BlockCellNext(b, n, r, c, i, j);
    }
    BoardExt(Step(b, n), b, n);
  }

  /** Around an isolated block, each cell of the block has three neighbours and every other cell at most two. */
  lemma BlockCounts(b: Board, n: nat, r: int, c: int, i: int, j: int)
    requires 0 <= r && r + 1 < n && 0 <= c && c + 1 < n
    requires Exactly(b, n, Block(r, c)) && InBounds(n, i, j)
    ensures (i, j) in Block(r, c) ==> Neighbours(b, n, i, j) == 3
    ensures (i, j) !in Block(r, c) ==> Neighbours(b, n, i, j) <= 2
  {
    forall x, y ensures LiveAt(b, n, x, y) == if (x, y) in Block(r, c) then 1 else 0 {
      ExactlyLiveAt(b, n, Block(r, c), x, y);
    }
    NeighboursExpanded(b, n, i, j);
  }

  /** Every cell around an isolated block keeps its state for one generation. */
  lemma BlockCellNext(b: Board, n: nat, r: int, c: int, i: int, j: int)
    requires 0 <= r && r + 1 < n && 0 <= c && c + 1 < n
    requires Exactly(b, n, Block(r, c)) && InBounds(n, i, j)
    ensures Step(b, n)[i][j] == b[i][j]
  {
    BlockCounts(b, n, r, c, i, j);
    StepAt(b, n, i, j);
  }

  /** An isolated block stays as it is for any number of generations. */
  lemma {:induction false} BlockForever(b: Board, n: nat, r: int, c: int, k: nat)
    requires 0 <= r && r + 1 < n && 0 <= c && c + 1 < n
    requires Exactly(b, n, Block(r, c))
    ensures StepN(b, n, k) == b
  {
    if k > 0 {
      BlockForever(b, n, r, c, k - 1);
      BlockIsStill(b, n, r, c);
    }
  }

  /**
    Three cells sharing the first index: (r, c), (r, c + 1), (r, c + 2). The
    program draws the first index as the horizontal position, so on its screen
    this is a vertical line.
  */
  function Vertical(r: int, c: int): set<(int, int)> {
    {(r, c), (r, c + 1), (r, c + 2)}
  }

  /** Three cells sharing the second index, through the middle of Vertical(r, c): a horizontal line on screen. */
  function Horizontal(r: int, c: int): set<(int, int)> {
    {(r - 1, c + 1), (r, c + 1), (r + 1, c + 1)}
  }

  /** The blinker fits on the board when both of its phases do. */
  predicate BlinkerFits(n: nat, r: int, c: int) {
    1 <= r && r + 1 < n && 0 <= c && c + 2 < n
  }

  /** The counts around a lone vertical blinker. */
  lemma VerticalCounts(b: Board, n: nat, r: int, c: int, i: int, j: int)
    requires BlinkerFits(n, r, c) && Exactly(b, n, Vertical(r, c)) && InBounds(n, i, j)
    ensures (i, j) in Horizontal(r, c) ==> Neighbours(b, n, i, j) == if i == r then 2 else 3
    ensures (i, j) in Vertical(r, c) - Horizontal(r, c) ==> Neighbours(b, n, i, j) == 1
    ensures (i, j) !in Horizontal(r, c) + Vertical(r, c) ==> Neighbours(b, n, i, j) <= 2
  {
    forall x, y ensures LiveAt(b, n, x, y) == if (x, y) in Vertical(r, c) then 1 else 0 {
      ExactlyLiveAt(b, n, Vertical(r, c), x, y);
    }
    NeighboursExpanded(b, n, i, j);
  }

  /** The counts around a lone horizontal blinker. */
  lemma HorizontalCounts(b: Board, n: nat, r: int, c: int, i: int, j: int)
    requires BlinkerFits(n, r, c) && Exactly(b, n, Horizontal(r, c)) && InBounds(n, i, j)
    ensures (i, j) in Vertical(r, c) ==> Neighbours(b, n, i, j) == if j == c + 1 then 2 else 3
    ensures (i, j) in Horizontal(r, c) - Vertical(r, c) ==> Neighbours(b, n, i, j) == 1
    ensures (i, j) !in Horizontal(r, c) + Vertical(r, c) ==> Neighbours(b, n, i, j) <= 2
  {
    forall x, y ensures LiveAt(b, n, x, y) == if (x, y) in Horizontal(r, c) then 1 else 0 {
      ExactlyLiveAt(b, n, Horizontal(r, c), x, y);
    }
    NeighboursExpanded(b, n, i, j);
  }

  /** Next to a lone vertical blinker, a cell is alive in the next generation exactly when it is on the horizontal phase. */
  lemma VerticalCellNext(b: Board, n: nat, r: int, c: int, i: int, j: int)
    requires BlinkerFits(n, r, c) && Exactly(b, n, Vertical(r, c)) && InBounds(n, i, j)
    ensures Step(b, n)[i][j] <==> (i, j) in Horizontal(r, c)
  {
    VerticalCounts(b, n, r, c, i, j);
    StepAt(b, n, i, j);
  }

  /** Next to a lone horizontal blinker, a cell is alive in the next generation exactly when it is on the vertical phase. */
  lemma HorizontalCellNext(b: Board, n: nat, r: int, c: int, i: int, j: int)
    requires BlinkerFits(n, r, c) && Exactly(b, n, Horizontal(r, c)) && InBounds(n, i, j)
    ensures Step(b, n)[i][j] <==> (i, j) in Vertical(r, c)
  {
    HorizontalCounts(b, n, r, c, i, j);
    StepAt(b, n, i, j);
  }

  /** With room on the board for both phases, a lone vertical blinker turns horizontal in one generation. */
  lemma VerticalTurnsHorizontal(b: Board, n: nat, r: int, c: int)
    requires BlinkerFits(n, r, c) && Exactly(b, n, Vertical(r, c))
    ensures Exactly(Step(b, n), n, Horizontal(r, c))
  {
    forall i, j | 0 <= i < n && 0 <= j < n ensures Step(b, n)[i][j] <==> (i, j) in Horizontal(r, c) {
      VerticalCellNext(b, n, r, c, i, j);
    }
  }

  /** With room on the board for both phases, a lone horizontal blinker turns vertical in one generation. */
  lemma HorizontalTurnsVertical(b: Board, n: nat, r: int, c: int)
    requires BlinkerFits(n, r, c) && Exactly(b, n, Horizontal(r, c))
    ensures Exactly(Step(b, n), n, Vertical(r, c))
  {
    forall i, j | 0 <= i < n && 0 <= j < n ensures Step(b, n)[i][j] <==> (i, j) in Vertical(r, c) {
      HorizontalCellNext(b, n, r, c, i, j);
    }
  }

  /** Two boards with exactly the same live positions are equal. */
  lemma ExactlySame(a: Board, b: Board, n: nat, live: set<(int, int)>)
    requires Exactly(a, n, live) && Exactly(b, n, live)
    ensures a == b
  {
    BoardExt(a, b, n);
  }

  /** The two phases of a blinker are different boards. */
  lemma PhasesDiffer(h: Board, v: Board, n: nat, r: int, c: int)
    requires BlinkerFits(n, r, c) && Exactly(h, n, Vertical(r, c)) && Exactly(v, n, Horizontal(r, c))
    ensures h != v
  {
    assert h[r][c] && !v[r][c];
  }

  /** With room on the board for both phases, the blinker is an oscillator of period two: it changes after one generation and is back after two. */
  lemma BlinkerPeriodTwo(b: Board, n: nat, r: int, c: int)
    requires BlinkerFits(n, r, c) && Exactly(b, n, Vertical(r, c))
    ensures Step(b, n) != b
    ensures StepN(b, n, 2) == b
  {
    VerticalTurnsHorizontal(b, n, r, c);
    PhasesDiffer(b, Step(b, n), n, r, c);
    HorizontalTurnsVertical(Step(b, n), n, r, c);
    ExactlySame(Step(Step(b, n), n), b, n, Vertical(r, c));
    assert StepN(b, n, 1) == Step(b, n);
  }
}
