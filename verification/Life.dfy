/**
 * The Game of Life rule on a square board with a fixed, non-wrapping border,
 * stated on values. This is the one specification that the three evaluators
 * (sequential, threaded, remote worker) are each proved against.
 *
 * A board holds the integers of the original numpy array; the value 1 is an
 * alive cell and every other value is dead, exactly as the rule code tests it.
 */
module Life {

  /** A board as rows of cells: `g[i][j]` is row `i`, column `j`. */
  type Grid = seq<seq<int>>

  /** The board is square: `|g|` rows of `|g|` cells each. */
  predicate IsGrid(g: Grid) {
    forall i :: 0 <= i < |g| ==> |g[i]| == |g|
  }

  /** Every cell is 0 (dead) or 1 (alive). */
  predicate IsBinary(g: Grid)
    requires IsGrid(g)
  {
    forall i, j :: 0 <= i < |g| && 0 <= j < |g| ==> g[i][j] == 0 || g[i][j] == 1
  }

  /** The value seen at (i, j): the cell itself on the board, 0 (dead) off it. */
  function Cell(g: Grid, i: int, j: int): int
    requires IsGrid(g)
  {
    if 0 <= i < |g| && 0 <= j < |g| then g[i][j] else 0
  }

  /** What offset (dx, dy) adds to the count of (i, j); the centre adds nothing. */
  function Contribution(g: Grid, i: int, j: int, dx: int, dy: int): int
    requires IsGrid(g)
  {
    if dx == 0 && dy == 0 then 0 else Cell(g, i + dx, j + dy)
  }

  /** The contributions of offsets (dx, -1), ..., (dx, yEnd - 1). */
  function RowSum(g: Grid, i: int, j: int, dx: int, yEnd: int): int
    requires IsGrid(g) && -1 <= yEnd <= 2
    decreases yEnd + 1
  {
    if yEnd == -1 then 0 else RowSum(g, i, j, dx, yEnd - 1) + Contribution(g, i, j, dx, yEnd - 1)
  }

  /** The contributions of every offset whose dx lies in -1 .. xEnd - 1 (row-major order). */
  function PartialCount(g: Grid, i: int, j: int, xEnd: int): int
    requires IsGrid(g) && -1 <= xEnd <= 2
    decreases xEnd + 1
  {
    if xEnd == -1 then 0 else PartialCount(g, i, j, xEnd - 1) + RowSum(g, i, j, xEnd - 1, 2)
  }

  /** The number of alive cells among the eight Moore neighbours of (i, j). */
  function CountNeighbours(g: Grid, i: int, j: int): int
    requires IsGrid(g)
  {
    PartialCount(g, i, j, 2)
  }

  /** The state of (i, j) in the next generation: survive on 2 or 3, birth on 3. */
  function NextCell(g: Grid, i: int, j: int): (v: int)
    requires IsGrid(g) && 0 <= i < |g| && 0 <= j < |g|
    ensures v == 0 || v == 1
  {
    var live := CountNeighbours(g, i, j);
    if g[i][j] == 1 then
      if live == 2 || live == 3 then 1 else 0
    else
      if live == 3 then 1 else 0
  }

  /** The next generation of the whole board. */
  function NextGen(g: Grid): (r: Grid)
    requires IsGrid(g)
    ensures IsGrid(r) && |r| == |g| && IsBinary(r)
  {
    seq(|g|, i requires 0 <= i < |g| => seq(|g|, j requires 0 <= j < |g| => NextCell(g, i, j)))
  }

  /** The board after `k` generations. */
  function Iterate(g: Grid, k: nat): (r: Grid)
    requires IsGrid(g)
    ensures IsGrid(r) && |r| == |g|
    decreases k
  {
    if k == 0 then g else NextGen(Iterate(g, k - 1))
  }

  /** How many times `for _ in range(k)` runs its body. */
  function RangeLength(k: int): nat {
    if k < 0 then 0 else k
  }

  /** The all-dead board of side `n`, as a freshly zeroed numpy array holds. */
  function Zeros(n: nat): (r: Grid)
    ensures IsGrid(r) && |r| == n && IsBinary(r)
    ensures forall i, j :: 0 <= i < n && 0 <= j < n ==> r[i][j] == 0
  {
    seq(n, i => seq(n, j => 0))
  }

  /** The contents of a 2-D array as a board value. */
  function ToGrid(a: array2<int>): (g: Grid)
    reads a
    ensures a.Length0 == a.Length1 ==> IsGrid(g) && |g| == a.Length0
  {
    seq(a.Length0, i requires 0 <= i < a.Length0 reads a =>
      seq(a.Length1, j requires 0 <= j < a.Length1 reads a => a[i, j]))
  }

  /** A square array whose cells agree with `g` has `g` as its value. */
  lemma ToGridEquals(a: array2<int>, g: Grid)
    requires IsGrid(g) && a.Length0 == |g| && a.Length1 == |g|
    requires forall i, j :: 0 <= i < |g| && 0 <= j < |g| ==> a[i, j] == g[i][j]
    ensures ToGrid(a) == g
  {
    var t := ToGrid(a);
    forall i | 0 <= i < |g|
      ensures t[i] == g[i]
    {
      assert |t[i]| == |g[i]|;
      forall j | 0 <= j < |g| ensures t[i][j] == g[i][j] {
      }
    }
  }

  // ---------------------------------------------------------------------
  // Neighbour counting

  /** The count is the sum of the eight off-centre cells of the 3x3 window. */
  lemma CountIsEightCells(g: Grid, i: int, j: int)
    requires IsGrid(g)
    ensures CountNeighbours(g, i, j) ==
      Cell(g, i - 1, j - 1) + Cell(g, i - 1, j) + Cell(g, i - 1, j + 1) +
      Cell(g, i, j - 1) + Cell(g, i, j + 1) +
      Cell(g, i + 1, j - 1) + Cell(g, i + 1, j) + Cell(g, i + 1, j + 1)
  {
  }

  /** On a 0/1 board a cell has between 0 and 8 alive neighbours. */
  lemma CountBounds(g: Grid, i: int, j: int)
    requires IsGrid(g) && IsBinary(g)
    ensures 0 <= CountNeighbours(g, i, j) <= 8
  {
    CountIsEightCells(g, i, j);
  }

  /** The centre cell is never counted: changing it leaves its own count unchanged. */
  lemma CentreNotCounted(g: Grid, i: int, j: int, v: int)
    requires IsGrid(g) && 0 <= i < |g| && 0 <= j < |g|
    ensures IsGrid(g[i := g[i][j := v]])
    ensures CountNeighbours(g[i := g[i][j := v]], i, j) == CountNeighbours(g, i, j)
  {
    var h := g[i := g[i][j := v]];
    CountIsEightCells(g, i, j);
    CountIsEightCells(h, i, j);
  }

  /** The corner (0, 0) counts exactly (0, 1), (1, 0) and (1, 1). */
  lemma CornerCount(g: Grid)
    requires IsGrid(g) && |g| >= 2
    ensures CountNeighbours(g, 0, 0) == g[0][1] + g[1][0] + g[1][1]
  {
    CountIsEightCells(g, 0, 0);
  }

  /**
   * No wrap-around: the count of a cell in the top row does not depend on the
   * bottom row of a board of side 3 or more.
   */
  lemma TopRowIgnoresBottomRow(g: Grid, h: Grid, j: int)
    requires IsGrid(g) && IsGrid(h) && |g| == |h| >= 3
    requires forall i :: 0 <= i < |g| - 1 ==> g[i] == h[i]
    ensures CountNeighbours(g, 0, j) == CountNeighbours(h, 0, j)
  {
    CountIsEightCells(g, 0, j);
    CountIsEightCells(h, 0, j);
  }

  // ---------------------------------------------------------------------
  // The rule

  /** An alive cell stays alive exactly when it has 2 or 3 alive neighbours. */
  lemma SurvivalRule(g: Grid, i: int, j: int)
    requires IsGrid(g) && 0 <= i < |g| && 0 <= j < |g| && g[i][j] == 1
    ensures NextGen(g)[i][j] == 1 <==> CountNeighbours(g, i, j) in {2, 3}
  {
  }

  /** A dead cell comes alive exactly when it has 3 alive neighbours. */
  lemma BirthRule(g: Grid, i: int, j: int)
    requires IsGrid(g) && 0 <= i < |g| && 0 <= j < |g| && g[i][j] != 1
    ensures NextGen(g)[i][j] == 1 <==> CountNeighbours(g, i, j) == 3
  {
  }

  /** A 1x1 board always dies: its only cell has no neighbours. */
  lemma SingleCellDies(v: int)
    ensures NextGen([[v]]) == [[0]]
  {
    var g := [[v]];
    CountIsEightCells(g, 0, 0);
    assert NextGen(g)[0] == [0];
  }

  /** A board is the next generation of `g` when each of its cells is the rule's value. */
  lemma NextGenFromCells(g: Grid, r: Grid)
    requires IsGrid(g) && IsGrid(r) && |r| == |g|
    requires forall i, j :: 0 <= i < |g| && 0 <= j < |g| ==> r[i][j] == NextCell(g, i, j)
    ensures NextGen(g) == r
  {
    var x := NextGen(g);
    forall i | 0 <= i < |g| ensures x[i] == r[i] {
      assert |x[i]| == |r[i]|;
    }
  }

  /** The period-two oscillator of side 3, standing and lying. */
  const VerticalBlinker: Grid := [[0, 1, 0], [0, 1, 0], [0, 1, 0]]
  const HorizontalBlinker: Grid := [[0, 0, 0], [1, 1, 1], [0, 0, 0]]

  /** Each cell of the standing blinker's successor, one window at a time. */
  lemma VerticalBlinkerCell(i: int, j: int)
    requires 0 <= i < 3 && 0 <= j < 3
    ensures IsGrid(VerticalBlinker) && NextCell(VerticalBlinker, i, j) == HorizontalBlinker[i][j]
  {
    CountIsEightCells(VerticalBlinker, i, j);
  }

  /** Each cell of the lying blinker's successor, one window at a time. */
  lemma HorizontalBlinkerCell(i: int, j: int)
    requires 0 <= i < 3 && 0 <= j < 3
    ensures IsGrid(HorizontalBlinker) && NextCell(HorizontalBlinker, i, j) == VerticalBlinker[i][j]
  {
    CountIsEightCells(HorizontalBlinker, i, j);
  }

  /** The vertical blinker turns into the horizontal one. */
  lemma BlinkerTurnsHorizontal()
    ensures NextGen(VerticalBlinker) == HorizontalBlinker
  {
    forall i, j | 0 <= i < 3 && 0 <= j < 3
      ensures HorizontalBlinker[i][j] == NextCell(VerticalBlinker, i, j)
    {
      VerticalBlinkerCell(i, j);
    }
    NextGenFromCells(VerticalBlinker, HorizontalBlinker);
  }

  /** The horizontal blinker turns back into the vertical one: period two. */
  lemma BlinkerTurnsVertical()
    ensures NextGen(HorizontalBlinker) == VerticalBlinker
  {
    forall i, j | 0 <= i < 3 && 0 <= j < 3
      ensures VerticalBlinker[i][j] == NextCell(HorizontalBlinker, i, j)
    {
      HorizontalBlinkerCell(i, j);
    }
    NextGenFromCells(HorizontalBlinker, VerticalBlinker);
  }

  // ---------------------------------------------------------------------
  // Generations

  /** Running `a` generations and then `b` more is running `a + b`. */
  lemma {:induction false} IterateAdd(g: Grid, a: nat, b: nat)
    requires IsGrid(g)
    ensures Iterate(Iterate(g, a), b) == Iterate(g, a + b)
    decreases b
  {
    if b > 0 {
      IterateAdd(g, a, b - 1);
    }
  }

  /** One generation first, then `k`: the same as `k + 1` generations. */
  lemma IterateFirst(g: Grid, k: nat)
    requires IsGrid(g)
    ensures Iterate(NextGen(g), k) == Iterate(g, k + 1)
  {
    IterateAdd(g, 1, k);
  }
}
