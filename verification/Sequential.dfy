/**
 * The single-threaded simulator: neighbour counting with a double loop over
 * the offsets, the next generation written cell by cell into a zeroed array,
 * and the loop that advances the board a fixed number of generations.
 */
module Sequential {
  import opened Life

  /**
   * Counts the alive Moore neighbours of (i, j), skipping the centre and every
   * position off the n x n board. The threaded and remote variants carry
   * textually identical copies of this routine and call this one.
   */
  method CountLiveNeighbours(grade: array2<int>, i: int, j: int, n: int) returns (live: int)
    requires grade.Length0 == n && grade.Length1 == n
    ensures live == CountNeighbours(ToGrid(grade), i, j)
  {
    ghost var g := ToGrid(grade);
    live := 0;
    for x := -1 to 2
      invariant live == PartialCount(g, i, j, x)
    {
      for y := -1 to 2
        invariant live == PartialCount(g, i, j, x) + RowSum(g, i, j, x, y)
      {
        if x == 0 && y == 0 {
          continue;
        }
        var ni := i + x;
        var nj := j + y;
        if 0 <= ni < n && 0 <= nj < n {
          live := live + grade[ni, nj];
        }
      }
    }
  }

  /**
   * The next generation, computed into a freshly zeroed array: each cell is
   * set to 1 only when it survives or is born, and is otherwise left at 0.
   * `grade` is only read.
   */
  method NextGeneration(grade: array2<int>, n: int) returns (nova: array2<int>)
    requires grade.Length0 == n && grade.Length1 == n
    ensures fresh(nova)
    ensures nova.Length0 == n && nova.Length1 == n
    ensures ToGrid(nova) == NextGen(ToGrid(grade))
  {
    ghost var g := ToGrid(grade);
    nova := new int[n, n]((_, _) => 0);
    for i := 0 to n
      invariant forall r, c :: 0 <= r < n && 0 <= c < n ==>
        nova[r, c] == if r < i then NextCell(g, r, c) else 0
    {
      for j := 0 to n
        invariant forall r, c :: 0 <= r < n && 0 <= c < n ==>
          nova[r, c] == if r < i || (r == i && c < j) then NextCell(g, r, c) else 0
      {
        var live := CountLiveNeighbours(grade, i, j, n);
        if grade[i, j] == 1 {
          if live < 2 {
            // under-population: the cell stays 0
          } else if live == 2 || live == 3 {
            nova[i, j] := 1;
          } else {
            // over-population: the cell stays 0
          }
        } else {
          if live == 3 {
            nova[i, j] := 1;
          }
        }
      }
    }
    ToGridEquals(nova, NextGen(g));
  }

  /**
   * The generation loop: replaces the current board by its next generation
   * `generations` times (no times when `generations` is not positive).
   * The random initial board is a parameter here.
   */
  method Simulate(initial: array2<int>, n: int, generations: int) returns (final: array2<int>)
    requires initial.Length0 == n && initial.Length1 == n
    ensures final.Length0 == n && final.Length1 == n
    ensures ToGrid(final) == Iterate(ToGrid(initial), RangeLength(generations))
  {
    ghost var g0 := ToGrid(initial);
    final := initial;
    var gen := 0;
    while gen < generations
      invariant 0 <= gen <= RangeLength(generations)
      invariant final.Length0 == n && final.Length1 == n
      invariant ToGrid(final) == Iterate(g0, gen)
    {
      final := NextGeneration(final, n);
      gen := gen + 1;
    }
  }
}
