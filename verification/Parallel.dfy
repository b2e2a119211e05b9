/**
 * The threaded simulator. The rows of the board are split into one
 * contiguous range per thread (`tamanho // num_threads` rows each, the last
 * range running to the end), each thread writes the 1s of its own rows into
 * a shared zeroed array, and the coordinator joins all threads.
 *
 * Threads are modelled by their effect: each runs its worker to completion,
 * in an order the scheduler chooses (the `schedule` parameter). Because the
 * workers read only the current board and write only their own rows, any
 * interleaving of them has the effect of some such order.
 */
module Parallel {
  import opened Life
  import opened Errors
  import Sequential

  // ---------------------------------------------------------------------
  // The partitioning rule

  /** Python's floor division `a // b`. */
  function FloorDiv(a: int, b: int): int
    requires b != 0
  {
    if b > 0 then a / b else (-a) / (-b)
  }

  /** First row of partition `k` of `t`: `k * (n // t)`. */
  function PartitionStart(n: nat, t: int, k: int): int
    requires t >= 1
  {
    k * (n / t)
  }

  /** One past the last row of partition `k` of `t`; the last one runs to `n`. */
  function PartitionEnd(n: nat, t: int, k: int): int
    requires t >= 1
  {
    if k == t - 1 then n else k * (n / t) + n / t
  }

  predicate InPartition(n: nat, t: int, k: int, row: int)
    requires t >= 1
  {
    PartitionStart(n, t, k) <= row < PartitionEnd(n, t, k)
  }

  /** The partition that row `row` falls into. */
  function Owner(n: nat, t: int, row: int): int
    requires t >= 1
  {
    var q := n / t;
    if q == 0 then t - 1
    else if row / q < t - 1 then row / q
    else t - 1
  }

  lemma MulMonotone(a: int, b: int, q: nat)
    requires a <= b
    ensures a * q <= b * q
  {
  }

  /** Every partition is a (possibly empty) range of rows inside [0, n). */
  lemma PartitionBounds(n: nat, t: int, k: int)
    requires t >= 1 && 0 <= k < t
    ensures 0 <= PartitionStart(n, t, k) <= PartitionEnd(n, t, k) <= n
  {
    var q := n / t;
    assert t * q <= n;
    MulMonotone(k, t - 1, q);
    MulMonotone(k + 1, t, q);
  }

  /** The partitions are consecutive: the first starts at 0, each starts where the previous ends, the last ends at n. */
  lemma PartitionsConsecutive(n: nat, t: int)
    requires t >= 1
    ensures PartitionStart(n, t, 0) == 0 && PartitionEnd(n, t, t - 1) == n
    ensures forall k :: 0 <= k < t - 1 ==> PartitionEnd(n, t, k) == PartitionStart(n, t, k + 1)
  {
  }

  /** The quotient `row / q` places `row` between two consecutive multiples of `q`. */
  lemma DivBracket(row: nat, q: int)
    requires q > 0
    ensures 0 <= row / q && (row / q) * q <= row < (row / q) * q + q
  {
    assert row == (row / q) * q + row % q;
  }

  /** Every row of [0, n) lies in the partition `Owner` names. */
  lemma OwnerCoversRow(n: nat, t: int, row: int)
    requires t >= 1 && 0 <= row < n
    ensures 0 <= Owner(n, t, row) < t && InPartition(n, t, Owner(n, t, row), row)
  {
    var q := n / t;
    if q == 0 {
      assert PartitionStart(n, t, t - 1) == 0;
    } else {
      var m := row / q;
      DivBracket(row, q);
      if m < t - 1 {
        assert Owner(n, t, row) == m;
        assert PartitionStart(n, t, m) == m * q && PartitionEnd(n, t, m) == m * q + q;
      } else {
        assert Owner(n, t, row) == t - 1;
        MulMonotone(t - 1, m, q);
        assert PartitionStart(n, t, t - 1) == (t - 1) * q;
      }
    }
  }

  /** Partition `k` ends no later than any later partition starts. */
  lemma PartitionsOrdered(n: nat, t: int, k: int, k': int)
    requires t >= 1 && 0 <= k < k' < t
    ensures PartitionEnd(n, t, k) <= PartitionStart(n, t, k')
  {
    MulMonotone(k + 1, k', n / t);
  }

  /**
   * The partitions tile [0, n): every row lies in exactly one of them, the
   * one `Owner` names, whatever the number of threads.
   */
  lemma PartitionsTile(n: nat, t: int, k: int, row: int)
    requires t >= 1 && 0 <= k < t && 0 <= row < n
    ensures 0 <= Owner(n, t, row) < t
    ensures InPartition(n, t, k, row) <==> k == Owner(n, t, row)
  {
    var o := Owner(n, t, row);
    OwnerCoversRow(n, t, row);
    if k < o {
      PartitionsOrdered(n, t, k, o);
    } else if o < k {
      PartitionsOrdered(n, t, o, k);
    }
  }

  /** With more threads than rows every partition is empty except the last, which is all of [0, n). */
  lemma MoreThreadsThanRows(n: nat, t: int)
    requires t > n
    ensures forall k :: 0 <= k < t - 1 ==> PartitionStart(n, t, k) == PartitionEnd(n, t, k) == 0
    ensures PartitionStart(n, t, t - 1) == 0 && PartitionEnd(n, t, t - 1) == n
  {
    assert n / t == 0;
  }

  // ---------------------------------------------------------------------
  // The worker and the coordinator

  /**
   * One thread's work: for every row in [lo, hi), sets to 1 each cell that
   * is alive in the next generation. It writes no 0 and touches no other row,
   * so the result is the next generation on those rows only if they were 0.
   */
  method Worker(grade: array2<int>, nova: array2<int>, n: int, lo: int, hi: int)
    requires grade.Length0 == n && grade.Length1 == n
    requires nova.Length0 == n && nova.Length1 == n
    requires grade != nova
    requires 0 <= lo && hi <= n
    modifies nova
    ensures forall r, c :: 0 <= r < n && 0 <= c < n ==>
      nova[r, c] == if lo <= r < hi && NextCell(ToGrid(grade), r, c) == 1 then 1 else old(nova[r, c])
  {
    ghost var g := ToGrid(grade);
    var i := lo;
    while i < hi
      invariant lo <= i && (lo <= hi ==> i <= hi) && (hi < lo ==> i == lo)
      invariant forall r, c :: 0 <= r < n && 0 <= c < n ==>
        nova[r, c] == if lo <= r < i && NextCell(g, r, c) == 1 then 1 else old(nova[r, c])
    {
      for j := 0 to n
        invariant forall r, c :: 0 <= r < n && 0 <= c < n ==>
          nova[r, c] == if (lo <= r < i || (r == i && c < j)) && NextCell(g, r, c) == 1 then 1 else old(nova[r, c])
      {
        var live := Sequential.CountLiveNeighbours(grade, i, j, n);
        if grade[i, j] == 1 {
          if live == 2 || live == 3 {
            nova[i, j] := 1;
          }
        } else {
          if live == 3 {
            nova[i, j] := 1;
          }
        }
      }
      i := i + 1;
    }
  }

  /** The rows lo .. hi-1. */
  ghost function Rows(lo: int, hi: int): (s: set<int>)
    ensures forall row :: row in s <==> lo <= row < hi
    decreases hi - lo
  {
    if lo >= hi then {} else {lo} + Rows(lo + 1, hi)
  }

  /**
   * A scheduler's order for running the `t` threads: each of 0 .. t-1 exactly
   * once (no thread at all when `t` is not positive).
   */
  predicate IsSchedule(schedule: seq<int>, t: int) {
    && |schedule| == RangeLength(t)
    && (forall m :: 0 <= m < |schedule| ==> 0 <= schedule[m] < t)
    && (forall k :: 0 <= k < t ==> k in schedule)
  }

  /** Whatever the order, some scheduled thread owns each row. */
  lemma ScheduleCovers(n: nat, t: int, schedule: seq<int>, row: int) returns (m: int)
    requires t >= 1 && IsSchedule(schedule, t) && 0 <= row < n
    ensures 0 <= m < |schedule| && InPartition(n, t, schedule[m], row)
  {
    var o := Owner(n, t, row);
    OwnerCoversRow(n, t, row);
    assert o in schedule;
    m :| 0 <= m < |schedule| && schedule[m] == o;
  }

  /**
   * The next generation with `threads` workers. No threads is a division by
   * zero; a negative count starts no thread and so returns the zeroed board;
   * otherwise the result is the sequential next generation, whatever order
   * the threads run in.
   */
  method NextGenerationParallel(grade: array2<int>, n: int, threads: int, schedule: seq<int>)
    returns (r: Result<array2<int>>)
    requires grade.Length0 == n && grade.Length1 == n
    requires IsSchedule(schedule, threads)
    ensures r.Failure? <==> threads == 0
    ensures r.Failure? ==> r.error == DivisionByZero
    ensures r.Success? ==> fresh(r.value) && r.value.Length0 == n && r.value.Length1 == n
    ensures r.Success? && threads > 0 ==> ToGrid(r.value) == NextGen(ToGrid(grade))
    ensures r.Success? && threads < 0 ==> ToGrid(r.value) == Zeros(n)
  {
    if threads == 0 {
      return Failure(DivisionByZero);
    }
    ghost var g := ToGrid(grade);
    var nova := new int[n, n]((_, _) => 0);
    var rowsPerThread := FloorDiv(n, threads);

    // Start one thread per partition, remembering its row range.
    var started: seq<(int, int)> := [];
    var k := 0;
    while k < threads
      invariant 0 <= k <= RangeLength(threads) && |started| == k
      invariant forall m :: 0 <= m < k ==>
        started[m] == (PartitionStart(n, threads, m), PartitionEnd(n, threads, m))
    {
      var lo := k * rowsPerThread;
      var hi;
      if k == threads - 1 {
        hi := n;
      } else {
        hi := lo + rowsPerThread;
      }
      started := started + [(lo, hi)];
      k := k + 1;
    }

    // The threads run in the scheduler's order; the join waits for all of them.
    ghost var done: set<int> := {};
    for m := 0 to |schedule|
      invariant forall row, c :: 0 <= row < n && 0 <= c < n ==>
        nova[row, c] == if row in done then NextCell(g, row, c) else 0
      invariant threads < 0 ==> done == {}
      invariant forall m', row :: 0 <= m' < m && InPartition(n, threads, schedule[m'], row) ==> row in done
    {
      var lo := started[schedule[m]].0;
      var hi := started[schedule[m]].1;
      PartitionBounds(n, threads, schedule[m]);
      Worker(grade, nova, n, lo, hi);
      done := done + Rows(lo, hi);
    }

    if threads > 0 {
      forall row | 0 <= row < n
        ensures row in done
      {
        var m' := ScheduleCovers(n, threads, schedule, row);
      }
      ToGridEquals(nova, NextGen(g));
    } else {
      ToGridEquals(nova, Zeros(n));
    }
    r := Success(nova);
  }

  /**
   * The generation loop of the threaded simulator, with one scheduler order
   * per generation. A zero thread count fails on the first generation.
   */
  method SimulateParallel(initial: array2<int>, n: int, generations: int, threads: int, schedules: seq<seq<int>>)
    returns (r: Result<array2<int>>)
    requires initial.Length0 == n && initial.Length1 == n
    requires |schedules| >= RangeLength(generations)
    requires forall m :: 0 <= m < |schedules| ==> IsSchedule(schedules[m], threads)
    ensures r.Success? ==> r.value.Length0 == n && r.value.Length1 == n
    ensures threads >= 1 ==> r.Success? && ToGrid(r.value) == Iterate(ToGrid(initial), RangeLength(generations))
    ensures threads == 0 ==> (r.Failure? <==> generations > 0)
    ensures threads < 0 && generations > 0 ==> r.Success? && ToGrid(r.value) == Zeros(n)
  {
    ghost var g0 := ToGrid(initial);
    var current := initial;
    var gen := 0;
    while gen < generations
      invariant 0 <= gen <= RangeLength(generations)
      invariant current.Length0 == n && current.Length1 == n
      invariant threads >= 1 ==> ToGrid(current) == Iterate(g0, gen)
      invariant threads < 0 && gen > 0 ==> ToGrid(current) == Zeros(n)
      invariant threads == 0 ==> gen == 0
    {
      var next := NextGenerationParallel(current, n, threads, schedules[gen]);
      if next.Failure? {
        return next;
      }
      current := next.value;
      gen := gen + 1;
    }
    r := Success(current);
  }
}
