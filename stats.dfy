/** The header statistics of StatsBar.tsx: task count, in-progress and
    completed counts, and the mean progress rounded the way `Math.round`
    rounds. Division is over exact reals. */
module Stats {
  import opened Board
  import opened RealArith

  /** `tasks.reduce((acc, t) => acc + t.progress, 0)`, a left fold. */
  function ProgressSum(tasks: seq<Task>): int
    decreases |tasks|
  {
    if tasks == [] then 0 else ProgressSum(tasks[..|tasks| - 1]) + tasks[|tasks| - 1].progress
  }

  /** `Math.round`: the nearest integer, halves going up. */
  function Round(x: real): (r: int)
    ensures r as real - 0.5 <= x < r as real + 0.5
  {
    (x + 0.5).Floor
  }

  /** The mean progress shown in the header, 0 for an empty board. */
  function GlobalProgress(tasks: seq<Task>): int {
    if |tasks| > 0 then Round(ProgressSum(tasks) as real / |tasks| as real) else 0
  }

  datatype BoardStats = BoardStats(total: nat, inProgress: nat, completed: nat, globalProgress: int)

  function StatsOf(tasks: seq<Task>): (s: BoardStats)
    ensures s.total == |tasks|
    ensures s.inProgress + s.completed <= s.total
  {
    ColumnsPartition(tasks);
    BoardStats(
      |tasks|,
      |ColumnTasks(tasks, Progress)|,
      |ColumnTasks(tasks, Done)|,
      GlobalProgress(tasks))
  }

  /** `inProgress` and `completed` count the positions of the list whose task
      is in progress or done, and what remains of the total is the pending
      ones. */
  lemma StatsCountColumns(tasks: seq<Task>)
    ensures StatsOf(tasks).inProgress == |ColumnIndices(tasks, Progress)|
    ensures StatsOf(tasks).completed == |ColumnIndices(tasks, Done)|
    ensures StatsOf(tasks).total - StatsOf(tasks).inProgress - StatsOf(tasks).completed
         == |ColumnIndices(tasks, Pending)|
  {
    ColumnsPartition(tasks);
    ColumnTasksCount(tasks, Pending);
    ColumnTasksCount(tasks, Progress);
    ColumnTasksCount(tasks, Done);
  }

  /** Flooring an exact quotient agrees with integer division. */
  lemma FloorOfQuotient(a: int, b: int)
    requires b > 0
    ensures (a as real / b as real).Floor == a / b
  {
    var q, m := a / b, a % b;
    assert a == b * q + m && 0 <= m < b;
    var x, br, qr := a as real / b as real, b as real, q as real;
    assert x * br == a as real;
    assert qr * br == (b * q) as real;
    assert (qr + 1.0) * br == (b * q + b) as real;
    if qr > x {
      CancelLt(x, qr, br);
    }
    CancelLt(x, qr + 1.0, br);
  }

  /** The rounded mean is the integer `(2 sum + n) div (2 n)`. */
  lemma GlobalProgressFormula(tasks: seq<Task>)
    requires |tasks| > 0
    ensures GlobalProgress(tasks) == (2 * ProgressSum(tasks) + |tasks|) / (2 * |tasks|)
  {
    var s, n := ProgressSum(tasks), |tasks|;
    var x := s as real / n as real;
    var y := (2 * s + n) as real / (2 * n) as real;
    assert x * n as real == s as real;
    assert y * (2 * n) as real == (2 * s + n) as real;
    assert (x + 0.5) * (2 * n) as real == (2 * s + n) as real;
    CancelEq(x + 0.5, y, (2 * n) as real);
    FloorOfQuotient(2 * s + n, 2 * n);
  }

  lemma GlobalProgressOfEmpty()
    ensures GlobalProgress([]) == 0
  {
  }

  lemma {:induction false} ProgressSumBounds(tasks: seq<Task>, lo: int, hi: int)
    requires forall i :: 0 <= i < |tasks| ==> lo <= tasks[i].progress <= hi
    ensures lo * |tasks| <= ProgressSum(tasks) <= hi * |tasks|
    decreases |tasks|
  {
    if tasks != [] {
      ProgressSumBounds(tasks[..|tasks| - 1], lo, hi);
    }
  }

  /** With every task's progress in [0, 100], so is the rounded mean. */
  lemma GlobalProgressInRange(tasks: seq<Task>)
    requires forall i :: 0 <= i < |tasks| ==> 0 <= tasks[i].progress <= 100
    ensures 0 <= GlobalProgress(tasks) <= 100
  {
    if tasks != [] {
      var s, n := ProgressSum(tasks), |tasks|;
      ProgressSumBounds(tasks, 0, 100);
      GlobalProgressFormula(tasks);
      DivBetween(2 * s + n, 2 * n, 0, 100);
    }
  }

  /** When every task is at the same progress `p`, the mean is `p`. */
  lemma GlobalProgressUniform(tasks: seq<Task>, p: int)
    requires |tasks| > 0
    requires forall i :: 0 <= i < |tasks| ==> tasks[i].progress == p
    ensures GlobalProgress(tasks) == p
  {
    var s, n := ProgressSum(tasks), |tasks|;
    ProgressSumBounds(tasks, p, p);
    GlobalProgressFormula(tasks);
    assert 2 * s + n == (2 * n) * p + n;
    DivBetween(2 * s + n, 2 * n, p, p);
  }

  /** If `d * lo <= a < d * (hi + 1)` then `lo <= a / d <= hi`. */
  lemma DivBetween(a: int, d: int, lo: int, hi: int)
    requires d > 0
    requires d * lo <= a < d * (hi + 1)
    ensures lo <= a / d <= hi
  {
    var q, m := a / d, a % d;
    assert a == d * q + m && 0 <= m < d;
    assert d * (q - lo + 1) == d * q + d - d * lo;
    PositiveFactor(d, q - lo + 1);
    assert d * (hi + 1 - q) == d * (hi + 1) - d * q;
    PositiveFactor(d, hi + 1 - q);
  }

  lemma PositiveFactor(d: int, k: int)
    requires d > 0 && d * k > 0
    ensures k > 0
  {
  }
}
