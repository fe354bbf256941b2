/** The cooperative workers of src/task.rs: n tasks that take m turns each, every turn a
    log entry and a yield, then return. The closed form below says where the rotation
    stands when worker j is about to take turn r. */
module Rotation {
  import opened Scheduler
  import HeapLayout

  /** from, from + 1, ..., to - 1 */
  function Range(from: nat, to: nat): (s: seq<nat>)
    ensures |s| == if from < to then to - from else 0
    ensures forall i | 0 <= i < |s| :: s[i] == from + i
  {
    if from < to then seq(to - from, i => from + i) else []
  }

  /** The spawn order 1..n, repeated. */
  function Repeated(n: nat, times: nat): seq<nat> {
    if times == 0 then [] else Repeated(n, times - 1) + Range(1, n + 1)
  }

  /** Worker j of n is about to take turn r (counting from 0) of m; at r == m the workers
      are returning one by one. */
  function Phase(n: nat, m: nat, r: nat, j: nat): Sched
    requires r <= m && 1 <= j <= n
  {
    Sched([Running] + seq(n, i => if i + 1 == j then Running else if r == m && i + 1 < j then Finished else Ready),
          if r == m then Range(j + 1, n + 1) else Range(j + 1, n + 1) + Range(1, j), j)
  }

  function Left(n: nat, m: nat, r: nat, j: nat): seq<nat>
    requires r <= m && 1 <= j <= n
  {
    [0] + seq(n, i => if r == m then 0 else if i + 1 < j then m - r - 1 else m - r)
  }

  function Log(n: nat, m: nat, r: nat, j: nat): seq<nat>
    requires r <= m && 1 <= j <= n
  {
    if r == m then Repeated(n, m) else Repeated(n, r) + Range(1, j)
  }

  /** All workers have returned and idle runs again. */
  function Done(n: nat): Sched {
    Sched([Running] + seq(n, _ => Finished), [], IDLE)
  }

  /** Steps still to go. */
  function Remaining(n: nat, m: nat, r: nat, j: nat): nat
    requires r <= m && 1 <= j <= n
  {
    (m - r) * n + (n - j + 1)
  }

  lemma TurnQueue(n: nat, j: nat)
    requires 2 <= n && 1 <= j <= n
    ensures var q := Range(j + 1, n + 1) + Range(1, j);
      && q != [] && q[0] == (if j < n then j + 1 else 1)
      && q[1..] + [j] == if j < n then Range(j + 2, n + 1) + Range(1, j + 1) else Range(2, n + 1)
  {
  }

  lemma TurnOver(n: nat, m: nat, r: nat, j: nat)
    requires 2 <= n && r < m && 1 <= j <= n
    ensures Yield(Phase(n, m, r, j)) == if j < n then Phase(n, m, r, j + 1) else Phase(n, m, r + 1, 1)
  {
    TurnQueue(n, j);
    hide Range;
    var s := Phase(n, m, r, j);
    var t := if j < n then Phase(n, m, r, j + 1) else Phase(n, m, r + 1, 1);
    assert Range(1, 1) == [] by { NothingInRange(1); }
    assert t.ready == s.ready[1..] + [j];
    assert s.states[j := Ready][t.current := Running] == t.states;
  }

  lemma NothingInRange(k: nat)
    ensures Range(k, k) == []
  {
  }

  lemma TurnLogged(n: nat, m: nat, r: nat, j: nat)
    requires r < m && 1 <= j <= n
    ensures Left(n, m, r, j)[j] > 0
    ensures Log(n, m, r, j) + [j] == if j < n then Log(n, m, r, j + 1) else Log(n, m, r + 1, 1)
    ensures Left(n, m, r, j)[j := Left(n, m, r, j)[j] - 1] == if j < n then Left(n, m, r, j + 1) else Left(n, m, r + 1, 1)
  {
    assert Range(1, j) + [j] == Range(1, j + 1);
  }

  lemma WorkerReturns(n: nat, m: nat, j: nat)
    requires 1 <= j <= n
    ensures Exit(Phase(n, m, m, j)) == if j < n then Phase(n, m, m, j + 1) else Done(n)
  {
    var s := Phase(n, m, m, j);
    var s' := Exit(s);
    var t := if j < n then Phase(n, m, m, j + 1) else Done(n);
    assert s'.states == t.states;
    assert s'.ready == t.ready;
  }

  lemma OneStepLess(n: nat, m: nat, r: nat, j: nat)
    requires r < m && 1 <= j <= n
    ensures Remaining(n, m, r, j) > 1
    ensures Remaining(n, m, r, j) == 1 + (if j < n then Remaining(n, m, r, j + 1) else Remaining(n, m, r + 1, 1))
  {
    assert (m - r) * n == (m - r - 1) * n + n;
  }

  lemma {:induction false} NothingRepeated(times: nat)
    ensures Repeated(0, times) == []
  {
    if times > 0 { NothingRepeated(times - 1); }
  }

  /** Entry i of the log is worker i mod n + 1. */
  lemma {:induction false} RepeatedAt(n: nat, times: nat, i: nat)
    ensures |Repeated(n, times)| == n * times
    ensures i < n * times ==> Repeated(n, times)[i] == i % n + 1
  {
    if times > 0 {
      RepeatedAt(n, times - 1, i);
      assert n * times == n * (times - 1) + n;
      if n * (times - 1) <= i < n * times { LastRound(n, times - 1, i); }
    }
  }

  lemma EntriesRepeated(n: nat, times: nat)
    ensures |Repeated(n, times)| == n * times
    ensures forall i | 0 <= i < n * times :: Repeated(n, times)[i] == i % n + 1
  {
    RepeatedAt(n, times, 0);
    forall i | 0 <= i < n * times ensures Repeated(n, times)[i] == i % n + 1 {
      RepeatedAt(n, times, i);
    }
  }

  lemma LastRound(n: nat, rounds: nat, i: nat)
    requires n * rounds <= i < n * rounds + n
    ensures i % n == i - n * rounds
  {
    assert rounds * n == n * rounds;
    HeapLayout.DivMod(rounds, n, i - n * rounds);
  }

  /** A scheduler just initialised, with n workers spawned. */
  function Spawned(n: nat): Sched {
    Sched([Running] + seq(n, _ => Ready), Range(1, n + 1), IDLE)
  }

  lemma SpawnOne(n: nat)
    ensures Spawn(Spawned(n)) == Spawned(n + 1)
  {
    assert Range(1, n + 1) + [n + 1] == Range(1, n + 2);
    assert Spawn(Spawned(n)).states == Spawned(n + 1).states;
  }

  lemma FirstYield(n: nat, m: nat)
    requires n > 0
    ensures Yield(Spawned(n)) == Phase(n, m, 0, 1)
  {
    var s, t := Yield(Spawned(n)), Phase(n, m, 0, 1);
    assert s.states == t.states && s.ready == t.ready;
  }

  /** A single worker's first yield finds the queue empty and hands back to idle. */
  lemma LoneWorkerYields(m: nat)
    requires m > 0
    ensures Yield(Phase(1, m, 0, 1)) == Sched([Running, Ready], [1], IDLE)
  {
    var s := Yield(Phase(1, m, 0, 1));
    assert s.states == [Running, Ready];
    assert s.ready == [1];
  }

  /** The self-test's run: spawn n workers, yield from idle, and let each current worker
      take its turns until idle is current again. The log is then the spawn order
      repeated m times with every worker finished, if and only if the worker is not
      alone or has no turns to take; a lone worker hands control back after one turn. */
  method RunWorkers(n: nat, m: nat) returns (log: seq<nat>, cell: SchedulerCell)
    ensures cell.current == IDLE && |cell.states| == n + 1
    ensures (forall t | 1 <= t <= n :: cell.states[t] == Finished) <==> n != 1 || m == 0
    ensures n != 1 || m == 0 ==> log == Repeated(n, m)
    ensures n != 1 || m == 0 ==> |log| == n * m && forall i | 0 <= i < n * m :: log[i] == i % n + 1
    ensures n == 1 && m > 0 ==> log == [1] && cell.states[1] == Ready
  {
    EntriesRepeated(n, m);
    cell := new SchedulerCell();
    assert cell.Value() == Spawned(0);
    for i := 0 to n
      invariant fresh(cell) && Inv(cell.Value()) && cell.Value() == Spawned(i)
    {
      SpawnOne(i);
      var _ := cell.SpawnTask();
    }
    log := [];
    var left := [0] + seq(n, _ => m);
    if n > 0 { FirstYield(n, m); }
    var _ := cell.YieldNow();
    if n == 0 {
      NothingRepeated(m);
      return log, cell;
    }
    assert left == Left(n, m, 0, 1);
    if n == 1 && m > 0 {
      LoneWorkerYields(m);
      log := [cell.current];
      var _ := cell.YieldNow();
      assert cell.Value().states[1] == Ready;
      return log, cell;
    }
    log := Rotate(cell, left, n, m);
  }

  /** The rotation proper, from the first worker's first turn. */
  method Rotate(cell: SchedulerCell, left0: seq<nat>, n: nat, m: nat) returns (log: seq<nat>)
    requires n >= 2 || (n == 1 && m == 0)
    requires Inv(cell.Value()) && cell.Value() == Phase(n, m, 0, 1) && left0 == Left(n, m, 0, 1)
    modifies cell
    ensures cell.Value() == Done(n) && log == Repeated(n, m)
  {
    hide Phase, Left, Log, Remaining, Repeated, Inv;
    var left := left0;
    log := [];
    ghost var r: nat, j: nat := 0, 1;
    ghost var steps := Remaining(n, m, 0, 1);
    assert Log(n, m, 0, 1) == [] && steps > 0 by { Starts(n, m); }
    PhaseCurrent(n, m, 0, 1);
    while cell.current != IDLE
      invariant Inv(cell.Value()) && 0 <= steps
      invariant if steps == 0 then cell.Value() == Done(n) && log == Repeated(n, m)
        else
          && r <= m && 1 <= j <= n && steps == Remaining(n, m, r, j)
          && cell.Value() == Phase(n, m, r, j) && left == Left(n, m, r, j) && log == Log(n, m, r, j)
      decreases steps
    {
      steps := steps - 1;
      left, log, r, j := RotateStep(cell, left, log, n, m, r, j);
    }
    if steps > 0 { PhaseCurrent(n, m, r, j); }
  }

  lemma Starts(n: nat, m: nat)
    requires n >= 1
    ensures Log(n, m, 0, 1) == [] || m == 0
    ensures Log(n, m, 0, 1) == [] && Remaining(n, m, 0, 1) > 0
  {
  }

  lemma PhaseCurrent(n: nat, m: nat, r: nat, j: nat)
    requires r <= m && 1 <= j <= n
    ensures Phase(n, m, r, j).current == j != IDLE
  {
  }

  /** One turn, or one return, of the current worker. */
  method RotateStep(cell: SchedulerCell, left: seq<nat>, log: seq<nat>, n: nat, m: nat, ghost r: nat, ghost j: nat)
    returns (left': seq<nat>, log': seq<nat>, ghost r': nat, ghost j': nat)
    requires n >= 2 || (n == 1 && m == 0)
    requires r <= m && 1 <= j <= n && Inv(cell.Value())
    requires cell.Value() == Phase(n, m, r, j) && left == Left(n, m, r, j) && log == Log(n, m, r, j)
    modifies cell
    ensures Inv(cell.Value())
    ensures if r == m && j == n
      then cell.Value() == Done(n) && log' == Repeated(n, m) && Remaining(n, m, r, j) == 1
      else
        && r' <= m && 1 <= j' <= n && Remaining(n, m, r', j') == Remaining(n, m, r, j) - 1 > 0
        && cell.Value() == Phase(n, m, r', j') && left' == Left(n, m, r', j') && log' == Log(n, m, r', j')
  {
    hide Inv, Yield, Exit, Phase, Left, Log, Repeated, Remaining;
    left', log', r', j' := left, log, r, j + 1;
    PhaseCurrent(n, m, r, j);
    LeftCurrent(n, m, r, j);
    if left[cell.current] > 0 {
      TurnOver(n, m, r, j);
      TurnLogged(n, m, r, j);
      OneStepLess(n, m, r, j);
      log' := log + [cell.current];
      left' := left[cell.current := left[cell.current] - 1];
      var _ := cell.YieldNow();
      if j == n { r', j' := r + 1, 1; }
    } else {
      WorkerReturns(n, m, j);
      OneReturnLess(n, m, j);
      var _ := cell.TaskExit();
    }
  }

  lemma LeftCurrent(n: nat, m: nat, r: nat, j: nat)
    requires r <= m && 1 <= j <= n
    ensures |Left(n, m, r, j)| == n + 1 && (Left(n, m, r, j)[j] > 0 <==> r < m)
  {
  }

  lemma OneReturnLess(n: nat, m: nat, j: nat)
    requires 1 <= j <= n
    ensures Remaining(n, m, m, j) == 1 + (if j < n then Remaining(n, m, m, j + 1) else 0)
    ensures j < n ==> Remaining(n, m, m, j + 1) > 0
    ensures j < n ==> Left(n, m, m, j) == Left(n, m, m, j + 1) && Log(n, m, m, j) == Log(n, m, m, j + 1)
    ensures Log(n, m, m, j) == Repeated(n, m)
  {
  }
}
