/** One hand-over from beginning to end, with scheduler and signals, when Wait suspends Forbid. */
module SemaphoreRun {
  import opened Options
  import T = TaskModel
  import opened TaskProofs
  import S = SemaphoreModel
  import W = SemaphoreTasks

  const SEMS: T.Mask := {W.SEM}

  // ----- the kernel's side

  /** The way of the running task to its Wait. */
  lemma ClearedTurn(s: W.Kernel, t: nat, u: nat)
    requires TakingTurns(s, t, u)
    ensures var n := W.UpToWait(s, true); TakingTurns(n, t, u) && W.SEM !in n.tcb[t].sigRecvd
  {
    W.AtTheWait(s, true);
    assert s.(tdNest := -1) == s;
  }

  /** `t` sleeps, and `u` runs alone. */
  ghost predicate Alone(s: W.Kernel, u: nat, t: nat) {
    && T.Inv(s) && s.tcb.Keys == {t, u} && s.thisTask == Some(u) && s.ready == [] && s.wait == [t] && s.tdNest == -1
    && s.tcb[u].state == T.RUN && s.tcb[t].tdNest == 255 && s.tcb[t].pri == s.tcb[u].pri
  }

  lemma SleepTurn(s: W.Kernel, t: nat, u: nat)
    requires TakingTurns(s, t, u) && W.SEM !in s.tcb[t].sigRecvd
    ensures T.Enabled(s, T.Sleep(SEMS)) && Alone(T.Next(s, T.Sleep(SEMS)), u, t)
  {
    assert s.tcb[t].sigRecvd * SEMS == {};
    assert t != u by { assert s.tcb[u].state == T.READY; }
    SleepKeeps(s, SEMS);
    FellAsleep(s, SEMS);
    hide T.Ordered, T.NoneLost, T.Switchable;
  }

  lemma WokenTurn(s: W.Kernel, u: nat, t: nat)
    requires Alone(s, u, t)
    ensures var n := T.Next(s, T.Signal(t, SEMS)); TakingTurns(n, u, t) && W.SEM in n.tcb[t].sigRecvd
  {
    var n := T.Next(s, T.Signal(t, SEMS));
    NextKeeps(s, T.Signal(t, SEMS));
    assert s.tcb[t].state == T.WAIT;
    assert n.ready == [t] && n.wait == [];
  }

  // ----- the semaphore's side

  /** 1 holds the semaphore. */
  const HELD: S.Sem := S.Sem(Some(1), 1, 0, S.SS_TYPE_SIMPLE, [], [S.Hold(1, S.Exclusive)], map[], {}, [], [], 0)

  /** 1 holds the semaphore and 2 waits. */
  const WAITED: S.Sem :=
    S.Sem(Some(1), 1, 1, S.SS_TYPE_SIMPLE, [2], [S.Hold(1, S.Exclusive)], map[2 := S.Exclusive], {}, [2], [], 0)

  /** 1 has handed it over to 2. */
  const HANDED: S.Sem := S.Sem(Some(2), 1, 0, S.SS_TYPE_SIMPLE, [], [], map[2 := S.Exclusive], {2}, [2], [2], 0)

  lemma SemStates(twice: bool)
    ensures S.Enabled(S.Init(), S.Obtain(1, S.Exclusive))
    ensures S.Next(S.Init(), S.Obtain(1, S.Exclusive), twice) == HELD
    ensures S.Enabled(HELD, S.Obtain(2, S.Exclusive))
    ensures S.Next(HELD, S.Obtain(2, S.Exclusive), twice) == WAITED
    ensures S.Enabled(WAITED, S.Release(0)) && W.HandsOver(WAITED, 0) && S.Next(WAITED, S.Release(0), twice) == HANDED
    ensures S.Enabled(HANDED, S.Resume(2)) && S.Next(HANDED, S.Resume(2), twice).holds == [S.Hold(2, S.Exclusive)]
  {
    assert WAITED.holds[..0] + WAITED.holds[1..] == [];
  }

  // ----- the run

  ghost predicate IsStep(w: W.Whole, e: W.Event, n: W.Whole, twice: bool) {
    W.Agree(w, twice) && W.Enabled(w, e) && n == W.Next(w, e, twice, true)
  }

  /** `t` runs, `u` is ready, and the semaphore is in state `s`. */
  ghost predicate Turn(w: W.Whole, t: nat, u: nat, s: S.Sem, twice: bool) {
    W.Agree(w, twice) && TakingTurns(w.kernel, t, u) && w.sem == s
  }

  ghost predicate Asleep(w: W.Whole, u: nat, t: nat, s: S.Sem, twice: bool) {
    W.Agree(w, twice) && Alone(w.kernel, u, t) && w.sem == s
  }

  lemma FirstObtain(w: W.Whole, twice: bool) returns (n: W.Whole)
    requires Turn(w, 1, 2, S.Init(), twice)
    ensures IsStep(w, W.Obtain(S.Exclusive), n, twice) && Turn(n, 1, 2, HELD, twice)
  {
    SemStates(twice);
    CanCall(w, 1, 2, S.Init(), W.Obtain(S.Exclusive), twice);
    n := W.Next(w, W.Obtain(S.Exclusive), twice, true);
    ObtainParts(w, n, twice);
    assert 1 !in HELD.blocked;
    hide W.Agree, W.Enabled, W.Next, S.Next, S.Enabled, T.Inv, T.Next, TakingTurns, Alone;
  }

  lemma Tick(w: W.Whole, t: nat, u: nat, s: S.Sem, twice: bool) returns (n: W.Whole)
    requires Turn(w, t, u, s, twice)
    ensures IsStep(w, W.Call(T.Schedule), n, twice) && Turn(n, u, t, s, twice)
  {
    NextTurnOf(w.kernel, t, u);
    n := W.Next(w, W.Call(T.Schedule), twice, true);
    W.NextKeeps(w, W.Call(T.Schedule), twice, true);
    hide T.Inv, S.Inv, T.Next, W.Agree;
  }

  lemma SecondObtain(w: W.Whole, twice: bool) returns (n: W.Whole)
    requires Turn(w, 2, 1, HELD, twice)
    ensures IsStep(w, W.Obtain(S.Exclusive), n, twice) && Turn(n, 2, 1, WAITED, twice)
  {
    SemStates(twice);
    CanCall(w, 2, 1, HELD, W.Obtain(S.Exclusive), twice);
    n := W.Next(w, W.Obtain(S.Exclusive), twice, true);
    ObtainParts(w, n, twice);
    ClearedTurn(w.kernel, 2, 1);
    assert 2 in WAITED.blocked;
    hide W.Agree, W.Enabled, W.Next, S.Next, S.Enabled, T.Inv, T.Next, TakingTurns, Alone, W.UpToWait;
  }

  lemma FallsAsleep(w: W.Whole, twice: bool) returns (n: W.Whole)
    requires Turn(w, 2, 1, WAITED, twice)
    ensures IsStep(w, W.Call(T.Sleep({W.SEM})), n, twice) && Asleep(n, 1, 2, WAITED, twice)
  {
    assert 2 in w.sem.blocked && 2 !in w.sem.signalled;
    SleepTurn(w.kernel, 2, 1);
    n := W.Next(w, W.Call(T.Sleep({W.SEM})), twice, true);
    W.NextKeeps(w, W.Call(T.Sleep({W.SEM})), twice, true);
    hide T.Inv, S.Inv, T.Next, W.Agree;
  }

  lemma HandsItOver(w: W.Whole, twice: bool) returns (n: W.Whole)
    requires Asleep(w, 1, 2, WAITED, twice)
    ensures IsStep(w, W.Release(0), n, twice) && Turn(n, 1, 2, HANDED, twice)
  {
    SemStates(twice);
    CanRelease(w, twice);
    n := W.Next(w, W.Release(0), twice, true);
    W.NextKeeps(w, W.Release(0), twice, true);
    W.SemSteps(w, W.Release(0), twice, true);
    W.KernelOfRelease(w, 0, twice, true);
    WokenTurn(w.kernel, 1, 2);
    hide W.Agree, W.Enabled, W.Next, S.Next, S.Enabled, T.Inv, T.Next, TakingTurns, Alone, W.HandsOver;
  }

  lemma CanRelease(w: W.Whole, twice: bool)
    requires Asleep(w, 1, 2, WAITED, twice)
    ensures W.Enabled(w, W.Release(0)) && W.HandsOver(w.sem, 0)
  {
    SemStates(twice);
    hide W.Agree, T.Inv, S.Enabled, S.Next, W.HandsOver;
  }

  lemma Resumes(w: W.Whole, twice: bool) returns (n: W.Whole)
    requires Turn(w, 2, 1, HANDED, twice)
    ensures IsStep(w, W.Resume, n, twice) && n.sem.holds == [S.Hold(2, S.Exclusive)]
  {
    CanResume(w, twice);
    hide W.Agree, W.Enabled, W.Next, S.Next, S.Enabled, T.Inv, T.Next, TakingTurns, Alone;
    SemStates(twice);
    n := W.Next(w, W.Resume, twice, true);
    W.SemSteps(w, W.Resume, twice, true);
  }

  lemma CanResume(w: W.Whole, twice: bool)
    requires Turn(w, 2, 1, HANDED, twice)
    ensures W.Enabled(w, W.Resume)
  {
    W.ReturnsIffHandedOver(w, twice);
    hide T.Inv, W.Agree, W.Enabled;
  }

  lemma CanCall(w: W.Whole, t: nat, u: nat, s: S.Sem, e: W.Event, twice: bool)
    requires Turn(w, t, u, s, twice) && e.Obtain? && S.Enabled(s, S.Obtain(t, e.mode))
    ensures W.Enabled(w, e)
  {
    hide W.Agree, T.Inv, S.Enabled;
  }

  lemma ObtainParts(w: W.Whole, n: W.Whole, twice: bool)
    requires W.Agree(w, twice) && W.Enabled(w, W.Obtain(S.Exclusive))
    requires n == W.Next(w, W.Obtain(S.Exclusive), twice, true)
    ensures W.Agree(n, twice) && n.sem == S.Next(w.sem, S.Obtain(W.Me(w), S.Exclusive), twice)
    ensures n.kernel == if W.Me(w) in n.sem.blocked then W.UpToWait(w.kernel, true) else w.kernel
  {
    W.NextKeeps(w, W.Obtain(S.Exclusive), twice, true);
    hide T.Inv, S.Inv, S.Next, W.UpToWait;
  }

  lemma Start(twice: bool) returns (w: W.Whole)
    ensures Turn(w, 1, 2, S.Init(), twice) && w.suspended == map[] && TakingTurns(w.kernel, 1, 2)
  {
    var k := TurnsTaken();
    w := W.Whole(k, S.Init(), map[]);
  }

  lemma Steps(ws: seq<W.Whole>, es: seq<W.Event>, twice: bool)
    requires |ws| == |es| + 1 && Turn(ws[0], 1, 2, S.Init(), twice) && ws[0].suspended == map[]
    requires forall i {:trigger es[i]} :: 0 <= i < |es| ==> IsStep(ws[i], es[i], ws[i + 1], twice)
    ensures W.IsRun(ws, es, twice, true)
  {
    assert T.Inv(ws[0].kernel);
    hide W.Agree, W.Enabled, W.Next, T.Inv;
  }

  /** Task 1 obtains the semaphore, task 2 asks for it and falls asleep, task 1 releases it, and
      task 2 wakes and holds it. */
  lemma HandOverRun(twice: bool) returns (ws: seq<W.Whole>, es: seq<W.Event>)
    ensures es == [W.Obtain(S.Exclusive), W.Call(T.Schedule), W.Obtain(S.Exclusive), W.Call(T.Sleep({W.SEM})),
                   W.Release(0), W.Call(T.Schedule), W.Resume]
    ensures |ws| == 8 && W.IsRun(ws, es, twice, true) && TakingTurns(ws[0].kernel, 1, 2)
    ensures ws[7].sem.holds == [S.Hold(2, S.Exclusive)]
  {
    hide *;
    var w0 := Start(twice);
    var w1 := FirstObtain(w0, twice);
    var w2 := Tick(w1, 1, 2, HELD, twice);
    var w3 := SecondObtain(w2, twice);
    var w4 := FallsAsleep(w3, twice);
    var w5 := HandsItOver(w4, twice);
    var w6 := Tick(w5, 1, 2, HANDED, twice);
    var w7 := Resumes(w6, twice);
    ws := [w0, w1, w2, w3, w4, w5, w6, w7];
    es := [W.Obtain(S.Exclusive), W.Call(T.Schedule), W.Obtain(S.Exclusive), W.Call(T.Sleep({W.SEM})),
           W.Release(0), W.Call(T.Schedule), W.Resume];
    Steps(ws, es, twice);
  }
}
