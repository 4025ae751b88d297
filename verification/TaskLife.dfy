/** Which tasks there are and what becomes of each: by which calls a task is added, sleeps, wakes,
    runs and is destroyed, and that a task which has ended is gone. */
module TaskLife {
  import opened Options
  import opened TaskModel
  import opened TaskProofs
  import opened NestCounts

  /** The event takes the processor from the running task: it calls lib_Schedule, which dispatches. */
  ghost predicate Switches<T>(s: State<T>, e: Event<T>) {
    (e.Schedule? || e.Sleep? || e.Exit?) && s.tdNest < 0 && s.ready != []
  }

  /** The task function has returned (TaskRun has set REMOVED), but nothing has been dispatched since. */
  ghost predicate Ended<T>(s: State<T>, t: T) {
    s.thisTask == Some(t) && t in s.tcb && s.tcb[t].state == REMOVED
  }

  /** The event dispatches away from a task that has ended: before it, or by it. */
  ghost predicate Destroys<T>(s: State<T>, e: Event<T>, t: T) {
    Switches(s, e) && s.thisTask == Some(t) && (e.Exit? || Ended(s, t))
  }

  ghost predicate Adds<T>(e: Event<T>, t: T) { e.AddTask? && e.task == t }

  // ----- one step

  lemma LivingAfterScheduled<T>(s: State<T>, t: T)
    requires Inv(s) && s.tdNest < 0 && s.ready != []
    ensures t in Scheduled(s).tcb <==> t in s.tcb && !Ended(s, t)
  {
    RetireKeeps(s);
    if t in s.tcb { RecordsAfterScheduled(s, t); }
    RecordsAfterLaunch(Retire(s), t);
    assert Scheduled(s) == Launch(Retire(s));
    hide Ordered, NoneLost, Switchable, Enqueued, Launch, Scheduled;
  }

  /** The records that there are after an event: no call creates a task but AddTask, and a dispatch
      destroys the task that ran exactly if it has ended, and no other. */
  lemma LivingStep<T>(s: State<T>, e: Event<T>, t: T)
    requires Inv(s) && Enabled(s, e)
    ensures t in Next(s, e).tcb <==> Adds(e, t) || (t in s.tcb && !Destroys(s, e, t))
  {
    match e
    case Schedule => if Switches(s, e) { LivingAfterScheduled(s, t); }
    case Sleep(sigs) =>
      FellAsleep(s, sigs);
      LivingAfterScheduled(Parked(s, sigs), t);
    case Exit =>
      var u := s.thisTask.value;
      var r := s.tcb[u].(state := REMOVED);
      RecordKeeps(s, u, r);
      if Switches(s, e) { LivingAfterScheduled(UpdateThis(s, r), t); }
    case _ =>
  }

  lemma AsleepAfterScheduled<T>(s: State<T>, t: T)
    requires Inv(s) && t in s.tcb && t in Scheduled(s).tcb
    ensures Scheduled(s).tcb[t].state == WAIT <==> s.tcb[t].state == WAIT
    ensures Scheduled(s).tcb[t].pri == s.tcb[t].pri
  {
    if s.tdNest < 0 && s.ready != [] {
      RetireKeeps(s);
      var m := Retire(s);
      assert Scheduled(s) == Launch(m) && m.ready[0] in m.tcb && m.tcb[m.ready[0]].state == READY;
      hide Ordered, NoneLost, Switchable, Enqueued, Launch, Scheduled;
      RecordsAfterLaunch(m, t);
      AsleepAfterRetire(s, t);
      AsleepAfterLaunch(m, t);
    }
  }

  lemma AsleepAfterRetire<T>(s: State<T>, t: T)
    requires Inv(s) && t in s.tcb && t in Retire(s).tcb
    ensures Retire(s).tcb[t].state == WAIT <==> s.tcb[t].state == WAIT
    ensures Retire(s).tcb[t].pri == s.tcb[t].pri
  {
    hide Ordered, NoneLost, Switchable, Enqueued;
  }

  lemma AsleepAfterLaunch<T>(s: State<T>, t: T)
    requires s.ready != [] && s.ready[0] in s.tcb && s.tcb[s.ready[0]].state == READY && t in s.tcb
    ensures t in Launch(s).tcb && Launch(s).tcb[t].pri == s.tcb[t].pri
    ensures Launch(s).tcb[t].state == WAIT <==> s.tcb[t].state == WAIT
  {
  }

  /** A task falls asleep by its own call only, and any Signal to it wakes it, whatever it waits for:
      nothing else does.  Its priority is that of its AddTask for ever. */
  lemma AsleepStep<T>(s: State<T>, e: Event<T>, t: T)
    requires Inv(s) && Enabled(s, e) && t in s.tcb && t in Next(s, e).tcb
    ensures var n := Next(s, e);
            && (n.tcb[t].state == WAIT <==>
                  (e.Sleep? && s.thisTask == Some(t)) || (s.tcb[t].state == WAIT && !(e.Signal? && e.task == t)))
            && n.tcb[t].pri == s.tcb[t].pri
  {
    match e
    case Schedule => AsleepAfterScheduled(s, t);
    case Sleep(sigs) =>
      FellAsleep(s, sigs);
      AsleepAfterScheduled(Parked(s, sigs), t);
    case Exit =>
      var u := s.thisTask.value;
      var r := s.tcb[u].(state := REMOVED);
      RecordKeeps(s, u, r);
      AsleepAfterScheduled(UpdateThis(s, r), t);
    case _ => hide Ordered, NoneLost, Switchable, Enqueued;
  }

  /** A new task is ready, with the priority asked for. */
  lemma AddedStep<T>(s: State<T>, e: Event<T>, t: T)
    requires Inv(s) && Enabled(s, e) && Adds(e, t)
    ensures t !in s.tcb && t in Next(s, e).tcb && t in Next(s, e).ready && Next(s, e).tcb[t].pri == e.pri
  {
    NextKeeps(s, e);
  }

  lemma RunsAfterScheduled<T>(s: State<T>)
    requires Inv(s) && s.tdNest < 0 && s.ready != []
    ensures var n := Scheduled(s);
            && n.thisTask.Some? && n.thisTask.value in n.tcb && n.tcb[n.thisTask.value].state == RUN
            && forall t <- s.ready :: t in n.tcb && n.tcb[n.thisTask.value].pri >= n.tcb[t].pri
  {
    DispatchPicksMaximal(s);
    ScheduledKeeps(s);
    forall t <- s.ready ensures t in Scheduled(s).tcb && Scheduled(s).tcb[t].pri == s.tcb[t].pri {
      LivingAfterScheduled(s, t);
      AsleepAfterScheduled(s, t);
    }
    assert Running(Scheduled(s)) by { RetireKeeps(s); }
  }

  lemma RunsAfterSwitch<T>(s: State<T>, e: Event<T>) returns (m: State<T>)
    requires Inv(s) && Enabled(s, e) && Switches(s, e)
    ensures Inv(m) && m.tdNest < 0 && m.ready == s.ready && Next(s, e) == Scheduled(m)
  {
    match e
    case Schedule => m := s;
    case Sleep(sigs) =>
      FellAsleep(s, sigs);
      m := Parked(s, sigs);
    case Exit =>
      var u := s.thisTask.value;
      var r := s.tcb[u].(state := REMOVED);
      RecordKeeps(s, u, r);
      m := UpdateThis(s, r);
  }

  /** Who runs: only an event that switches gives the processor to another task, a ready one of maximal
      priority or the same one again; otherwise the task stays, ended or not. */
  lemma RunningStep<T>(s: State<T>, e: Event<T>)
    requires Inv(s) && Enabled(s, e)
    ensures var n := Next(s, e);
            if Switches(s, e) then
              Running(n) && forall t <- s.ready :: t in n.tcb && n.tcb[n.thisTask.value].pri >= n.tcb[t].pri
            else
              n.thisTask == s.thisTask && (!e.Forbid? && !e.Permit? ==> n.tdNest == s.tdNest)
  {
    if Switches(s, e) {
      var m := RunsAfterSwitch(s, e);
      hide *;
      RunsAfterScheduled(m);
      RunningIs(Next(s, e));
    }
  }

  lemma RunningIs<T>(s: State<T>)
    ensures Running(s) <==> s.thisTask.Some? && s.thisTask.value in s.tcb && s.tcb[s.thisTask.value].state == RUN
  {
  }

  lemma EndedStep<T>(s: State<T>, e: Event<T>, t: T)
    requires Inv(s) && Enabled(s, e)
    ensures Ended(Next(s, e), t) <==> !Switches(s, e) && ((e.Exit? && s.thisTask == Some(t)) || Ended(s, t))
  {
    RunningStep(s, e);
    if !Switches(s, e) { hide Ordered, NoneLost, Switchable, Enqueued; }
  }

  // ----- whole runs

  /** The task has no record, so it is on no queue and does not run. */
  ghost predicate Gone<T>(s: State<T>, t: T) {
    t !in s.tcb && t !in s.ready && t !in s.wait && s.thisTask != Some(t)
  }

  lemma NoRecordIsGone<T>(s: State<T>, t: T)
    requires Inv(s)
    ensures Gone(s, t) <==> t !in s.tcb
  {
  }

  lemma StaysGone<T>(s: State<T>, e: Event<T>, t: T)
    requires Inv(s) && Enabled(s, e) && Inv(Next(s, e)) && Gone(s, t) && !Adds(e, t)
    ensures Gone(Next(s, e), t)
  {
    LivingStep(s, e, t);
    NoRecordIsGone(Next(s, e), t);
    hide Inv, Enabled, Next, Destroys;
  }

  lemma EndsOrGoes<T>(s: State<T>)
    requires Inv(s) && Running(s)
    ensures var t, n := s.thisTask.value, Next(s, Exit);
            if Switches(s, Event<T>.Exit) then Gone(n, t) else Ended(n, t)
  {
    LivingStep(s, Exit, s.thisTask.value);
    EndedStep(s, Exit, s.thisTask.value);
    NextKeeps(s, Exit);
    NoRecordIsGone(Next(s, Exit), s.thisTask.value);
    hide Inv, Next, Gone, Ended;
  }

  /** A task that is gone is gone until it is added again. */
  lemma {:induction false} GoneUntilAdded<T>(ss: seq<State<T>>, es: seq<Event<T>>, t: T, i: nat, j: nat)
    requires |ss| == |es| + 1 && i <= j <= |es| && IsRun(ss, es) && Gone(ss[i], t)
    requires forall k :: i <= k < j ==> !Adds(es[k], t)
    ensures Gone(ss[j], t)
    decreases j
  {
    hide *;
    if i < j {
      GoneUntilAdded(ss, es, t, i, j - 1);
      RunKeeps(ss, es, j - 1);
      RunKeeps(ss, es, j);
      StaysGone(ss[j - 1], es[j - 1], t);
    }
  }

  lemma {:induction false} EndedUntilSwitch<T>(ss: seq<State<T>>, es: seq<Event<T>>, t: T, i: nat, j: nat)
    requires |ss| == |es| + 1 && i < j <= |es| && IsRun(ss, es) && es[i].Exit? && ss[i].thisTask == Some(t)
    requires forall k :: i <= k < j ==> !Switches(ss[k], es[k])
    ensures Ended(ss[j], t)
    decreases j
  {
    hide *;
    RunKeeps(ss, es, j - 1);
    assert !Switches(ss[j - 1], es[j - 1]);
    if i + 1 < j { EndedUntilSwitch(ss, es, t, i, j - 1); }
    EndedStep(ss[j - 1], es[j - 1], t);
  }

  /** In every run: a task whose function has returned stays the running task, ended, until the first
      event that dispatches (its own Schedule, if that can), and from then on it is gone: on neither
      queue, not running, without a record, until somebody adds it again. */
  lemma EndedTaskGoes<T>(ss: seq<State<T>>, es: seq<Event<T>>, t: T, i: nat, d: nat, j: nat)
    requires |ss| == |es| + 1 && i <= d < j <= |es| && IsRun(ss, es)
    requires es[i].Exit? && ss[i].thisTask == Some(t)
    requires Switches(ss[d], es[d]) && forall k :: i <= k < d ==> !Switches(ss[k], es[k])
    requires forall k :: d < k < j ==> !Adds(es[k], t)
    ensures forall k :: i < k <= d ==> Ended(ss[k], t)
    ensures Gone(ss[j], t)
  {
    hide *;
    forall k | i < k <= d ensures Ended(ss[k], t) { EndedUntilSwitch(ss, es, t, i, k); }
    DestroyedAt(ss, es, t, d);
    GoneUntilAdded(ss, es, t, d + 1, j);
  }

  lemma DestroyedAt<T>(ss: seq<State<T>>, es: seq<Event<T>>, t: T, d: nat)
    requires |ss| == |es| + 1 && d < |es| && IsRun(ss, es) && Switches(ss[d], es[d])
    requires Ended(ss[d], t) || (es[d].Exit? && ss[d].thisTask == Some(t))
    ensures Gone(ss[d + 1], t)
  {
    RunKeeps(ss, es, d);
    RunKeeps(ss, es, d + 1);
    assert Destroys(ss[d], es[d], t);
    hide IsRun, Inv, Enabled, Next, Switches;
    LivingStep(ss[d], es[d], t);
    NoRecordIsGone(ss[d + 1], t);
  }

  /** The Schedule at the end of TaskRun is not expected to return, but it does under Forbid.  Unless an
      interrupt changes TDNestCnt, the ended task then keeps the processor for ever. */
  lemma {:induction false} EndedUnderForbid<T>(ss: seq<State<T>>, es: seq<Event<T>>, t: T, i: nat, j: nat)
    requires |ss| == |es| + 1 && i < j <= |es| && IsRun(ss, es)
    requires es[i].Exit? && ss[i].thisTask == Some(t) && ss[i].tdNest >= 0
    requires forall k :: i <= k < j ==> !es[k].Forbid? && !es[k].Permit?
    ensures Ended(ss[j], t) && ss[j].tdNest >= 0
    decreases j
  {
    hide *;
    RunKeeps(ss, es, j - 1);
    if i + 1 < j { EndedUnderForbid(ss, es, t, i, j - 1); }
    NoSwitch(ss[j - 1], es[j - 1]);
    EndedStep(ss[j - 1], es[j - 1], t);
    RunningStep(ss[j - 1], es[j - 1]);
  }

  lemma NoSwitch<T>(s: State<T>, e: Event<T>)
    requires s.tdNest >= 0
    ensures !Switches(s, e)
  {
  }

  /** An instance: task 1 ends, and task 2 runs. */
  lemma EndsAndGoes() returns (s: State<nat>)
    ensures TakingTurns(s, 1, 2) && Enabled(s, Event<nat>.Exit) && Switches(s, Event<nat>.Exit)
    ensures Gone(Next(s, Event<nat>.Exit), 1) && Next(s, Event<nat>.Exit).thisTask == Some(2)
  {
    s := TurnsTaken();
  }

  /** No task goes in another way, and none goes while it runs on, waits or is ready. */
  lemma {:induction false} GoesOnlyByExit<T>(ss: seq<State<T>>, es: seq<Event<T>>, t: T, i: nat, j: nat)
    returns (k: nat)
    requires |ss| == |es| + 1 && i <= j <= |es| && IsRun(ss, es)
    requires t in ss[i].tcb && !Ended(ss[i], t) && t !in ss[j].tcb
    ensures i <= k < j && es[k].Exit? && ss[k].thisTask == Some(t)
    decreases j - i
  {
    RunKeeps(ss, es, i);
    EndedStep(ss[i], es[i], t);
    LivingStep(ss[i], es[i], t);
    hide IsRun, Inv, Enabled, Next, Switches;
    k := i;
    if !(es[i].Exit? && ss[i].thisTask == Some(t)) {
      k := GoesOnlyByExit(ss, es, t, i + 1, j);
    }
  }

  lemma LivesAt<T>(ss: seq<State<T>>, t: T, i: nat, j: nat)
    requires Lives(ss, t, i, j)
    ensures t in ss[j].tcb && (i < j ==> t in ss[j - 1].tcb && Lives(ss, t, i, j - 1))
  {
  }

  /** So while it lives, a task has the priority that it was added with. */
  lemma {:induction false} PriorityKept<T>(ss: seq<State<T>>, es: seq<Event<T>>, t: T, i: nat, j: nat)
    requires |ss| == |es| + 1 && i < j <= |es| && IsRun(ss, es) && Adds(es[i], t) && Lives(ss, t, i + 1, j)
    ensures t in ss[j].tcb && ss[j].tcb[t].pri == es[i].pri
    decreases j
  {
    hide *;
    RunKeeps(ss, es, j - 1);
    LivesAt(ss, t, i + 1, j);
    if i + 1 < j {
      PriorityKept(ss, es, t, i, j - 1);
      AsleepStep(ss[j - 1], es[j - 1], t);
    } else {
      AddedStep(ss[i], es[i], t);
    }
  }
}
