/** The exec kernel's task lists in place: every method is proved to take the step of
    `TaskModel` named in its contract, on the linked nodes of TaskReady and TaskWait. */
module Kernel {
  import opened Options
  import opened Lists
  import opened TaskModel
  import opened TaskProofs
  import TaskLife
  import SignalAlloc

  /** `struct Task` begins with its node; the record behind it repeats `ln_Pri`. */
  type Task = Node<Tcb>
  type TaskQ = Node?<Tcb>

  ghost function AsOption(t: TaskQ): Option<Task> {
    if t == null then None else Some(t)
  }

  lemma ThisTaskApart(s: State<Task>)
    requires Inv(s) && s.thisTask.Some?
    ensures s.thisTask.value in s.tcb && s.thisTask.value !in s.ready && s.thisTask.value !in s.wait
    ensures s.tcb[s.thisTask.value].state in {RUN, REMOVED}
  {
  }

  lemma WaitersApart(s: State<Task>, t: Task)
    requires Inv(s) && t in s.tcb
    ensures s.tcb[t].state == WAIT <==> t in s.wait
    ensures t in s.wait ==> t !in s.ready && t !in RemovedAt(s.wait, IndexOf(s.wait, t))
  {
    if t in s.wait { RemovedFromDistinct(s.wait, IndexOf(s.wait, t)); }
  }

  /** What Schedule needs: the invariant, unless it will not switch. */
  ghost predicate MaySchedule(s: State<Task>) {
    && Closed(s) && (s.thisTask.Some? ==> s.thisTask.value !in s.ready)
    && (s.tdNest < 0 && s.ready != [] ==> Inv(s))
  }

  lemma InvMaySchedule(s: State<Task>)
    requires Inv(s)
    ensures MaySchedule(s)
  {
    if s.thisTask.Some? { ThisTaskApart(s); }
  }

  lemma WaitFacts(s: State<Task>, sigs: Mask)
    requires Inv(s) && Running(s) && s.tcb[s.thisTask.value].sigRecvd * sigs == {}
    ensures MaySchedule(Parked(s, sigs)) && AfterSleep(s, sigs) == Scheduled(Parked(s, sigs))
    ensures if s.tdNest < 0 && s.ready != [] then Enabled(s, Sleep(sigs)) && Inv(AfterSleep(s, sigs))
            else AfterSleep(s, sigs) == Parked(s, sigs)
  {
    if s.tdNest < 0 && s.ready != [] {
      SleepKeeps(s, sigs);
      FellAsleep(s, sigs);
    }
  }

  lemma NoTasks(s: State<Task>)
    requires s == State(map[], None, [], [], 0)
    ensures Inv(s)
  {
  }

  class SysBase {
    var thisTask: TaskQ
    var tdNest: Int8
    const taskReady: List<Tcb>
    const taskWait: List<Tcb>
    /** The live tasks and their records. */
    ghost var tcb: map<Task, Tcb>

    ghost function Sentinels(): set<Task> {
      {taskReady.head, taskReady.tail, taskWait.head, taskWait.tail}
    }

    ghost function Abs(): State<Task>
      reads this, taskReady`nodes, taskWait`nodes
    {
      State(tcb, AsOption(thisTask), taskReady.nodes, taskWait.nodes, tdNest)
    }

    /** Both queues are well-formed lists of live tasks and share no node. */
    ghost predicate Wired()
      reads this, tcb.Keys, Sentinels(), taskReady, taskWait, taskReady.nodes, taskWait.nodes
    {
      && taskReady != taskWait
      && {taskReady.head, taskReady.tail} !! {taskWait.head, taskWait.tail} !! tcb.Keys
      && taskReady.Valid() && taskWait.Valid()
      && (forall t <- taskReady.nodes :: t in tcb && t !in taskWait.nodes)
      && (forall t <- taskWait.nodes :: t in tcb)
      && (forall t <- tcb :: t.rest == tcb[t] && tcb[t].pri == t.pri)
    }

    ghost predicate Valid()
      reads this, tcb.Keys, Sentinels(), taskReady, taskWait, taskReady.nodes, taskWait.nodes
    {
      Wired() && Inv(Abs())
    }

    ghost function Links(): set<Task>
      reads this`tcb
    {
      Sentinels() + tcb.Keys
    }

    ghost function Repr(): set<object>
      reads this`tcb
    {
      {this, taskReady, taskWait} + Links()
    }

    constructor ()
      ensures Valid() && fresh(Repr())
      ensures Abs() == State(map[], None, [], [], 0)
    {
      var none := Tcb(0, REMOVED, 255, {}, {}, {}, {});
      taskReady := new List(none);
      taskWait := new List(none);
      thisTask, tdNest, tcb := null, 0, map[];
      new;
      NoTasks(Abs());
      hide Inv, Linked;
    }

    /** The chains of the two queues share no node. */
    lemma ChainsApart()
      requires Wired()
      ensures forall n <- taskReady.Chain() :: n in Links() && n !in taskWait.Chain()
      ensures forall n <- taskWait.Chain() :: n in Links() && n !in taskReady.Chain()
    {
    }

    /** The records repeat the priorities of the nodes. */
    lemma SamePris()
      requires Wired()
      ensures NodePris(taskReady.nodes) == PrisOf(tcb, taskReady.nodes)
    {
    }

    // ----- the four list operations the kernel performs on its queues

    method EnqueueReady(t: Task)
      requires Wired() && t in tcb && t !in taskReady.nodes && t !in taskWait.nodes
      modifies taskReady`nodes, Links()`succ, Links()`pred
      ensures Wired()
      ensures taskReady.nodes == Enqueued(tcb, old(taskReady.nodes), t)
    {
      ChainsApart();
      SamePris();
      hide Linked, EnqueueIndex, NodePris;
      taskReady.Enqueue(t);
      taskWait.Undisturbed();
    }

    method RemHeadReady() returns (t: TaskQ)
      requires Wired() && taskReady.nodes != []
      modifies taskReady`nodes, Links()`succ, Links()`pred
      ensures Wired()
      ensures t == old(taskReady.nodes)[0] && taskReady.nodes == old(taskReady.nodes)[1..]
    {
      hide Linked;
      ghost var q := taskReady.nodes;
      ChainsApart();
      t := taskReady.RemHead();
      taskWait.Undisturbed();
      assert forall n <- taskReady.nodes :: n in q;
    }

    method AddHeadWait(t: Task)
      requires Wired() && t in tcb && t !in taskReady.nodes && t !in taskWait.nodes
      modifies taskWait`nodes, Links()`succ, Links()`pred
      ensures Wired()
      ensures taskWait.nodes == [t] + old(taskWait.nodes)
    {
      ChainsApart();
      hide Linked;
      HeadLinked(taskWait);
      taskWait.AddHead(t);
      taskReady.Undisturbed();
    }

    method RemoveWait(t: Task)
      requires Wired() && t in taskWait.nodes
      modifies taskWait`nodes, Links()`succ, Links()`pred
      ensures Wired()
      ensures taskWait.nodes == RemovedAt(old(taskWait.nodes), IndexOf(old(taskWait.nodes), t))
    {
      hide Linked;
      ghost var q := taskWait.nodes;
      ghost var k := IndexOf(q, t);
      ChainsApart();
      MemberLinked(taskWait, k);
      Remove(t, taskWait, k);
      taskReady.Undisturbed();
      assert forall n <- taskWait.nodes :: n in q;
    }

    // ----- tasks

    /** Fields of a task's record change in place. */
    method Store(t: Task, r: Tcb)
      requires Wired() && t in tcb && r.pri == tcb[t].pri
      modifies t`rest, this`tcb
      ensures Wired() && tcb == old(tcb)[t := r]
    {
      hide Linked;
      t.rest := r;
      tcb := tcb[t := r];
    }

    /** `t` is a new task: on no list, its record not yet filled in. */
    method AddTask(t: Task)
      requires Valid() && t !in tcb && t !in Sentinels()
      modifies Repr(), t
      ensures Valid() && tcb.Keys == old(tcb.Keys) + {t}
      ensures Abs() == Next(old(Abs()), Event.AddTask(t, t.pri))
    {
      hide Linked, Inv, Enqueued;
      NextKeeps(Abs(), Event.AddTask(t, t.pri));
      t.rest := Tcb(t.pri, READY, 255, {}, {}, {}, {});
      tcb := tcb[t := t.rest];
      EnqueueReady(t);
    }

    method MakeTaskReady(t: Task)
      requires Wired() && t in tcb && t !in taskReady.nodes && t !in taskWait.nodes
      modifies t`rest, this`tcb, taskReady`nodes, Links()`succ, Links()`pred
      ensures Wired()
      ensures tcb == old(tcb)[t := old(tcb[t]).(state := READY, tdNest := ToU8(tdNest))]
      ensures taskReady.nodes == Enqueued(tcb, old(taskReady.nodes), t)
    {
      hide Linked;
      Store(t, t.rest.(state := READY, tdNest := ToU8(tdNest)));
      EnqueueReady(t);
    }

    method MakeTaskRun(t: Task)
      requires Wired() && t in tcb
      modifies t`rest, this`tdNest, this`tcb
      ensures Wired()
      ensures tcb == old(tcb)[t := old(tcb[t]).(state := RUN)] && tdNest == ToI8(tcb[t].tdNest)
    {
      hide Linked;
      Store(t, t.rest.(state := RUN));
      tdNest := ToI8(t.rest.tdNest);
    }

    /** lib_Dispatch up to `Task = NULL`. */
    method RetireThisTask()
      requires Valid()
      modifies Repr()
      ensures Wired() && tcb.Keys <= old(tcb.Keys)
      ensures Abs() == Retire(old(Abs())).(thisTask := None)
      ensures forall t :: t in tcb <==> t in old(tcb) && !(t == old(thisTask) && old(t.rest.state) == REMOVED)
    {
      hide Linked, Inv;
      if thisTask != null {
        ThisTaskApart(Abs());
        if thisTask.rest.state == RUN {
          MakeTaskReady(thisTask);
        } else {
          tcb := tcb - {thisTask};  // MakeTaskDestroy frees the task
        }
        thisTask := null;
      }
    }

    /** The rest of lib_Dispatch. */
    method LaunchHead()
      requires Wired() && taskReady.nodes != []
      modifies Repr()
      ensures Wired() && tcb.Keys == old(tcb.Keys)
      ensures Abs() == Launch(old(Abs()))
    {
      hide Linked;
      var t := RemHeadReady();
      MakeTaskRun(t);
      thisTask := t;
    }

    /** lib_Dispatch. */
    method Dispatch()
      requires Valid() && tdNest < 0 && taskReady.nodes != []
      modifies Repr()
      ensures Valid() && tcb.Keys <= old(tcb.Keys)
      ensures Abs() == Scheduled(old(Abs()))
    {
      hide Linked, Inv;
      ScheduledKeeps(Abs());
      RetireKeeps(Abs());
      RetireThisTask();
      LaunchHead();
    }

    /** lib_Schedule, also called by the timer tick. */
    method Schedule()
      requires Wired() && MaySchedule(Abs())
      modifies Repr()
      ensures Wired() && tcb.Keys <= old(tcb.Keys) && (old(Inv(Abs())) ==> Inv(Abs()))
      ensures Abs() == Scheduled(old(Abs()))
    {
      hide Linked, Inv;
      var empty := taskReady.IsEmpty();
      if tdNest >= 0 || empty { return; }
      Dispatch();
    }

    /** TaskRun, when the task's function has returned. */
    method TaskExit()
      requires Valid() && Running(Abs())
      modifies Repr()
      ensures Valid() && Abs() == Next(old(Abs()), Exit)
      ensures if old(tdNest) < 0 && old(taskReady.nodes) != [] then TaskLife.Gone(Abs(), old(thisTask))
              else TaskLife.Ended(Abs(), old(thisTask))
    {
      hide Linked, Inv;
      NextKeeps(Abs(), Exit);
      TaskLife.EndsOrGoes(Abs());
      RecordKeeps(Abs(), thisTask, tcb[thisTask].(state := REMOVED));
      Store(thisTask, thisTask.rest.(state := REMOVED));
      InvMaySchedule(Abs());
      Schedule();
    }

    // ----- Wait and Signal

    /** WaitTask up to its Schedule. */
    method Park(sigs: Mask)
      requires Valid() && Running(Abs())
      modifies Repr()
      ensures Wired() && tcb.Keys == old(tcb.Keys)
      ensures Abs() == Parked(old(Abs()), sigs)
    {
      hide Linked, Inv;
      ThisTaskApart(Abs());
      var t := thisTask;
      Store(t, t.rest.(sigWait := sigs, tdNest := ToU8(tdNest), state := WAIT));
      AddHeadWait(t);
      thisTask := null;
    }

    /** WaitTask, called by lib_Wait when none of the signals has arrived.  It comes back to the task
        that is to sleep if Schedule does not switch. */
    method WaitTask(sigs: Mask)
      requires Valid() && Running(Abs()) && tcb[thisTask].sigRecvd * sigs == {}
      modifies Repr()
      ensures Wired() && tcb.Keys <= old(tcb.Keys) && Abs() == AfterSleep(old(Abs()), sigs)
      ensures if old(tdNest) < 0 && old(taskReady.nodes) != [] then Valid() && Abs() == Next(old(Abs()), Sleep(sigs))
              else Abs() == Parked(old(Abs()), sigs)
    {
      WaitFacts(Abs(), sigs);
      hide Linked, Inv, Parked, AfterSleep, MaySchedule, Scheduled;
      Park(sigs);
      Schedule();
    }

    /** Two passes of the loop in lib_Wait between which no signal arrives, when Schedule does not
        switch: the task is tied to itself at the head of TaskWait, which is no list any more.  The
        other stores of the second pass repeat those of the first. */
    method WaitTwice(sigs: Mask) returns (t: Task)
      requires Valid() && Running(Abs()) && tcb[thisTask].sigRecvd * sigs == {}
      requires tdNest >= 0 || taskReady.nodes == []
      modifies Repr()
      ensures t == old(thisTask) && taskWait.head.succ == t && t.succ == t && t.pred == t
      ensures !taskWait.Valid()
    {
      t := thisTask;
      WaitTask(sigs);
      taskWait.AddHeadAgain(t);
      TiedToItself(taskWait.head, t, taskWait.Chain());
    }

    /** The end of lib_Wait: take the awaited signals and clear them. */
    method CollectSignals(sigs: Mask) returns (rcvd: Mask)
      requires Valid() && Enabled(Abs(), Collect(sigs))
      modifies thisTask`rest, this`tcb
      ensures Valid() && Abs() == Next(old(Abs()), Collect(sigs))
      ensures rcvd == old(thisTask.rest.sigRecvd) * sigs && rcvd != {}
    {
      hide Linked, Inv;
      NextKeeps(Abs(), Collect(sigs));
      rcvd := thisTask.rest.sigRecvd * sigs;
      Store(thisTask, thisTask.rest.(sigRecvd := thisTask.rest.sigRecvd - sigs));
    }

    /** A waiting task is taken off TaskWait and put on TaskReady. */
    method Wake(t: Task, r: Tcb)
      requires Wired() && t in taskWait.nodes && t !in RemovedAt(taskWait.nodes, IndexOf(taskWait.nodes, t))
      requires r.pri == tcb[t].pri
      modifies t`rest, this`tcb, taskReady`nodes, taskWait`nodes, Links()`succ, Links()`pred
      ensures Wired() && tcb == old(tcb)[t := r]
      ensures taskWait.nodes == RemovedAt(old(taskWait.nodes), IndexOf(old(taskWait.nodes), t))
      ensures taskReady.nodes == Enqueued(tcb, old(taskReady.nodes), t)
    {
      hide Linked, Enqueued, RemovedAt, IndexOf;
      RemoveWait(t);
      Store(t, r);
      EnqueueReady(t);
    }

    /** lib_Signal, that is, WakeupTask. */
    method SignalTask(t: Task, mask: Mask)
      requires Valid() && t in tcb
      modifies Repr()
      ensures Valid() && tcb.Keys == old(tcb.Keys)
      ensures Abs() == Next(old(Abs()), Event.Signal(t, mask))
    {
      hide Linked, Inv, Enqueued;
      NextKeeps(Abs(), Event.Signal(t, mask));
      WaitersApart(Abs(), t);
      if t.rest.state == WAIT {
        Wake(t, t.rest.(state := READY, sigRecvd := t.rest.sigRecvd + mask));
      } else {
        Store(t, t.rest.(sigRecvd := t.rest.sigRecvd + mask));
      }
    }

    /** The disabled region of lib_SetSignal: `was` has been read before it began. */
    method StoreSignals(was: Mask, newSignals: Mask, sigs: Mask)
      requires Valid() && Running(Abs())
      modifies thisTask`rest, this`tcb
      ensures Valid()
      ensures Abs() == UpdateThis(old(Abs()), old(thisTask.rest).(sigRecvd := AfterSet(was, newSignals, sigs)))
    {
      RecordKeeps(Abs(), thisTask, thisTask.rest.(sigRecvd := AfterSet(was, newSignals, sigs)));
      hide Linked, Inv;
      Store(thisTask, thisTask.rest.(sigRecvd := AfterSet(was, newSignals, sigs)));
    }

    /** lib_SetSignal, when nothing comes between its two accesses to SigRecvd. */
    method SetSignals(newSignals: Mask, sigs: Mask) returns (was: Mask)
      requires Valid() && Running(Abs())
      modifies thisTask`rest, this`tcb
      ensures Valid() && Abs() == Next(old(Abs()), Event.SetSignal(newSignals, sigs))
      ensures was == old(thisTask.rest.sigRecvd)
    {
      hide Linked, Inv;
      was := thisTask.rest.sigRecvd;
      StoreSignals(was, newSignals, sigs);
    }

    method AllocateSignal(num: int) returns (r: int)
      requires Valid() && Running(Abs())
      modifies thisTask`rest, this`tcb
      ensures Valid() && Abs() == Next(old(Abs()), Event.AllocSignal(num))
      ensures SignalAlloc.RightSignal(old(thisTask.rest.sigAlloc), num, r)
      ensures tcb[thisTask].sigAlloc == old(tcb[thisTask].sigAlloc) + if r == -1 then {} else {r}
    {
      SignalAlloc.SearchIsRight(thisTask.rest.sigAlloc, num, FreeBelow(thisTask.rest.sigAlloc, SearchFrom(num)));
      hide Linked, Inv, SignalAlloc.RightSignal;
      NextKeeps(Abs(), Event.AllocSignal(num));
      var alloc := thisTask.rest.sigAlloc;
      r := SearchFrom(num);
      while r > -1
        invariant -1 <= r < 32 && FreeBelow(alloc, r) == FreeBelow(alloc, SearchFrom(num))
      {
        if r !in alloc { break; }
        r := r - 1;
      }
      if r >= 0 {
        var t := thisTask.rest;
        Store(thisTask, t.(sigAlloc := t.sigAlloc + {r}, sigRecvd := t.sigRecvd - {r},
                           sigExcept := t.sigExcept - {r}, sigWait := t.sigWait - {r}));
      }
    }

    method FreeSignals(num: int)
      requires Valid() && Enabled(Abs(), Event.FreeSignal(num))
      modifies thisTask`rest, this`tcb
      ensures Valid() && Abs() == Next(old(Abs()), Event.FreeSignal(num))
    {
      hide Linked, Inv;
      NextKeeps(Abs(), Event.FreeSignal(num));
      if num != -1 {
        Store(thisTask, thisTask.rest.(sigAlloc := thisTask.rest.sigAlloc - {num}));
      }
    }

    /** lib_Forbid and lib_Permit (ables.c). */
    method Forbid()
      requires Valid()
      modifies this`tdNest
      ensures Valid() && Abs() == Next(old(Abs()), Event.Forbid)
    {
      hide Linked, Inv;
      NextKeeps(Abs(), Event.Forbid);
      tdNest := Wrap8(tdNest + 1);
    }

    method Permit()
      requires Valid()
      modifies this`tdNest
      ensures Valid() && Abs() == Next(old(Abs()), Event.Permit)
    {
      hide Linked, Inv;
      NextKeeps(Abs(), Event.Permit);
      tdNest := Wrap8(tdNest - 1);
    }
  }
}
