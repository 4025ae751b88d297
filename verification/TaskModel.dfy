/** Tasks, scheduling and signals (schedule.c, messages.c, tasks.c) as a state machine.

    A state holds the task records, the running task and the two queues as sequences; class
    `Kernel` implements the same steps on linked nodes.  One event is one kernel call or
    one timer tick; what the code does between two accesses to SigRecvd is treated
    separately, in `TaskProofs`.  `lib_Wait` is two events: `Sleep` (nothing received: go to sleep, atomic)
    and `Collect` (something received: take it and clear it). */
module TaskModel {
  import opened Options
  import opened Lists

  /** A 32-bit signal mask, as the set of its bits: `&`, `|` and `& ~` are `*`, `+` and `-`. */
  type SigNum = n: int | 0 <= n < 32
  type Mask = set<SigNum>

  /** `SysBase.TDNestCnt` is signed, the copy saved in a task is unsigned. */
  type Int8 = x: int | -128 <= x <= 127
  type UInt8 = x: int | 0 <= x <= 255

  function ToU8(x: Int8): UInt8 { if x < 0 then x + 256 else x }
  function ToI8(x: UInt8): Int8 { if x > 127 then x - 256 else x }
  function Wrap8(x: int): Int8
    requires -129 <= x <= 128
  {
    if x > 127 then x - 256 else if x < -128 then x + 256 else x
  }

  datatype TaskState = RUN | READY | WAIT | REMOVED

  datatype Tcb = Tcb(pri: Priority, state: TaskState, tdNest: UInt8,
                     sigAlloc: Mask, sigWait: Mask, sigRecvd: Mask, sigExcept: Mask)

  datatype State<T(==)> = State(tcb: map<T, Tcb>, thisTask: Option<T>, ready: seq<T>, wait: seq<T>, tdNest: Int8)

  datatype Event<T> =
    | AddTask(task: T, pri: Priority)
    | Schedule
    | Sleep(sigs: Mask)
    | Collect(sigs: Mask)
    | Signal(task: T, mask: Mask)
    | SetSignal(newSignals: Mask, sigs: Mask)
    | AllocSignal(num: int)
    | FreeSignal(num: int)
    | Forbid
    | Permit
    | Exit

  // ----- the steps

  function PrisOf<T>(tcb: map<T, Tcb>, q: seq<T>): (ps: seq<int>)
    requires forall t <- q :: t in tcb
    ensures |ps| == |q| && forall i :: 0 <= i < |q| ==> ps[i] == tcb[q[i]].pri
  {
    seq(|q|, i requires 0 <= i < |q| => tcb[q[i]].pri)
  }

  /** Enqueue on TaskReady. */
  function Enqueued<T>(tcb: map<T, Tcb>, q: seq<T>, t: T): seq<T>
    requires t in tcb && forall u <- q :: u in tcb
  {
    InsertedAt(q, EnqueueIndex(PrisOf(tcb, q), tcb[t].pri), t)
  }

  /** Every task on a queue has a record, and `this` too. */
  predicate Closed<T(==)>(s: State<T>) {
    && (forall t <- s.ready :: t in s.tcb)
    && (forall t <- s.wait :: t in s.tcb)
    && (s.thisTask.Some? ==> s.thisTask.value in s.tcb)
  }

  /** Task `t`, with record `r`, goes onto TaskReady. */
  function MakeReady<T(==)>(s: State<T>, t: T, r: Tcb): State<T>
    requires forall u <- s.ready :: u in s.tcb
  {
    s.(tcb := s.tcb[t := r], ready := Enqueued(s.tcb[t := r], s.ready, t))
  }

  /** The first half of lib_Dispatch: what becomes of the task that was running. */
  function Retire<T(==)>(s: State<T>): State<T>
    requires Closed(s)
  {
    if s.thisTask == None then s
    else
      var t := s.thisTask.value;
      if s.tcb[t].state == RUN then
        MakeReady(s.(thisTask := None), t, s.tcb[t].(state := READY, tdNest := ToU8(s.tdNest)))
      else
        s.(tcb := s.tcb - {t}, thisTask := None)
  }

  /** The second half: the head of TaskReady runs. */
  function Launch<T(==)>(s: State<T>): State<T>
    requires s.ready != [] && s.ready[0] in s.tcb
  {
    var t := s.ready[0];
    State(s.tcb[t := s.tcb[t].(state := RUN)], Some(t), s.ready[1..], s.wait, ToI8(s.tcb[t].tdNest))
  }

  /** lib_Schedule: nothing happens under Forbid or while no task is ready. */
  function Scheduled<T(==)>(s: State<T>): State<T>
    requires Closed(s) && (s.thisTask.Some? ==> s.thisTask.value !in s.ready)
  {
    if s.tdNest >= 0 || s.ready == [] then s else Launch(Retire(s))
  }

  predicate Running<T(==)>(s: State<T>) {
    s.thisTask.Some? && s.thisTask.value in s.tcb && s.tcb[s.thisTask.value].state == RUN
  }

  /** lib_AllocSignal starts its search at 31 for an argument outside 0..31. */
  function SearchFrom(num: int): int { if num < 0 || num > 31 then 31 else num }

  /** The highest free signal at or below `n`, or -1. */
  function FreeBelow(alloc: Mask, n: int): (r: int)
    requires -1 <= n < 32
    ensures -1 <= r <= n
    ensures r >= 0 ==> r !in alloc
    ensures forall i :: r < i <= n ==> i in alloc
    decreases n
  {
    if n < 0 then -1 else if n !in alloc then n else FreeBelow(alloc, n - 1)
  }

  /** What the caller of an event must have established; the model's scheduling assumptions
      (a task may block only while switching is possible) are the last line of `Sleep`. */
  predicate Enabled<T(==)>(s: State<T>, e: Event<T>)
    requires Closed(s)
  {
    match e
    case AddTask(t, _) => t !in s.tcb
    case Schedule => true
    case Sleep(sigs) =>
      && Running(s) && s.tcb[s.thisTask.value].sigRecvd * sigs == {}
      && s.tdNest < 0 && s.ready != []
    case Collect(sigs) => Running(s) && s.tcb[s.thisTask.value].sigRecvd * sigs != {}
    case Signal(t, _) => t in s.tcb
    case FreeSignal(num) => Running(s) && -1 <= num < 32
    case Forbid | Permit => true  // the startup code calls Permit before any task runs
    case _ => Running(s)
  }

  /** `(old&~signalSet)|(signalSet&newSignals)` */
  function AfterSet(recvd: Mask, newSignals: Mask, sigs: Mask): Mask {
    (recvd - sigs) + (sigs * newSignals)
  }

  function UpdateThis<T(==)>(s: State<T>, r: Tcb): State<T>
    requires s.thisTask.Some?
  {
    s.(tcb := s.tcb[s.thisTask.value := r])
  }

  function Next<T(==)>(s: State<T>, e: Event<T>): State<T>
    requires Inv(s) && Enabled(s, e)
  {
    match e
    case AddTask(t, pri) =>
      MakeReady(s, t, Tcb(pri, READY, 255, {}, {}, {}, {}))
    case Schedule => Scheduled(s)
    case Sleep(sigs) => AfterSleep(s, sigs)
    case Collect(sigs) =>
      var r := s.tcb[s.thisTask.value];
      UpdateThis(s, r.(sigRecvd := r.sigRecvd - sigs))
    case Signal(t, mask) => Signalled(s, t, mask)
    case SetSignal(newSignals, sigs) =>
      var r := s.tcb[s.thisTask.value];
      UpdateThis(s, r.(sigRecvd := AfterSet(r.sigRecvd, newSignals, sigs)))
    case AllocSignal(num) =>
      var r := s.tcb[s.thisTask.value];
      var n := FreeBelow(r.sigAlloc, SearchFrom(num));
      if n < 0 then s
      else UpdateThis(s, r.(sigAlloc := r.sigAlloc + {n}, sigRecvd := r.sigRecvd - {n},
                            sigExcept := r.sigExcept - {n}, sigWait := r.sigWait - {n}))
    case FreeSignal(num) =>
      var r := s.tcb[s.thisTask.value];
      if num == -1 then s else UpdateThis(s, r.(sigAlloc := r.sigAlloc - {num}))
    case Forbid => s.(tdNest := Wrap8(s.tdNest + 1))
    case Permit => s.(tdNest := Wrap8(s.tdNest - 1))
    case Exit => Scheduled(UpdateThis(s, s.tcb[s.thisTask.value].(state := REMOVED)))
  }

  /** WaitTask up to its Schedule: the task goes to the head of TaskWait. */
  function Parked<T(==)>(s: State<T>, sigs: Mask): State<T>
    requires Closed(s) && Running(s)
  {
    var t := s.thisTask.value;
    var r := s.tcb[t].(state := WAIT, tdNest := ToU8(s.tdNest), sigWait := sigs);
    s.(tcb := s.tcb[t := r], wait := [t] + s.wait, thisTask := None)
  }

  /** WaitTask: Schedule is to switch to another task. */
  function AfterSleep<T(==)>(s: State<T>, sigs: Mask): State<T>
    requires Closed(s) && Running(s)
  {
    Scheduled(Parked(s, sigs))
  }

  /** WakeupTask: any signal makes a waiting task ready, whatever it waits for. */
  function Signalled<T(==)>(s: State<T>, t: T, mask: Mask): State<T>
    requires Closed(s) && t in s.tcb && (s.tcb[t].state == WAIT ==> t in s.wait)
  {
    var r := s.tcb[t].(sigRecvd := s.tcb[t].sigRecvd + mask);
    if r.state == WAIT then
      MakeReady(s.(wait := RemovedAt(s.wait, IndexOf(s.wait, t))), t, r.(state := READY))
    else
      s.(tcb := s.tcb[t := r])
  }

  // ----- the invariant

  /** Every live task is in exactly one place, and its State says which. */
  ghost predicate Placed<T>(s: State<T>) {
    && Closed(s)
    && Distinct(s.ready) && Distinct(s.wait)
    && (forall t <- s.ready :: s.tcb[t].state == READY)
    && (forall t <- s.wait :: s.tcb[t].state == WAIT)
    && (s.thisTask.Some? ==> s.tcb[s.thisTask.value].state in {RUN, REMOVED})
    && (forall t <- s.tcb :: match s.tcb[t].state
                             case READY => t in s.ready
                             case WAIT => t in s.wait
                             case _ => s.thisTask == Some(t))
  }

  /** No wakeup is lost: no task sleeps on a signal it has already received. */
  ghost predicate NoneLost<T>(s: State<T>) {
    forall t <- s.tcb :: s.tcb[t].state == WAIT ==> s.tcb[t].sigRecvd * s.tcb[t].sigWait == {}
  }

  /** A task that is not running was switched away from while switching was allowed. */
  ghost predicate Switchable<T>(s: State<T>) {
    forall t <- s.tcb :: s.tcb[t].state in {READY, WAIT} ==> ToI8(s.tcb[t].tdNest) < 0
  }

  ghost predicate Ordered<T>(s: State<T>)
    requires Closed(s)
  {
    NonIncreasing(PrisOf(s.tcb, s.ready))
  }

  ghost predicate Inv<T>(s: State<T>) {
    Placed(s) && Ordered(s) && NoneLost(s) && Switchable(s)
  }

  lemma InsertedMembers<T>(q: seq<T>, k: nat, t: T)
    requires k <= |q| && t !in q && Distinct(q)
    ensures Distinct(InsertedAt(q, k, t))
    ensures forall u :: u in InsertedAt(q, k, t) <==> u in q || u == t
  {
    assert q == q[..k] + q[k..];
  }

  lemma EnqueuedKeeps<T>(tcb: map<T, Tcb>, q: seq<T>, t: T)
    requires t in tcb && (forall u <- q :: u in tcb) && t !in q
    requires Distinct(q) && NonIncreasing(PrisOf(tcb, q))
    ensures Distinct(Enqueued(tcb, q, t))
    ensures forall u :: u in Enqueued(tcb, q, t) <==> u in q || u == t
    ensures NonIncreasing(PrisOf(tcb, Enqueued(tcb, q, t)))
  {
    var ps, k := PrisOf(tcb, q), EnqueueIndex(PrisOf(tcb, q), tcb[t].pri);
    InsertedMembers(q, k, t);
    EnqueueIsStable(ps, tcb[t].pri, k);
    assert PrisOf(tcb, Enqueued(tcb, q, t)) == InsertedAt(ps, k, tcb[t].pri);
  }
}
