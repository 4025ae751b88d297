/** What every run of the task machine keeps. */
module TaskProofs {
  import opened Options
  import opened Lists
  import opened TaskModel
  import Words

  // ----- one step

  lemma ReadyOrdered<T>(s: State<T>, t: T, r: Tcb)
    requires Placed(s) && Ordered(s) && t !in s.tcb
    ensures Closed(MakeReady(s, t, r)) && Ordered(MakeReady(s, t, r))
    ensures Distinct(MakeReady(s, t, r).ready)
    ensures forall u :: u in MakeReady(s, t, r).ready <==> u in s.ready || u == t
  {
    assert PrisOf(s.tcb[t := r], s.ready) == PrisOf(s.tcb, s.ready);
    EnqueuedKeeps(s.tcb[t := r], s.ready, t);
  }

  /** A task that is nowhere yet becomes ready. */
  lemma ReadyKeeps<T>(s: State<T>, t: T, r: Tcb)
    requires Inv(s) && t !in s.tcb && r.state == READY && ToI8(r.tdNest) < 0
    ensures Inv(MakeReady(s, t, r))
  {
    ReadyOrdered(s, t, r);
  }

  /** The running task, taken away, leaves a well-formed rest. */
  lemma Detached<T>(s: State<T>)
    requires Inv(s) && s.thisTask.Some?
    ensures Inv(s.(tcb := s.tcb - {s.thisTask.value}, thisTask := None))
  {
    assert PrisOf(s.tcb - {s.thisTask.value}, s.ready) == PrisOf(s.tcb, s.ready);
  }

  lemma RetireKeeps<T>(s: State<T>)
    requires Inv(s) && s.tdNest < 0
    ensures Inv(Retire(s)) && Retire(s).thisTask == None
    ensures s.ready != [] ==> Retire(s).ready != []
  {
    if s.thisTask.Some? {
      var t := s.thisTask.value;
      var s0 := s.(tcb := s.tcb - {t}, thisTask := None);
      Detached(s);
      if s.tcb[t].state == RUN {
        var r := s.tcb[t].(state := READY, tdNest := ToU8(s.tdNest));
        ReadyKeeps(s0, t, r);
        Reinserted(s.tcb, t, r);
        assert Retire(s) == MakeReady(s0, t, r);
      } else {
        assert Retire(s) == s0;
      }
    }
  }

  lemma LaunchPlaced<T>(s: State<T>)
    requires Placed(s) && s.thisTask == None && s.ready != []
    ensures Placed(Launch(s))
  {
    var n := Launch(s);
    assert s.ready == [s.ready[0]] + n.ready;
    forall t <- n.ready ensures t != s.ready[0] {
      var i :| 0 <= i < |n.ready| && n.ready[i] == t;
      assert s.ready[i + 1] == t;
    }
  }

  lemma LaunchKeeps<T>(s: State<T>)
    requires Inv(s) && s.thisTask == None && s.ready != []
    ensures Inv(Launch(s))
    ensures Launch(s).tdNest < 0
  {
    var n := Launch(s);
    LaunchPlaced(s);
    assert PrisOf(n.tcb, n.ready) == PrisOf(s.tcb, s.ready)[1..];
  }

  lemma ScheduledKeeps<T>(s: State<T>)
    requires Inv(s)
    ensures Inv(Scheduled(s))
  {
    if s.tdNest < 0 && s.ready != [] {
      RetireKeeps(s);
      LaunchKeeps(Retire(s));
    }
  }

  /** Signal operations and the end of a task move no task. */
  lemma RecordKeeps<T>(s: State<T>, t: T, r: Tcb)
    requires Inv(s) && t in s.tcb && s.tcb[t].state != WAIT && r.pri == s.tcb[t].pri
    requires if s.tcb[t].state == READY then r.state == READY && r.tdNest == s.tcb[t].tdNest
             else r.state in {RUN, REMOVED}
    ensures Inv(s.(tcb := s.tcb[t := r]))
  {
    assert PrisOf(s.tcb[t := r], s.ready) == PrisOf(s.tcb, s.ready);
  }

  lemma Reinserted<K, V>(m: map<K, V>, k: K, v: V)
    ensures (m - {k})[k := v] == m[k := v]
  {
  }

  /** A waiting task, taken off TaskWait, leaves a well-formed rest. */
  lemma WaiterDetached<T>(s: State<T>, t: T)
    requires Inv(s) && t in s.wait
    ensures Inv(s.(tcb := s.tcb - {t}, wait := RemovedAt(s.wait, IndexOf(s.wait, t))))
  {
    RemovedFromDistinct(s.wait, IndexOf(s.wait, t));
    assert PrisOf(s.tcb - {t}, s.ready) == PrisOf(s.tcb, s.ready);
  }

  lemma SignalledKeeps<T>(s: State<T>, t: T, mask: Mask)
    requires Inv(s) && t in s.tcb
    ensures Inv(Signalled(s, t, mask))
  {
    var r := s.tcb[t].(sigRecvd := s.tcb[t].sigRecvd + mask);
    if r.state == WAIT {
      var s0 := s.(tcb := s.tcb - {t}, wait := RemovedAt(s.wait, IndexOf(s.wait, t)));
      WaiterDetached(s, t);
      ReadyKeeps(s0, t, r.(state := READY));
      Reinserted(s.tcb, t, r.(state := READY));
      assert Signalled(s, t, mask) == MakeReady(s0, t, r.(state := READY));
    } else {
      RecordKeeps(s, t, r);
    }
  }

  lemma RemovedFromDistinct<T>(q: seq<T>, k: nat)
    requires Distinct(q) && k < |q|
    ensures Distinct(RemovedAt(q, k))
    ensures forall u :: u in RemovedAt(q, k) <==> u in q && u != q[k]
  {
    var r := RemovedAt(q, k);
    forall u | u in q && u != q[k] ensures u in r {
      var i :| 0 <= i < |q| && q[i] == u;
      assert r[if i < k then i else i - 1] == u;
    }
  }

  /** What WaitTask leaves behind before it calls Schedule. */
  lemma FellAsleep<T>(s: State<T>, sigs: Mask)
    requires Inv(s) && Enabled(s, Sleep(sigs))
    ensures Inv(Parked(s, sigs))
  {
    assert PrisOf(s.tcb, s.ready) == PrisOf(Parked(s, sigs).tcb, s.ready);
  }

  lemma SleepKeeps<T>(s: State<T>, sigs: Mask)
    requires Inv(s) && Enabled(s, Sleep(sigs))
    ensures Inv(AfterSleep(s, sigs))
  {
    FellAsleep(s, sigs);
    ScheduledKeeps(Parked(s, sigs));
  }

  /** Every kernel call and every tick keeps the invariant: each live task in exactly one
      place with a State that says which, both queues free of duplicates, TaskReady in
      priority order, and no task asleep on a signal it has received. */
  lemma NextKeeps<T>(s: State<T>, e: Event<T>)
    requires Inv(s) && Enabled(s, e)
    ensures Inv(Next(s, e))
  {
    match e
    case AddTask(t, pri) => ReadyKeeps(s, t, Tcb(pri, READY, 255, {}, {}, {}, {}));
    case Schedule => ScheduledKeeps(s);
    case Sleep(sigs) => SleepKeeps(s, sigs);
    case Signal(t, mask) => SignalledKeeps(s, t, mask);
    case Exit =>
      var r := s.tcb[s.thisTask.value].(state := REMOVED);
      RecordKeeps(s, s.thisTask.value, r);
      ScheduledKeeps(UpdateThis(s, r));
    case Forbid =>
    case Permit =>
    case _ =>
      var n := Next(s, e);
      if n != s { RecordKeeps(s, s.thisTask.value, n.tcb[s.thisTask.value]); }
  }

  // ----- whole runs

  /** A run: `Next` is defined for states that satisfy the invariant, so a step is demanded
      of those; that every state of a run does satisfy it is a theorem, not part of this. */
  ghost predicate IsRun<T>(ss: seq<State<T>>, es: seq<Event<T>>) {
    && |ss| == |es| + 1
    && Inv(ss[0])
    && (forall i {:trigger es[i]} :: 0 <= i < |es| && Inv(ss[i]) ==>
          Enabled(ss[i], es[i]) && ss[i + 1] == Next(ss[i], es[i]))
  }

  lemma {:induction false} RunKeeps<T>(ss: seq<State<T>>, es: seq<Event<T>>, i: nat)
    requires IsRun(ss, es) && i < |ss|
    ensures Inv(ss[i])
    ensures i < |es| ==> Enabled(ss[i], es[i]) && ss[i + 1] == Next(ss[i], es[i])
  {
    if i > 0 {
      RunKeeps(ss, es, i - 1);
      NextKeeps(ss[i - 1], es[i - 1]);
    }
    assert i < |es| ==> es[i] == es[i];
  }

  // ----- signals: delivered once, returned once

  ghost predicate Pending<T>(s: State<T>, t: T, b: SigNum) {
    t in s.tcb && b in s.tcb[t].sigRecvd
  }

  /** The event makes the bit pending: a Signal call, or SetSignal by the task itself. */
  ghost predicate Posted<T>(s: State<T>, e: Event<T>, t: T, b: SigNum) {
    || (e.Signal? && e.task == t && b in e.mask)
    || (e.SetSignal? && s.thisTask == Some(t) && b in e.sigs * e.newSignals)
  }

  /** Wait returns the bit to its task. */
  ghost predicate Returned<T>(s: State<T>, e: Event<T>, t: T, b: SigNum) {
    e.Collect? && s.thisTask == Some(t) && b in e.sigs && Pending(s, t, b)
  }

  /** The task itself clears the bit, with SetSignal or by allocating that signal. */
  ghost predicate Cleared<T>(s: State<T>, e: Event<T>, t: T, b: SigNum) {
    && s.thisTask == Some(t) && t in s.tcb
    && (|| (e.SetSignal? && b in e.sigs && b !in e.newSignals)
        || (e.AllocSignal? && FreeBelow(s.tcb[t].sigAlloc, SearchFrom(e.num)) == b))
  }

  lemma RecordsAfterRetire<T>(s: State<T>, t: T)
    requires Inv(s) && t in s.tcb
    ensures Retire(s).tcb.Keys <= s.tcb.Keys
    ensures t in Retire(s).tcb ==> Retire(s).tcb[t].sigRecvd == s.tcb[t].sigRecvd
    ensures t !in Retire(s).tcb ==> s.thisTask == Some(t) && s.tcb[t].state == REMOVED
  {
    hide Ordered, NoneLost, Switchable, Enqueued;
  }

  lemma RecordsAfterLaunch<T>(s: State<T>, t: T)
    requires s.ready != [] && s.ready[0] in s.tcb
    ensures Launch(s).tcb.Keys == s.tcb.Keys
    ensures t in s.tcb ==> Launch(s).tcb[t].sigRecvd == s.tcb[t].sigRecvd
  {
  }

  lemma RecordsAfterScheduled<T>(s: State<T>, t: T)
    requires Inv(s) && t in s.tcb
    ensures t in Scheduled(s).tcb ==> Scheduled(s).tcb[t].sigRecvd == s.tcb[t].sigRecvd
    ensures t !in Scheduled(s).tcb ==> s.thisTask == Some(t) && s.tcb[t].state == REMOVED
    ensures Scheduled(s).tcb.Keys <= s.tcb.Keys
  {
    if s.tdNest < 0 && s.ready != [] {
      assert Scheduled(s) == Launch(Retire(s));
      RecordsAfterRetire(s, t);
      RetireKeeps(s);
      assert Retire(s).ready[0] in Retire(s).tcb;
      hide Inv, Scheduled, Retire, Launch;
      RecordsAfterLaunch(Retire(s), t);
    }
  }

  /** One step changes a pending bit of a live task exactly as these four cases say. */
  lemma PendingStep<T>(s: State<T>, e: Event<T>, t: T, b: SigNum)
    requires Inv(s) && Enabled(s, e) && t in s.tcb && t in Next(s, e).tcb
    ensures Pending(Next(s, e), t, b) <==>
            Posted(s, e, t, b) || (Pending(s, t, b) && !Returned(s, e, t, b) && !Cleared(s, e, t, b))
  {
    match e
    case Schedule => RecordsAfterScheduled(s, t);
    case Sleep(sigs) =>
      var m := Parked(s, sigs);
      assert t in m.tcb && m.tcb[t].sigRecvd == s.tcb[t].sigRecvd;
    case Exit =>
      var u := s.thisTask.value;
      RecordKeeps(s, u, s.tcb[u].(state := REMOVED));
      RecordsAfterScheduled(UpdateThis(s, s.tcb[u].(state := REMOVED)), t);
    case _ =>
  }

  // ----- places: no task is put to sleep or removed by others

  lemma PlaceAfterRetire<T>(s: State<T>, t: T)
    requires Inv(s) && t in s.tcb && s.tcb[t].state != REMOVED
    ensures t in Retire(s).tcb && Retire(s).tcb[t].sigWait == s.tcb[t].sigWait
    ensures Retire(s).tcb[t].state in {s.tcb[t].state, READY}
  {
    hide Ordered, NoneLost, Switchable, Enqueued;
  }

  lemma PlaceAfterLaunch<T>(s: State<T>, t: T)
    requires t in s.tcb && s.ready != [] && s.ready[0] in s.tcb
    ensures t in Launch(s).tcb && Launch(s).tcb[t].sigWait == s.tcb[t].sigWait
    ensures Launch(s).tcb[t].state in {s.tcb[t].state, RUN}
  {
  }

  lemma PlaceAfterScheduled<T>(s: State<T>, t: T)
    requires Inv(s) && t in s.tcb && s.tcb[t].state != REMOVED
    ensures t in Scheduled(s).tcb && Scheduled(s).tcb[t].sigWait == s.tcb[t].sigWait
    ensures Scheduled(s).tcb[t].state in {s.tcb[t].state, READY, RUN}
  {
    if s.tdNest < 0 && s.ready != [] {
      PlaceAfterRetire(s, t);
      RetireKeeps(s);
      PlaceAfterLaunch(Retire(s), t);
    }
  }

  /** No call ends or removes another task, and a task sleeps only by its own call. */
  lemma StaysAlive<T>(s: State<T>, c: Event<T>, t: T)
    requires Inv(s) && Enabled(s, c) && t in s.tcb && s.tcb[t].state != REMOVED
    requires c.Exit? ==> s.thisTask != Some(t)
    ensures var n := Next(s, c);
            && t in n.tcb && n.tcb[t].state != REMOVED
            && (n.tcb[t].state == WAIT ==>
                  || (s.tcb[t].state == WAIT && n.tcb[t].sigWait == s.tcb[t].sigWait)
                  || (c.Sleep? && s.thisTask == Some(t) && n.tcb[t].sigWait == c.sigs))
  {
    match c
    case Schedule => PlaceAfterScheduled(s, t);
    case Sleep(sigs) =>
      FellAsleep(s, sigs);
      PlaceAfterScheduled(Parked(s, sigs), t);
    case Exit =>
      var u := s.thisTask.value;
      var r := s.tcb[u].(state := REMOVED);
      RecordKeeps(s, u, r);
      PlaceAfterScheduled(UpdateThis(s, r), t);
    case _ =>
  }

  // ----- signals over whole runs

  /** No signal is lost: from its delivery on, a bit stays pending until its task gets it
      back from Wait, clears it itself, or comes to its end. */
  lemma {:induction false} SignalAccounted<T>(ss: seq<State<T>>, es: seq<Event<T>>, t: T, b: SigNum, i: nat, j: nat)
    returns (k: nat)
    requires IsRun(ss, es) && i <= j < |ss| && Pending(ss[i], t, b)
    ensures i <= k <= j
    ensures forall m :: i <= m <= k ==> Pending(ss[m], t, b)
    ensures k == j || Returned(ss[k], es[k], t, b) || Cleared(ss[k], es[k], t, b) || t !in ss[k + 1].tcb
    decreases j - i
  {
    k := i;
    if i < j {
      RunKeeps(ss, es, i);
      if t in ss[i + 1].tcb && !Returned(ss[i], es[i], t, b) && !Cleared(ss[i], es[i], t, b) {
        PendingStep(ss[i], es[i], t, b);
        k := SignalAccounted(ss, es, t, b, i + 1, j);
      }
    }
  }

  lemma ReturnedIsCleared<T>(s: State<T>, e: Event<T>, t: T, b: SigNum)
    requires Inv(s) && Enabled(s, e) && Returned(s, e, t, b)
    ensures !Pending(Next(s, e), t, b)
  {
  }

  /** A delivered signal is returned at most once: between two Waits of a task that return
      the same bit, the bit was posted again. */
  lemma {:induction false} ReturnedAtMostOnce<T>(ss: seq<State<T>>, es: seq<Event<T>>, t: T, b: SigNum, i: nat, j: nat)
    requires IsRun(ss, es) && i < j < |es|
    requires Returned(ss[i], es[i], t, b) && Returned(ss[j], es[j], t, b)
    ensures exists k :: i < k < j && Posted(ss[k], es[k], t, b)
  {
    RunKeeps(ss, es, i);
    ReturnedIsCleared(ss[i], es[i], t, b);
    assert Pending(ss[j], t, b);
    hide *;
    if forall k :: i + 1 <= k < j ==> !Posted(ss[k], es[k], t, b) {
      NotPendingUntilPosted(ss, es, t, b, i + 1, j);
    }
  }

  lemma {:induction false} NotPendingUntilPosted<T>(ss: seq<State<T>>, es: seq<Event<T>>, t: T, b: SigNum,
                                                    i: nat, j: nat)
    requires IsRun(ss, es) && i <= j < |ss| && !Pending(ss[i], t, b)
    requires forall k :: i <= k < j ==> !Posted(ss[k], es[k], t, b)
    ensures !Pending(ss[j], t, b)
    decreases j - i
  {
    if i < j {
      RunKeeps(ss, es, i);
      if t in ss[i].tcb && t in ss[i + 1].tcb {
        PendingStep(ss[i], es[i], t, b);
      } else if t in ss[i + 1].tcb {
        NewTaskHasNothing(ss[i], es[i], t);
      }
      NotPendingUntilPosted(ss, es, t, b, i + 1, j);
    }
  }

  lemma NewTaskHasNothing<T>(s: State<T>, e: Event<T>, t: T)
    requires Inv(s) && Enabled(s, e) && t !in s.tcb && t in Next(s, e).tcb
    ensures Next(s, e).tcb[t].sigRecvd == {}
  {
  }

  // ----- the race between lib_Wait's test and its sleep

  /** Interrupts deliver `masks` to task `t`. */
  function Interrupted<T(==)>(s: State<T>, t: T, masks: seq<Mask>): State<T>
    requires Inv(s) && t in s.tcb
    ensures Inv(Interrupted(s, t, masks))
    decreases |masks|
  {
    if masks == [] then s
    else
      SignalledKeeps(s, t, masks[0]);
      Interrupted(Signalled(s, t, masks[0]), t, masks[1..])
  }

  lemma {:induction false} InterruptedRunning<T>(s: State<T>, t: T, masks: seq<Mask>)
    requires Inv(s) && s.thisTask == Some(t) && s.tcb[t].state == RUN
    ensures var n := Interrupted(s, t, masks);
            && n.thisTask == Some(t) && n.tcb.Keys == s.tcb.Keys && n.tcb[t].state == RUN
            && n.ready == s.ready && n.tdNest == s.tdNest
            && (forall b :: b in n.tcb[t].sigRecvd <==> b in s.tcb[t].sigRecvd || exists m <- masks :: b in m)
    decreases |masks|
  {
    if masks != [] {
      SignalledRunning(s, t, masks[0]);
      hide Inv, Signalled;
      InterruptedRunning(Signalled(s, t, masks[0]), t, masks[1..]);
      assert masks == [masks[0]] + masks[1..];
    }
  }

  lemma SignalledRunning<T>(s: State<T>, t: T, mask: Mask)
    requires Inv(s) && s.thisTask == Some(t) && s.tcb[t].state == RUN
    ensures var n := Signalled(s, t, mask);
            && Inv(n) && n.thisTask == Some(t) && n.tcb.Keys == s.tcb.Keys && n.tcb[t].state == RUN
            && n.ready == s.ready && n.tdNest == s.tdNest && n.tcb[t].sigRecvd == s.tcb[t].sigRecvd + mask
  {
    SignalledKeeps(s, t, mask);
    hide Inv;
  }

  // ----- signals that arrive between two accesses to SigRecvd

  /** From state `i` to state `j` of a run task `t` lives and does nothing itself: others run,
      ticks happen, and signals arrive. */
  ghost predicate Window<T>(ss: seq<State<T>>, es: seq<Event<T>>, t: T, i: nat, j: nat) {
    && i <= j <= |es| < |ss|
    && (forall k :: i <= k <= j ==> t in ss[k].tcb)
    && forall k :: i <= k < j ==> es[k].Schedule? || es[k].Signal? || ss[k].thisTask != Some(t)
  }

  lemma WindowStep<T>(s: State<T>, e: Event<T>, t: T, b: SigNum)
    requires Inv(s) && Enabled(s, e) && t in s.tcb && t in Next(s, e).tcb
    requires e.Schedule? || e.Signal? || s.thisTask != Some(t)
    ensures Pending(Next(s, e), t, b) <==> Pending(s, t, b) || Posted(s, e, t, b)
  {
    PendingStep(s, e, t, b);
    hide Inv, Enabled, Next, Pending, Posted;
  }

  lemma WindowAt<T>(ss: seq<State<T>>, es: seq<Event<T>>, t: T, i: nat, j: nat)
    requires Window(ss, es, t, i, j) && i < j
    ensures Window(ss, es, t, i, j - 1) && t in ss[j - 1].tcb && t in ss[j].tcb
    ensures es[j - 1].Schedule? || es[j - 1].Signal? || ss[j - 1].thisTask != Some(t)
  {
  }

  /** What is pending at the end is what was pending at the start and what has arrived. */
  lemma {:induction false} ReceivedInWindow<T>(ss: seq<State<T>>, es: seq<Event<T>>, t: T, b: SigNum, i: nat, j: nat)
    requires |ss| == |es| + 1 && i <= j <= |es| && IsRun(ss, es) && Window(ss, es, t, i, j)
    ensures Pending(ss[j], t, b) <==> Pending(ss[i], t, b) || exists k :: i <= k < j && Posted(ss[k], es[k], t, b)
    decreases j - i
  {
    hide *;
    if i < j {
      WindowAt(ss, es, t, i, j);
      ReceivedInWindow(ss, es, t, b, i, j - 1);
      RunKeeps(ss, es, j - 1);
      WindowStep(ss[j - 1], es[j - 1], t, b);
    }
  }

  /** The bits of `sigs` that arrive in the window were all pending at its start. */
  ghost predicate NothingNew<T>(ss: seq<State<T>>, es: seq<Event<T>>, t: T, sigs: Mask, i: nat, j: nat) {
    && i <= j <= |es| < |ss|
    && forall k, b: SigNum :: i <= k < j && b in sigs && Posted(ss[k], es[k], t, b) ==> Pending(ss[i], t, b)
  }

  function SignalsBelow(n: nat): (m: Mask)
    requires n <= 32
    ensures forall b: SigNum :: b in m <==> b < n
  {
    if n == 0 then {} else SignalsBelow(n - 1) + {n - 1}
  }

  lemma NothingNewIff<T>(ss: seq<State<T>>, es: seq<Event<T>>, t: T, sigs: Mask, i: nat, j: nat)
    requires IsRun(ss, es) && Window(ss, es, t, i, j)
    ensures NothingNew(ss, es, t, sigs, i, j) <==> ss[j].tcb[t].sigRecvd * sigs == ss[i].tcb[t].sigRecvd * sigs
  {
    var now, was := ss[j].tcb[t].sigRecvd, ss[i].tcb[t].sigRecvd;
    forall b: SigNum
      ensures b in now <==> b in was || exists k :: i <= k < j && Posted(ss[k], es[k], t, b)
    {
      ReceivedInWindow(ss, es, t, b, i, j);
    }
    hide IsRun, Posted;
    if NothingNew(ss, es, t, sigs, i, j) {
      assert forall b: SigNum :: b in now * sigs <==> b in was * sigs;
    } else {
      var k, b: SigNum :| i <= k < j && b in sigs && Posted(ss[k], es[k], t, b) && !Pending(ss[i], t, b);
      assert b in now * sigs && b !in was * sigs;
    }
  }

  lemma LaunchLosesNone<T>(s: State<T>)
    requires Closed(s) && s.ready != [] && s.tcb[s.ready[0]].state == READY
    ensures NoneLost(Launch(s)) <==> NoneLost(s)
  {
    var n := Launch(s);
    assert forall t <- s.tcb :: t in n.tcb && (t != s.ready[0] ==> n.tcb[t] == s.tcb[t]);
  }

  lemma ParkedLosesNone<T>(s: State<T>, sigs: Mask)
    requires Inv(s) && Running(s)
    ensures NoneLost(Parked(s, sigs)) <==> s.tcb[s.thisTask.value].sigRecvd * sigs == {}
  {
    var n, t := Parked(s, sigs), s.thisTask.value;
    assert n.tcb[t].sigRecvd * n.tcb[t].sigWait == s.tcb[t].sigRecvd * sigs;
    assert forall u <- s.tcb :: u in n.tcb && (u != t ==> n.tcb[u] == s.tcb[u]);
  }

  /** Going to sleep, whether or not it switches to another task. */
  lemma SleepLosesPending<T>(s: State<T>, sigs: Mask)
    requires Inv(s) && Running(s)
    ensures NoneLost(AfterSleep(s, sigs)) <==> s.tcb[s.thisTask.value].sigRecvd * sigs == {}
  {
    ParkedLosesNone(s, sigs);
    var p := Parked(s, sigs);
    if p.tdNest < 0 && p.ready != [] {
      assert p.ready[0] in s.ready;
      LaunchLosesNone(p);
    }
  }

  /** As written, lib_Wait tests SigRecvd before it disables interrupts and does not test again.
      State `i` is that of the test, state `j` that of the sleep; in between the task may be
      preempted, and others and interrupts may signal it.  The sleep loses a wakeup exactly if a
      signal it waits for arrives in between. */
  lemma WakeupLostIffSignalInWindow<T>(ss: seq<State<T>>, es: seq<Event<T>>, t: T, sigs: Mask, i: nat, j: nat)
    requires IsRun(ss, es) && Window(ss, es, t, i, j) && ss[i].tcb[t].sigRecvd * sigs == {}
    requires ss[j].thisTask == Some(t) && Running(ss[j])
    ensures Inv(ss[j])
    ensures NoneLost(AfterSleep(ss[j], sigs))
       <==> forall k, b: SigNum :: i <= k < j && b in sigs ==> !Posted(ss[k], es[k], t, b)
  {
    RunKeeps(ss, es, j);
    SleepLosesPending(ss[j], sigs);
    NothingNewIff(ss, es, t, sigs, i, j);
    assert forall b :: b in sigs ==> b !in ss[i].tcb[t].sigRecvd * sigs;
    hide IsRun, Inv, NoneLost, AfterSleep, Posted;
  }

  /** The special case of interrupts that signal the task and do not take the processor from it. */
  lemma WakeupLostIffInterrupted<T>(s: State<T>, t: T, sigs: Mask, masks: seq<Mask>)
    requires Inv(s) && s.thisTask == Some(t) && Enabled(s, Sleep(sigs))
    ensures var n := Interrupted(s, t, masks);
            && Running(n) && n.tdNest < 0 && n.ready != []
            && (NoneLost(AfterSleep(n, sigs)) <==> forall m <- masks :: m * sigs == {})
  {
    InterruptedRunning(s, t, masks);
    var n := Interrupted(s, t, masks);
    SleepLosesPending(n, sigs);
    if m :| m in masks && m * sigs != {} {
      var b :| b in m * sigs;
      assert b in n.tcb[t].sigRecvd * sigs;
    }
    if b :| b in n.tcb[t].sigRecvd * sigs {
      assert b !in s.tcb[t].sigRecvd * sigs;
      var m :| m in masks && b in m;
      assert b in m * sigs;
    }
  }

  /** An instance: task 1 is about to sleep on signal 0, task 2 is ready, and signal 0 arrives. */
  lemma WakeupCanBeLost() returns (s: State<nat>)
    ensures Inv(s) && s.thisTask == Some(1) && Enabled(s, Sleep({0}))
    ensures 1 in Interrupted(s, 1, [{0}]).tcb && !NoneLost(AfterSleep(Interrupted(s, 1, [{0}]), {0}))
  {
    var idle := Tcb(-128, READY, 255, {}, {}, {}, {});
    s := State(map[1 := idle.(pri := 0, state := RUN), 2 := idle], Some(1), [2], [], -1);
    assert s.tcb.Keys == {1, 2};
    var m: Mask := {0};
    assert 0 in m * m;
    WakeupLostIffInterrupted(s, 1, {0}, [{0}]);
  }

  /** `t` runs, and `u` is ready, at the same priority. */
  ghost predicate TakingTurns(s: State<nat>, t: nat, u: nat) {
    && Inv(s) && s.tcb.Keys == {t, u} && s.thisTask == Some(t) && s.ready == [u] && s.wait == [] && s.tdNest == -1
    && s.tcb[t].state == RUN && s.tcb[u].tdNest == 255 && s.tcb[t].pri == s.tcb[u].pri
  }

  lemma NextTurnOf(s: State<nat>, t: nat, u: nat)
    requires TakingTurns(s, t, u)
    ensures var n := Next(s, Schedule);
            TakingTurns(n, u, t) && forall v :: v in s.tcb ==> n.tcb[v].sigRecvd == s.tcb[v].sigRecvd
  {
    assert TopGroup(s, 1, s.tcb[t].pri);
    RotationQueue(s, 1, s.tcb[t].pri);
    ScheduledKeeps(s);
    assert t != u by { assert s.tcb[u].state == READY; }
    hide Inv, TopGroup, Enqueued;
  }

  lemma SignalledTurn(s: State<nat>, t: nat, u: nat, mask: Mask)
    requires TakingTurns(s, t, u)
    ensures var n := Next(s, Event<nat>.Signal(u, mask));
            TakingTurns(n, t, u) && n.tcb[u].sigRecvd == s.tcb[u].sigRecvd + mask
  {
    NextKeeps(s, Event<nat>.Signal(u, mask));
  }

  lemma TurnsTaken() returns (s: State<nat>)
    ensures TakingTurns(s, 1, 2) && s.tcb[1].sigRecvd == {}
  {
    s := State(map[1 := Tcb(0, RUN, 255, {}, {}, {}, {}), 2 := Tcb(0, READY, 255, {}, {}, {}, {})],
               Some(1), [2], [], -1);
    assert s.tcb.Keys == {1, 2};
  }

  /** An instance over a run: a tick takes the processor from task 1 after its test, task 2 signals
      it, a tick gives the processor back, and task 1 falls asleep with signal 0 pending. */
  lemma WakeupLostByPreemption() returns (ss: seq<State<nat>>, es: seq<Event<nat>>)
    ensures es == [Schedule, Event<nat>.Signal(1, {0}), Schedule] && |ss| == 4 && IsRun(ss, es)
    ensures TakingTurns(ss[0], 1, 2) && TakingTurns(ss[1], 2, 1) && TakingTurns(ss[3], 1, 2)
    ensures ss[0].tcb[1].sigRecvd == {} && LosesWakeup(ss[3], {0})
  {
    hide *;
    var s0 := TurnsTaken();
    var s1, s2, s3 := ThereAndBack(s0);
    es := [Schedule, Event<nat>.Signal(1, {0}), Schedule];
    ss := [s0, s1, s2, s3];
    ThreeSteps(ss, es);
  }

  /** The running task sleeps on `sigs` although it has received one of them. */
  ghost predicate LosesWakeup<T>(s: State<T>, sigs: Mask) {
    Inv(s) && Running(s) && !NoneLost(AfterSleep(s, sigs))
  }

  ghost predicate IsStep<T>(s: State<T>, e: Event<T>, n: State<T>) {
    Inv(s) && Enabled(s, e) && n == Next(s, e)
  }

  lemma ThereAndBack(s0: State<nat>) returns (s1: State<nat>, s2: State<nat>, s3: State<nat>)
    requires TakingTurns(s0, 1, 2)
    ensures IsStep(s0, Schedule, s1) && TakingTurns(s1, 2, 1)
    ensures IsStep(s1, Event<nat>.Signal(1, {0}), s2)
    ensures IsStep(s2, Schedule, s3) && TakingTurns(s3, 1, 2) && LosesWakeup(s3, {0})
  {
    NextTurnOf(s0, 1, 2);
    s1 := Next(s0, Schedule);
    SignalledTurn(s1, 2, 1, {0});
    s2 := Next(s1, Event<nat>.Signal(1, {0}));
    NextTurnOf(s2, 2, 1);
    s3 := Next(s2, Schedule);
    hide Next, NoneLost, Placed, Ordered, Switchable, AfterSleep;
    PendingAtSleep(s3, {0}, 0);
  }

  lemma ThreeSteps<T>(ss: seq<State<T>>, es: seq<Event<T>>)
    requires |es| == 3 && |ss| == 4
    requires IsStep(ss[0], es[0], ss[1]) && IsStep(ss[1], es[1], ss[2]) && IsStep(ss[2], es[2], ss[3])
    ensures IsRun(ss, es)
  {
    hide Inv, Enabled, Next;
  }

  lemma PendingAtSleep<T>(s: State<T>, sigs: Mask, b: SigNum)
    requires Inv(s) && Running(s) && b in sigs && b in s.tcb[s.thisTask.value].sigRecvd
    ensures !NoneLost(AfterSleep(s, sigs))
  {
    SleepLosesPending(s, sigs);
    assert b in s.tcb[s.thisTask.value].sigRecvd * sigs;
  }

  // ----- the windows in SetSignal and at the end of lib_Wait

  /** SetSignal stores what it makes of a value read before it disables interrupts.  That is the
      step of the machine exactly if no bit outside `sigs` arrives in between for the first time;
      any such bit is erased.  With no new signals the same holds of every `SigRecvd &= ~set`.
      The value returned is right as well exactly if no bit at all arrives for the first time: one
      in `sigs` is rightly erased, but not reported. */
  lemma StaleSetSignalIff<T>(ss: seq<State<T>>, es: seq<Event<T>>, t: T, newSignals: Mask, sigs: Mask, i: nat, j: nat)
    requires IsRun(ss, es) && Window(ss, es, t, i, j)
    ensures AfterSet(ss[i].tcb[t].sigRecvd, newSignals, sigs) == AfterSet(ss[j].tcb[t].sigRecvd, newSignals, sigs)
       <==> NothingNew(ss, es, t, SignalsBelow(32) - sigs, i, j)
    ensures ss[i].tcb[t].sigRecvd == ss[j].tcb[t].sigRecvd <==> NothingNew(ss, es, t, SignalsBelow(32), i, j)
  {
    NothingNewAtAll(ss, es, t, i, j);
    var now, was, others := ss[j].tcb[t].sigRecvd, ss[i].tcb[t].sigRecvd, SignalsBelow(32) - sigs;
    NothingNewIff(ss, es, t, others, i, j);
    hide IsRun, Window, NothingNew;
    assert now - sigs == now * others && was - sigs == was * others;
    assert AfterSet(was, newSignals, sigs) * others == was * others;
    assert AfterSet(now, newSignals, sigs) * others == now * others;
  }

  lemma NothingNewAtAll<T>(ss: seq<State<T>>, es: seq<Event<T>>, t: T, i: nat, j: nat)
    requires IsRun(ss, es) && Window(ss, es, t, i, j)
    ensures ss[i].tcb[t].sigRecvd == ss[j].tcb[t].sigRecvd <==> NothingNew(ss, es, t, SignalsBelow(32), i, j)
  {
    var now, was := ss[j].tcb[t].sigRecvd, ss[i].tcb[t].sigRecvd;
    NothingNewIff(ss, es, t, SignalsBelow(32), i, j);
    assert now * SignalsBelow(32) == now && was * SignalsBelow(32) == was;
  }

  /** lib_Wait takes its bits and clears them in two statements.  It returns all that it clears
      exactly if no awaited bit arrives in between for the first time. */
  lemma CollectWindowIff<T>(ss: seq<State<T>>, es: seq<Event<T>>, t: T, sigs: Mask, i: nat, j: nat)
    requires IsRun(ss, es) && Window(ss, es, t, i, j)
    ensures ss[i].tcb[t].sigRecvd * sigs == ss[j].tcb[t].sigRecvd - (ss[j].tcb[t].sigRecvd - sigs)
       <==> NothingNew(ss, es, t, sigs, i, j)
  {
    var now := ss[j].tcb[t].sigRecvd;
    NothingNewIff(ss, es, t, sigs, i, j);
    assert now - (now - sigs) == now * sigs;
  }

  /** Instances: signal 3 arrives in the window of a SetSignal that clears signal 0, or in that of
      a Wait for signals 0 and 3 that has taken signal 0. */
  lemma SignalsCanBeLost() returns (ss: seq<State<nat>>, es: seq<Event<nat>>)
    ensures IsRun(ss, es) && |es| == 1 && Window(ss, es, 1, 0, 1)
    ensures 3 in ss[1].tcb[1].sigRecvd && 3 !in AfterSet(ss[0].tcb[1].sigRecvd, {}, {0})
    ensures 3 !in ss[0].tcb[1].sigRecvd * {0, 3} && 3 !in ss[1].tcb[1].sigRecvd - {0, 3}
  {
    var r := Tcb(0, RUN, 255, {}, {}, {0}, {});
    var s := State(map[1 := r], Some(1), [], [], -1);
    assert s.tcb.Keys == {1};
    var e := Event<nat>.Signal(1, {3});
    ss, es := [s, Next(s, e)], [e];
  }

  /** An instance of the second kind: signal 0 arrives in the window of a SetSignal that tests and
      clears it.  What is stored is right, but the signal is neither pending nor returned. */
  lemma SignalsCanGoUnseen() returns (ss: seq<State<nat>>, es: seq<Event<nat>>)
    ensures IsRun(ss, es) && |es| == 1 && Window(ss, es, 1, 0, 1)
    ensures 0 in ss[1].tcb[1].sigRecvd && 0 !in ss[0].tcb[1].sigRecvd
    ensures AfterSet(ss[0].tcb[1].sigRecvd, {}, {0}) == AfterSet(ss[1].tcb[1].sigRecvd, {}, {0}) == {}
  {
    var r := Tcb(0, RUN, 255, {}, {}, {}, {});
    var s := State(map[1 := r], Some(1), [], [], -1);
    assert s.tcb.Keys == {1};
    var e := Event<nat>.Signal(1, {0});
    ss, es := [s, Next(s, e)], [e];
  }

  // ----- scheduling order

  /** A dispatch picks a task of maximal priority among the ready ones and the one that ran. */
  lemma DispatchPicksMaximal<T>(s: State<T>)
    requires Inv(s) && s.tdNest < 0 && s.ready != []
    ensures var n := Scheduled(s);
            && n.thisTask.Some?
            && (forall t <- s.ready :: n.tcb[n.thisTask.value].pri >= s.tcb[t].pri)
            && (Running(s) ==> n.tcb[n.thisTask.value].pri >= s.tcb[s.thisTask.value].pri)
            && (n.thisTask.value in s.ready || n.thisTask == s.thisTask)
  {
    var r := Retire(s);
    RetireKeeps(s);
    assert forall t <- r.ready :: r.tcb[r.ready[0]].pri >= r.tcb[t].pri by {
      forall i | 0 <= i < |r.ready| ensures r.tcb[r.ready[0]].pri >= r.tcb[r.ready[i]].pri {
        assert PrisOf(r.tcb, r.ready)[0] >= PrisOf(r.tcb, r.ready)[i];
      }
    }
    RetiredMembers(s);
  }

  lemma RetiredMembers<T>(s: State<T>)
    requires Inv(s) && s.tdNest < 0
    ensures forall t <- s.ready :: t in Retire(s).ready && Retire(s).tcb[t] == s.tcb[t]
    ensures forall t <- Retire(s).ready :: t in s.ready || s.thisTask == Some(t)
    ensures Running(s) ==> s.thisTask.value in Retire(s).ready
    ensures forall t <- Retire(s).tcb :: t in s.tcb && Retire(s).tcb[t].pri == s.tcb[t].pri
  {
    RetireKeeps(s);
    if Running(s) {
      var t := s.thisTask.value;
      var r := s.tcb[t].(state := READY, tdNest := ToU8(s.tdNest));
      assert PrisOf(s.tcb[t := r], s.ready) == PrisOf(s.tcb, s.ready);
      EnqueuedKeeps(s.tcb[t := r], s.ready, t);
    }
  }

  /** The running task and the first `k` ready tasks have the same priority `p`, the others
      a lower one. */
  ghost predicate TopGroup<T>(s: State<T>, k: nat, p: int)
    requires Inv(s)
  {
    && Running(s) && k <= |s.ready|
    && s.tcb[s.thisTask.value].pri == p
    && (forall t <- s.ready[..k] :: s.tcb[t].pri == p)
    && (forall t <- s.ready[k..] :: s.tcb[t].pri < p)
  }

  lemma GroupIndex<T>(tcb: map<T, Tcb>, q: seq<T>, k: nat, p: int)
    requires (forall t <- q :: t in tcb) && k <= |q|
    requires (forall t <- q[..k] :: tcb[t].pri == p) && (forall t <- q[k..] :: tcb[t].pri < p)
    ensures EnqueueIndex(PrisOf(tcb, q), p) == k
  {
    assert forall i :: 0 <= i < k ==> q[i] in q[..k];
    assert k < |q| ==> q[k] in q[k..];
    EnqueueIndexUnique(PrisOf(tcb, q), p, k);
  }

  lemma RotationQueue<T>(s: State<T>, k: nat, p: int)
    requires Inv(s) && TopGroup(s, k, p) && s.tdNest < 0
    ensures var n := Scheduled(s);
            var q := s.ready[..k] + [s.thisTask.value];
            && n.thisTask == Some(q[0]) && n.ready == q[1..] + s.ready[k..]
  {
    if s.ready != [] {
      var t := s.thisTask.value;
      GroupIndex(s.tcb[t := s.tcb[t].(state := READY, tdNest := ToU8(s.tdNest))], s.ready, k, p);
      assert Retire(s).ready == s.ready[..k] + [t] + s.ready[k..];
    }
  }

  lemma PrisUnchanged<T>(s: State<T>)
    requires Inv(s) && Running(s) && s.tdNest < 0
    ensures var n := Scheduled(s);
            && Inv(n) && Running(n) && n.tdNest < 0
            && forall t <- s.tcb :: t in n.tcb && n.tcb[t].pri == s.tcb[t].pri
  {
    ScheduledKeeps(s);
    if s.ready != [] {
      RetireKeeps(s);
      LaunchKeeps(Retire(s));
    }
  }

  lemma RotationStep<T>(s: State<T>, k: nat, p: int)
    requires Inv(s) && TopGroup(s, k, p) && s.tdNest < 0
    ensures var n := Scheduled(s);
            var q := s.ready[..k] + [s.thisTask.value];
            && n.thisTask == Some(q[0]) && n.ready == q[1..] + s.ready[k..]
            && Inv(n) && TopGroup(n, k, p)
  {
    RotationQueue(s, k, p);
    PrisUnchanged(s);
    var n := Scheduled(s);
    var q := s.ready[..k] + [s.thisTask.value];
    assert forall t <- q :: n.tcb[t].pri == p;
    assert n.ready[..k] == q[1..] && n.ready[k..] == s.ready[k..];
  }

  /** `ring` rotated by `j`. */
  function Rotated<X>(ring: seq<X>, j: nat): seq<X>
    requires j <= |ring|
  {
    ring[j..] + ring[..j]
  }

  lemma RotateOnce<X>(ring: seq<X>, j: nat)
    requires j < |ring|
    ensures var r := Rotated(ring, j);
            r[1..] + [r[0]] == Rotated(ring, j + 1)
  {
  }

  /** `ring` is the running task followed by the ready tasks of its priority, `low` the rest. */
  ghost predicate InRing<T>(s: State<T>, ring: seq<T>, low: seq<T>, p: int) {
    && |ring| > 0 && Inv(s) && TopGroup(s, |ring| - 1, p)
    && s.thisTask == Some(ring[0]) && s.ready == ring[1..] + low
  }

  /** A dispatch turns the ring by one. */
  lemma RingStep<T>(s: State<T>, ring: seq<T>, low: seq<T>, p: int)
    requires InRing(s, ring, low, p) && s.tdNest < 0
    ensures InRing(Scheduled(s), ring[1..] + [ring[0]], low, p)
  {
    RotationStep(s, |ring| - 1, p);
    assert s.ready[..|ring| - 1] == ring[1..] && s.ready[|ring| - 1..] == low;
  }

  /** No task is woken, added or put to sleep, and none ends. */
  ghost predicate Quiet<T>(s: State<T>, e: Event<T>) {
    match e
    case AddTask(_, _) => false
    case Sleep(_) => false
    case Exit => false
    case Signal(t, _) => t in s.tcb && s.tcb[t].state != WAIT
    case _ => true
  }

  /** A Schedule call or a tick that does dispatch. */
  ghost predicate Dispatches<T>(s: State<T>, e: Event<T>) { e.Schedule? && s.tdNest < 0 }

  /** Any other quiet event leaves the queues, the running task and all priorities alone. */
  lemma QuietKeepsRing<T>(s: State<T>, e: Event<T>, ring: seq<T>, low: seq<T>, p: int)
    requires InRing(s, ring, low, p) && Enabled(s, e) && Quiet(s, e) && !Dispatches(s, e)
    ensures InRing(Next(s, e), ring, low, p)
  {
    NextKeeps(s, e);
    QuietKeepsPlaces(s, e);
    hide Inv, Enabled, Next, Quiet;
  }

  lemma QuietKeepsPlaces<T>(s: State<T>, e: Event<T>)
    requires Inv(s) && Enabled(s, e) && Quiet(s, e) && !Dispatches(s, e) && Running(s)
    ensures var n := Next(s, e);
            && n.thisTask == s.thisTask && n.ready == s.ready && n.tcb.Keys == s.tcb.Keys
            && forall t <- s.tcb :: n.tcb[t].pri == s.tcb[t].pri && n.tcb[t].state == s.tcb[t].state
  {
  }

  /** The dispatches among the first `i` events of a run. */
  ghost function DispatchCount<T>(ss: seq<State<T>>, es: seq<Event<T>>, i: nat): nat
    requires i <= |es| < |ss|
  {
    if i == 0 then 0 else DispatchCount(ss, es, i - 1) + if Dispatches(ss[i - 1], es[i - 1]) then 1 else 0
  }

  lemma NextTurn(c: nat, n: nat)
    requires n > 0
    ensures (c + 1) % n == if c % n + 1 < n then c % n + 1 else 0
  {
    var q, r := c / n, c % n;
    assert c == q * n + r;
    if r + 1 < n {
      Words.QuotientUnique(c + 1, n, q, r + 1);
    } else {
      assert (q + 1) * n == q * n + n;
      Words.QuotientUnique(c + 1, n, q + 1, 0);
    }
  }

  lemma TurnedOnce<X>(ring: seq<X>, c: nat)
    requires ring != []
    ensures var r := Rotated(ring, c % |ring|); r[1..] + [r[0]] == Rotated(ring, (c + 1) % |ring|)
  {
    var n, t := |ring|, c % |ring|;
    NextTurn(c, n);
    RotateOnce(ring, t);
    if t + 1 == n { assert Rotated(ring, n) == ring == Rotated(ring, 0); }
  }

  /** One event of a quiet run, after `c` dispatches. */
  lemma RingAfterEvent<T>(s: State<T>, e: Event<T>, ring: seq<T>, low: seq<T>, p: int, c: nat)
    requires ring != [] && InRing(s, Rotated(ring, c % |ring|), low, p) && Enabled(s, e) && Quiet(s, e)
    ensures InRing(Next(s, e), Rotated(ring, (if Dispatches(s, e) then c + 1 else c) % |ring|), low, p)
  {
    if Dispatches(s, e) {
      RingStep(s, Rotated(ring, c % |ring|), low, p);
      TurnedOnce(ring, c);
    } else {
      QuietKeepsRing(s, e, Rotated(ring, c % |ring|), low, p);
    }
  }

  /** After c dispatches the ring has turned by c, and its first task runs. */
  ghost predicate InTurn<T>(ss: seq<State<T>>, es: seq<Event<T>>, ring: seq<T>, low: seq<T>, p: int, i: nat) {
    && ring != [] && i <= |es| < |ss|
    && var c := DispatchCount(ss, es, i) % |ring|;
       InRing(ss[i], Rotated(ring, c), low, p) && ss[i].thisTask == Some(ring[c])
  }

  ghost predicate QuietUpTo<T>(ss: seq<State<T>>, es: seq<Event<T>>, n: nat) {
    n <= |es| < |ss| && forall k :: 0 <= k < n ==> Quiet(ss[k], es[k])
  }

  /** Round robin over runs: while no task is woken, added or put to sleep, the running task and
      the ready tasks of its priority run one after the other in queue order, one dispatch each,
      whatever else happens in between; after every full turn the queue is as it was. */
  lemma {:induction false} RoundRobinRun<T>(ss: seq<State<T>>, es: seq<Event<T>>, ring: seq<T>, low: seq<T>, p: int,
                                            i: nat)
    requires IsRun(ss, es) && QuietUpTo(ss, es, i) && InRing(ss[0], ring, low, p)
    ensures InTurn(ss, es, ring, low, p, i)
    decreases i
  {
    var c := DispatchCount(ss, es, i);
    CountStep(ss, es, i);
    RingNotEmpty(ss[0], ring, low, p);
    if i == 0 {
      NotTurned(ring);
    } else {
      var s, e := ss[i - 1], es[i - 1];
      RunKeeps(ss, es, i - 1);
      RoundRobinRun(ss, es, ring, low, p, i - 1);
      assert Quiet(s, e);
      hide IsRun, InRing, Inv, Quiet, Enabled, Next, DispatchCount, Rotated;
      RingAfterEvent(s, e, ring, low, p, DispatchCount(ss, es, i - 1));
    }
    hide IsRun, InRing, Inv, Quiet, Enabled, Next, DispatchCount, Rotated;
    RingHead(ss[i], ring, low, p, c % |ring|);
  }

  lemma RingNotEmpty<T>(s: State<T>, ring: seq<T>, low: seq<T>, p: int)
    requires InRing(s, ring, low, p)
    ensures ring != []
  {
  }

  lemma CountStep<T>(ss: seq<State<T>>, es: seq<Event<T>>, i: nat)
    requires i <= |es| < |ss|
    ensures i == 0 ==> DispatchCount(ss, es, i) == 0
    ensures i > 0 && Dispatches(ss[i - 1], es[i - 1]) ==> DispatchCount(ss, es, i) == DispatchCount(ss, es, i - 1) + 1
    ensures i > 0 && !Dispatches(ss[i - 1], es[i - 1]) ==> DispatchCount(ss, es, i) == DispatchCount(ss, es, i - 1)
  {
  }

  lemma NotTurned<X>(ring: seq<X>)
    requires ring != []
    ensures 0 % |ring| == 0 && Rotated(ring, 0) == ring
  {
    Words.QuotientUnique(0, |ring|, 0, 0);
  }

  lemma RingHead<T>(s: State<T>, ring: seq<T>, low: seq<T>, p: int, c: nat)
    requires c < |ring| && InRing(s, Rotated(ring, c), low, p)
    ensures s.thisTask == Some(ring[c])
  {
  }

  /** So each of the k + 1 tasks has run by the k-th dispatch. */
  lemma {:induction false} EachRunsInTurn<T>(ss: seq<State<T>>, es: seq<Event<T>>, ring: seq<T>, low: seq<T>, p: int,
                                             j: nat)
    returns (i: nat)
    requires IsRun(ss, es) && QuietUpTo(ss, es, |es|) && InRing(ss[0], ring, low, p)
    requires j < |ring| && DispatchCount(ss, es, |es|) >= j
    ensures i <= |es| && DispatchCount(ss, es, i) == j && ss[i].thisTask == Some(ring[j])
  {
    i := CountReached(ss, es, |es|, j);
    RoundRobinRun(ss, es, ring, low, p, i);
    Words.QuotientUnique(j, |ring|, 0, j);
  }

  lemma {:induction false} CountReached<T>(ss: seq<State<T>>, es: seq<Event<T>>, n: nat, j: nat) returns (i: nat)
    requires n <= |es| < |ss| && DispatchCount(ss, es, n) >= j
    ensures i <= n && DispatchCount(ss, es, i) == j
  {
    if DispatchCount(ss, es, n) == j {
      i := n;
    } else {
      i := CountReached(ss, es, n - 1, j);
    }
  }

  // ----- the same for dispatches that follow each other

  ghost predicate OnlySchedules<T>(es: seq<Event<T>>) { forall k :: 0 <= k < |es| ==> es[k].Schedule? }

  ghost predicate Switching<T>(s: State<T>) { Running(s) && s.tdNest < 0 }

  lemma DispatchSwitches<T>(s: State<T>, e: Event<T>)
    requires Inv(s) && Switching(s) && e.Schedule? && Enabled(s, e)
    ensures Switching(Next(s, e))
  {
    PrisUnchanged(s);
  }

  lemma {:induction false} StillSwitching<T>(ss: seq<State<T>>, es: seq<Event<T>>, i: nat)
    requires |ss| == |es| + 1 && i <= |es| && IsRun(ss, es) && OnlySchedules(es) && Switching(ss[0])
    ensures Switching(ss[i])
  {
    if i > 0 {
      StillSwitching(ss, es, i - 1);
      RunKeeps(ss, es, i - 1);
      assert es[i - 1].Schedule?;
      hide *;
      DispatchSwitches(ss[i - 1], es[i - 1]);
    }
  }

  /** Nothing but dispatches: each event is one. */
  lemma {:induction false} EveryOneDispatches<T>(ss: seq<State<T>>, es: seq<Event<T>>, i: nat)
    requires |ss| == |es| + 1 && i <= |es| && OnlySchedules(es) && forall k :: 0 <= k < i ==> Switching(ss[k])
    ensures DispatchCount(ss, es, i) == i && QuietUpTo(ss, es, i)
  {
    if i > 0 { EveryOneDispatches(ss, es, i - 1); }
  }

  /** After `j` dispatches in a row the j-th task runs, and after as many as there are such tasks
      the first one runs again, with the queue as it was. */
  lemma RoundRobin<T>(ss: seq<State<T>>, es: seq<Event<T>>, ring: seq<T>, low: seq<T>, p: int)
    requires |ss| == |es| + 1 && IsRun(ss, es) && OnlySchedules(es) && ss[0].tdNest < 0
    requires |es| <= |ring| && InRing(ss[0], ring, low, p)
    ensures var j := |es|;
            && ss[j].thisTask == Some(ring[if j == |ring| then 0 else j])
            && (j == |ring| ==> ss[j].ready == ss[0].ready)
  {
    var j := |es|;
    RingNotEmpty(ss[0], ring, low, p);
    forall k | 0 <= k < j ensures Switching(ss[k]) {
      StillSwitching(ss, es, k);
    }
    EveryOneDispatches(ss, es, j);
    RoundRobinRun(ss, es, ring, low, p, j);
    hide IsRun, Inv, DispatchCount, TopGroup, QuietUpTo;
    Words.QuotientUnique(j, |ring|, if j == |ring| then 1 else 0, if j == |ring| then 0 else j);
    NotTurned(ring);
  }
}
