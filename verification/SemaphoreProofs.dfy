/** What every run of the semaphore machine keeps, and where the code as written falls short. */
module SemaphoreProofs {
  import opened Options
  import opened SemaphoreModel
  import opened Words

  lemma InitInv(twice: bool)
    ensures Inv(Init(), twice)
  {
  }

  lemma GrabCounts(s: Sem, t: Task, m: Mode, twice: bool)
    requires Counting(s, twice) && Outstanding(s) < TWO32 - 2
    ensures Inc(s.queue) == Outstanding(s)
    ensures Grab(s, t, m).Some? ==> Counting(Grab(s, t, m).value, twice)
  {
  }

  lemma GrabOwns(s: Sem, t: Task, m: Mode, twice: bool)
    requires Inv(s, twice) && t !in s.blocked && Outstanding(s) < TWO32 - 2
    ensures Grab(s, t, m).Some? ==> Owning(Grab(s, t, m).value)
  {
    GrabCounts(s, t, m, twice);
    hide Counting;
    if s.signalled != {} { assert s.owner.value in s.signalled; }
  }

  lemma GrabKeeps(s: Sem, t: Task, m: Mode, twice: bool)
    requires Inv(s, twice) && t !in s.blocked && Outstanding(s) < TWO32 - 2
    ensures Inc(s.queue) == Outstanding(s)
    ensures Grab(s, t, m).Some? ==> Inv(Grab(s, t, m).value, twice)
  {
    hide Counting, Owning;
    GrabCounts(s, t, m, twice);
    GrabOwns(s, t, m, twice);
  }

  lemma WaitingQueues(s: Sem, t: Task, m: Mode)
    requires Queueing(s) && t !in s.blocked
    ensures Queueing(Waiting(s, t, m)) && Waiting(s, t, m).signalled == s.signalled
  {
  }

  lemma ObtainKeeps(s: Sem, t: Task, m: Mode, twice: bool)
    requires Inv(s, twice) && Enabled(s, Obtain(t, m))
    ensures Inv(Next(s, Obtain(t, m), twice), twice)
  {
    GrabKeeps(s, t, m, twice);
    if Grab(s, t, m) == None {
      WaitingQueues(s, t, m);
      hide Queueing;
    }
  }

  lemma ResumeKeeps(s: Sem, t: Task, twice: bool)
    requires Inv(s, twice) && Enabled(s, Resume(t))
    ensures Inv(Next(s, Resume(t), twice), twice)
  {
    var n := Next(s, Resume(t), twice);
    assert s.signalled == {t} && n.signalled == {};
  }

  /** What ReleaseSemaphore has done before it looks at ss_NestCount. */
  lemma DroppedKeeps(s: Sem, k: nat, twice: bool)
    requires Inv(s, twice) && k < |s.holds|
    ensures var d := Dropped(s, k);
            && s.signalled == {} && Queueing(d) && Owning(d)
            && d.nest == |s.holds| - 1 + (if twice && s.resumed > 0 then 1 else 0)
            && d.queue == (if Outstanding(d) == 0 then TWO32 - 1 else Outstanding(d) - 1)
            && (d.nest != 0 ==> Counting(d, twice))
  {
  }

  lemma HandedOverQueues(s: Sem)
    requires Queueing(s) && s.waitQueue != [] && s.signalled == {}
    ensures Queueing(HandedOver(s))
  {
    var n := HandedOver(s);
    assert s.waitQueue == [s.waitQueue[0]] + n.waitQueue;
    assert n.queued == n.granted + n.waitQueue;
    assert n.signalled == {s.waitQueue[0]};
  }

  lemma HandedOverCounts(s: Sem, twice: bool)
    requires s.waitQueue != [] && s.signalled == {} && s.holds == [] && s.nest == 0
    requires s.queue == Outstanding(s) - 1 && Outstanding(s) < TWO32 - 1
    requires |s.granted| == s.resumed && (twice ==> s.resumed == 0)
    ensures Counting(HandedOver(s), twice) && Owning(HandedOver(s))
  {
    assert HandedOver(s).signalled == {s.waitQueue[0]};
  }

  /** Nobody waits and nobody holds it: the semaphore is as good as new. */
  lemma ResetKeeps(d: Sem, twice: bool)
    requires Queueing(d) && d.waitQueue == [] && d.signalled == {} && d.holds == [] && d.nest == 0
    requires |d.granted| == d.resumed && (twice ==> d.resumed == 0)
    ensures Inv(d.(owner := None, queue := TWO32 - 1, kind := 0), twice)
  {
  }

  lemma ReleaseCases(s: Sem, k: nat, twice: bool)
    requires Enabled(s, Release(k))
    ensures var d := Dropped(s, k);
            Next(s, Release(k), twice)
            == if d.nest != 0 then d else if d.waitQueue != [] then HandedOver(d)
               else d.(owner := None, queue := TWO32 - 1, kind := 0)
  {
  }

  lemma ReleaseKeeps(s: Sem, k: nat, twice: bool)
    requires Inv(s, twice) && Enabled(s, Release(k))
    ensures Inv(Next(s, Release(k), twice), twice)
  {
    var d := Dropped(s, k);
    DroppedKeeps(s, k, twice);
    ReleaseCases(s, k, twice);
    assert |s.granted| == s.resumed && d.waitQueue == s.waitQueue && d.signalled == s.signalled;
    assert d.granted == s.granted && d.resumed == s.resumed && |d.holds| == |s.holds| - 1;
    hide Enabled, Next, Dropped, Queueing, Counting, Owning;
    if d.nest == 0 {
      assert d.holds == [];
      if d.waitQueue != [] {
        HandedOverQueues(d);
        HandedOverCounts(d, twice);
      } else {
        ResetKeeps(d, twice);
      }
    }
  }

  /** Every call, by any task, keeps the invariant, with one increment or two. */
  lemma NextKeeps(s: Sem, e: Event, twice: bool)
    requires Inv(s, twice) && Enabled(s, e)
    ensures Inv(Next(s, e, twice), twice)
  {
    match e
    case Obtain(t, m) => ObtainKeeps(s, t, m, twice);
    case Attempt(t, m) => GrabKeeps(s, t, m, twice);
    case Resume(t) => ResumeKeeps(s, t, twice);
    case Release(k) => ReleaseKeeps(s, k, twice);
  }

  ghost predicate IsRun(ss: seq<Sem>, es: seq<Event>, twice: bool) {
    && |ss| == |es| + 1
    && ss[0] == Init()
    && (forall i {:trigger es[i]} :: 0 <= i < |es| ==> Enabled(ss[i], es[i]) && ss[i + 1] == Next(ss[i], es[i], twice))
  }

  lemma {:induction false} RunKeeps(ss: seq<Sem>, es: seq<Event>, twice: bool, i: nat)
    requires IsRun(ss, es, twice) && i < |ss|
    ensures Inv(ss[i], twice)
  {
    if i == 0 {
      InitInv(twice);
    } else {
      RunKeeps(ss, es, twice, i - 1);
      assert es[i - 1] == es[i - 1];
      NextKeeps(ss[i - 1], es[i - 1], twice);
    }
  }

  /** Mutual exclusion, for the code as written and for the single increment alike: if a task
      holds the semaphore exclusively, no other task holds it in any mode. */
  lemma Exclusion(ss: seq<Sem>, es: seq<Event>, twice: bool, i: nat, h: Hold, g: Hold)
    requires IsRun(ss, es, twice) && i < |ss|
    requires h in ss[i].holds && g in ss[i].holds && h.mode == Exclusive
    ensures h.task == g.task
  {
    RunKeeps(ss, es, twice, i);
  }

  /** ss_QueueCount + 1 is the number of holds, handed-over and waiting requests, so the
      unsigned test `ss_QueueCount >= 0` never decides anything: when ReleaseSemaphore
      brings ss_NestCount to zero, the wait queue is empty exactly if nothing is outstanding. */
  lemma QueueCountExact(ss: seq<Sem>, es: seq<Event>, twice: bool, i: nat)
    requires IsRun(ss, es, twice) && i < |ss|
    ensures Inc(ss[i].queue) == |ss[i].holds| + |ss[i].signalled| + |ss[i].waitQueue|
    ensures i < |es| && es[i].Release? && Dec(ss[i].nest) == 0 ==>
            (ss[i].waitQueue == [] <==> Dec(ss[i].queue) == TWO32 - 1)
  {
    RunKeeps(ss, es, twice, i);
    if i < |es| && es[i].Release? { DroppedKeeps(ss[i], es[i].hold, twice); }
  }

  /** Waiters are handed the semaphore in the order in which they asked. */
  lemma FirstInFirstOut(ss: seq<Sem>, es: seq<Event>, twice: bool, i: nat)
    requires IsRun(ss, es, twice) && i < |ss|
    ensures ss[i].granted <= ss[i].queued
    ensures ss[i].queued == ss[i].granted + ss[i].waitQueue
  {
    RunKeeps(ss, es, twice, i);
  }

  /** The caller need not wait: nothing is outstanding, it is the owner, or it asks for a shared hold
      while ss_Owner is NULL. */
  predicate Uncontended(s: Sem, t: Task, m: Mode) {
    || (s.holds == [] && s.signalled == {} && s.waitQueue == [])
    || s.owner == Some(t)
    || (m == Shared && s.owner == None)
  }

  lemma GrabIff(s: Sem, t: Task, m: Mode, twice: bool)
    requires Inv(s, twice) && t !in s.blocked && Outstanding(s) < TWO32 - 2
    ensures Grab(s, t, m).Some? <==> Uncontended(s, t, m)
  {
    GrabCounts(s, t, m, twice);
    hide Inv, Queueing, Owning;
  }

  /** Exactly when a request is granted at once: the caller then has one hold more, of the kind it asked
      for.  Otherwise an Obtain waits, and an Attempt leaves everything as it was. */
  lemma GrantedIff(ss: seq<Sem>, es: seq<Event>, twice: bool, i: nat)
    requires IsRun(ss, es, twice) && i < |es| && (es[i].Obtain? || es[i].Attempt?)
    ensures var s, n, t, m := ss[i], ss[i + 1], es[i].task, es[i].mode;
            if Uncontended(s, t, m) then
              n.holds == s.holds + [Hold(t, m)] && n.blocked == s.blocked && n.waitQueue == s.waitQueue
            else if es[i].Obtain? then
              n.holds == s.holds && n.blocked == s.blocked[t := m] && n.waitQueue == s.waitQueue + [t]
            else
              n == s
  {
    RunKeeps(ss, es, twice, i);
    assert es[i] == es[i];
    GrabIff(ss[i], es[i].task, es[i].mode, twice);
    RequestCases(ss[i], es[i].task, es[i].mode, twice);
    hide Inv, Uncontended;
  }

  /** What the other two calls do to the holds: a release gives up the very hold it names, and a waiter
      that resumes gets the kind of hold that it asked for, which others may share if it is shared. */
  lemma HoldsStep(s: Sem, e: Event, twice: bool)
    requires Enabled(s, e) && (e.Release? || e.Resume?)
    ensures var n := Next(s, e, twice);
            match e
            case Release(k) => n.holds == s.holds[..k] + s.holds[k + 1..]
            case Resume(t) =>
              && n.holds == s.holds + [Hold(t, s.blocked[t])]
              && (n.owner == if s.blocked[t] == Shared then None else Some(t))
            case _ => true
  {
  }

  ghost predicate OnlyShared(es: seq<Event>) {
    forall k :: 0 <= k < |es| ==> (es[k].Obtain? || es[k].Attempt? ==> es[k].mode == Shared)
  }

  /** While nobody asks for an exclusive hold, nobody waits. */
  lemma {:induction false} SharersNeverWait(ss: seq<Sem>, es: seq<Event>, twice: bool, i: nat)
    requires IsRun(ss, es, twice) && OnlyShared(es) && i < |ss|
    ensures ss[i].waitQueue == [] && ss[i].blocked == map[] && ss[i].owner == None
  {
    if i > 0 {
      SharersNeverWait(ss, es, twice, i - 1);
      RunKeeps(ss, es, twice, i - 1);
      assert es[i - 1] == es[i - 1];
      hide Inv, IsRun;
    }
  }

  /** ss_Type says which kind of holds there are: shared ones while ss_Owner is NULL.  It is not
      kept up to date while a hand-over is under way. */
  ghost predicate TypeRight(s: Sem) {
    s.signalled == {} && (s.holds != [] || s.waitQueue != []) ==>
      s.kind == if s.owner == None then SS_TYPE_SHARED else SS_TYPE_SIMPLE
  }

  lemma {:induction false} TypeSays(ss: seq<Sem>, es: seq<Event>, twice: bool, i: nat)
    requires IsRun(ss, es, twice) && i < |ss|
    ensures TypeRight(ss[i])
  {
    if i > 0 {
      TypeSays(ss, es, twice, i - 1);
      RunKeeps(ss, es, twice, i - 1);
      assert es[i - 1] == es[i - 1];
      TypeStep(ss[i - 1], es[i - 1], twice);
    }
  }

  lemma TypeStep(s: Sem, e: Event, twice: bool)
    requires Inv(s, twice) && Enabled(s, e) && TypeRight(s)
    ensures TypeRight(Next(s, e, twice))
  {
    match e
    case Release(k) => DroppedKeeps(s, k, twice);
    case Resume(_) =>
    case _ => GrabCounts(s, e.task, e.mode, twice);
  }

  /** Who overtakes the queue: while somebody waits, a request does not have to exactly if the caller
      is the owner, or it is for a shared hold while shared holders have left ss_Owner NULL. */
  lemma OvertakesIff(ss: seq<Sem>, es: seq<Event>, twice: bool, i: nat)
    requires IsRun(ss, es, twice) && i < |es| && es[i].Obtain? && ss[i].waitQueue != []
    ensures es[i].task !in ss[i + 1].blocked
       <==> ss[i].owner == Some(es[i].task) || (es[i].mode == Shared && ss[i].owner == None)
  {
    RunKeeps(ss, es, twice, i);
    GrabCounts(ss[i], es[i].task, es[i].mode, twice);
    hide Inv;
  }

  /** An instance: task 2 waits for an exclusive hold, and task 3 gets a shared one. */
  lemma SharedOvertakes(twice: bool) returns (ss: seq<Sem>, es: seq<Event>)
    ensures es == [Obtain(1, Shared), Obtain(2, Exclusive), Obtain(3, Shared)] && IsRun(ss, es, twice)
    ensures ss[3].waitQueue == [2] && ss[3].holds == [Hold(1, Shared), Hold(3, Shared)]
  {
    es := [Obtain(1, Shared), Obtain(2, Exclusive), Obtain(3, Shared)];
    var s1 := Next(Init(), es[0], twice);
    var s2 := Next(s1, es[1], twice);
    ss := [Init(), s1, s2, Next(s2, es[2], twice)];
  }

  /** With a single increment nobody waits for a semaphore that is free. */
  lemma NobodyWaitsForAFreeSemaphore(ss: seq<Sem>, es: seq<Event>, i: nat)
    requires IsRun(ss, es, false) && i < |ss| && ss[i].waitQueue != []
    ensures ss[i].holds != [] || ss[i].signalled != {}
  {
    RunKeeps(ss, es, false, i);
  }

  /** Exactly when ReleaseSemaphore hands over: it gives up the last hold, somebody waits,
      and -- in the code as written -- no hand-off has been completed before. */
  lemma HandsOverIff(ss: seq<Sem>, es: seq<Event>, twice: bool, i: nat)
    requires IsRun(ss, es, twice) && i < |es| && es[i].Release?
    ensures ss[i + 1].granted != ss[i].granted <==>
            && |ss[i].holds| == 1
            && ss[i].waitQueue != []
            && (twice ==> ss[i].resumed == 0)
  {
    RunKeeps(ss, es, twice, i);
    DroppedKeeps(ss[i], es[i].hold, twice);
  }

  /** The code as written hands the semaphore over at most once in its life. */
  lemma AtMostOneHandOff(ss: seq<Sem>, es: seq<Event>, i: nat)
    requires IsRun(ss, es, true) && i < |ss|
    ensures |ss[i].granted| <= 1
  {
    RunKeeps(ss, es, true, i);
  }

  lemma NoHandOffAfterResume(s: Sem, e: Event)
    requires Inv(s, true) && Enabled(s, e) && s.resumed > 0
    ensures var n := Next(s, e, true);
            n.resumed > 0 && n.granted == s.granted && s.waitQueue <= n.waitQueue
  {
    if e.Release? { DroppedKeeps(s, e.hold, true); }
    hide Queueing, Owning;
  }

  /** From the moment its first waiter resumes, whoever has to queue waits for ever. */
  lemma {:induction false} WaitersStuckAfterResume(ss: seq<Sem>, es: seq<Event>, i: nat, j: nat)
    requires IsRun(ss, es, true) && i <= j < |ss| && ss[i].resumed > 0
    ensures ss[j].resumed > 0 && ss[j].granted == ss[i].granted && ss[i].waitQueue <= ss[j].waitQueue
    decreases j
  {
    if i < j {
      WaitersStuckAfterResume(ss, es, i, j - 1);
      RunKeeps(ss, es, true, j - 1);
      hide Inv, Enabled;
      assert es[j - 1] == es[j - 1];
      NoHandOffAfterResume(ss[j - 1], es[j - 1]);
    }
  }

  lemma Extended(ss: seq<Sem>, es: seq<Event>, e: Event, twice: bool)
    requires IsRun(ss, es, twice) && Enabled(ss[|es|], e)
    ensures IsRun(ss + [Next(ss[|es|], e, twice)], es + [e], twice)
  {
  }

  lemma HandOffToTwo() returns (ss: seq<Sem>, es: seq<Event>)
    ensures IsRun(ss, es, true) && |es| == 3
    ensures ss[3] == Sem(Some(2), 1, 0, SS_TYPE_SIMPLE, [], [], map[2 := Exclusive], {2}, [2], [2], 0)
  {
    es := [Obtain(1, Exclusive), Obtain(2, Exclusive), Release(0)];
    var s1 := Next(Init(), es[0], true);
    var s2 := Next(s1, es[1], true);
    ss := [Init(), s1, s2, Next(s2, es[2], true)];
    assert ss[3].signalled == {2};
  }

  /** A run of the code as written after which the semaphore is held by nobody and handed to
      nobody, and yet task 3 waits for it. */
  lemma FreeButWaitedFor() returns (ss: seq<Sem>, es: seq<Event>)
    ensures IsRun(ss, es, true)
    ensures var s := ss[|es|]; s.holds == [] && s.signalled == {} && s.waitQueue == [3]
  {
    ss, es := HandOffToTwo();
    hide IsRun;
    Extended(ss, es, Resume(2), true);
    var s4 := Next(ss[3], Resume(2), true);
    assert s4.holds == [Hold(2, Exclusive)] && s4.nest == 2;
    Extended(ss + [s4], es + [Resume(2)], Obtain(3, Exclusive), true);
    var s5 := Next(s4, Obtain(3, Exclusive), true);
    Extended(ss + [s4] + [s5], es + [Resume(2)] + [Obtain(3, Exclusive)], Release(0), true);
    ss := ss + [s4] + [s5] + [Next(s5, Release(0), true)];
    es := es + [Resume(2)] + [Obtain(3, Exclusive)] + [Release(0)];
  }
}
