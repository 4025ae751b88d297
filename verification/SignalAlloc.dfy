/** AllocSignal and FreeSignal over runs: no signal is handed out twice. */
module SignalAlloc {
  import opened Options
  import opened TaskModel
  import opened TaskProofs
  import opened TaskLife

  /** What AllocSignal promises to return when the signals in `alloc` are taken: the signal asked for or
      the next lower one that is free, any signal for an argument that is none, the highest free one
      first, and -1 if there is none to return. */
  ghost predicate RightSignal(alloc: Mask, num: int, r: int) {
    var highest: SigNum := if 0 <= num < 32 then num else 31;
    if r == -1 then forall b: SigNum :: b <= highest ==> b in alloc
    else 0 <= r <= highest && r !in alloc && forall b: SigNum :: r < b <= highest ==> b in alloc
  }

  /** The search finds exactly that. */
  lemma SearchIsRight(alloc: Mask, num: int, r: int)
    ensures r == FreeBelow(alloc, SearchFrom(num)) <==> RightSignal(alloc, num, r)
  {
  }

  /** For an argument outside 0..31 the call fails if and only if all 32 signals are taken; for any other
      if and only if the one asked for and all below it are. */
  lemma AllocFailsIff(alloc: Mask, num: int)
    ensures !(0 <= num < 32) ==> (FreeBelow(alloc, SearchFrom(num)) == -1 <==> forall b: SigNum :: b in alloc)
    ensures 0 <= num < 32 ==>
              (FreeBelow(alloc, SearchFrom(num)) == -1 <==> forall b: SigNum :: b <= num ==> b in alloc)
    ensures 0 <= num < 32 && num !in alloc ==> FreeBelow(alloc, SearchFrom(num)) == num
  {
    SearchIsRight(alloc, num, -1);
    SearchIsRight(alloc, num, num);
    hide FreeBelow, SearchFrom;
  }

  ghost predicate Allocated<T>(s: State<T>, t: T, b: SigNum) { t in s.tcb && b in s.tcb[t].sigAlloc }

  /** The event is an AllocSignal of `t` that returns `b`. */
  ghost predicate Grants<T>(s: State<T>, e: Event<T>, t: T, b: SigNum) {
    e.AllocSignal? && s.thisTask == Some(t) && t in s.tcb && RightSignal(s.tcb[t].sigAlloc, e.num, b)
  }

  /** The event is a FreeSignal of `t` that gives `b` back. */
  ghost predicate Frees<T>(s: State<T>, e: Event<T>, t: T, b: SigNum) {
    e.FreeSignal? && s.thisTask == Some(t) && e.num == b
  }

  // ----- one step

  lemma AllocAfterScheduled<T>(s: State<T>, t: T)
    requires Inv(s) && t in s.tcb && t in Scheduled(s).tcb
    ensures Scheduled(s).tcb[t].sigAlloc == s.tcb[t].sigAlloc
  {
    if s.tdNest < 0 && s.ready != [] {
      RetireKeeps(s);
      assert Scheduled(s) == Launch(Retire(s));
      RecordsAfterLaunch(Retire(s), t);
      hide Ordered, NoneLost, Switchable, Enqueued, Scheduled;
    }
  }

  /** A signal of a live task is allocated by the AllocSignal that returns it, and freed by a FreeSignal of
      this signal: nothing else changes that. */
  lemma AllocatedStep<T>(s: State<T>, e: Event<T>, t: T, b: SigNum)
    requires Inv(s) && Enabled(s, e) && t in s.tcb && t in Next(s, e).tcb
    ensures Allocated(Next(s, e), t, b) <==> Grants(s, e, t, b) || (Allocated(s, t, b) && !Frees(s, e, t, b))
    ensures Grants(s, e, t, b) ==> !Allocated(s, t, b)
  {
    match e
    case Schedule => AllocAfterScheduled(s, t);
    case Sleep(sigs) =>
      FellAsleep(s, sigs);
      AllocAfterScheduled(Parked(s, sigs), t);
    case Exit =>
      var u := s.thisTask.value;
      var r := s.tcb[u].(state := REMOVED);
      RecordKeeps(s, u, r);
      AllocAfterScheduled(UpdateThis(s, r), t);
    case AllocSignal(num) =>
      SearchIsRight(s.tcb[t].sigAlloc, num, b);
      hide Ordered, NoneLost, Switchable, FreeBelow, SearchFrom, RightSignal;
    case _ => hide Ordered, NoneLost, Switchable, Enqueued;
  }

  /** A signal is clean when it is handed out: neither pending nor waited for, and no exception. */
  lemma GrantedClean<T>(s: State<T>, e: Event<T>, t: T, b: SigNum)
    requires Inv(s) && Enabled(s, e) && Grants(s, e, t, b)
    ensures var n := Next(s, e);
            && t in n.tcb
            && n.tcb[t] == s.tcb[t].(sigAlloc := s.tcb[t].sigAlloc + {b}, sigRecvd := s.tcb[t].sigRecvd - {b},
                                     sigExcept := s.tcb[t].sigExcept - {b}, sigWait := s.tcb[t].sigWait - {b})
  {
    SearchIsRight(s.tcb[t].sigAlloc, e.num, b);
    hide Inv, FreeBelow, SearchFrom, RightSignal;
  }

  lemma NewTaskHasNone<T>(s: State<T>, e: Event<T>, t: T, b: SigNum)
    requires Inv(s) && Enabled(s, e) && t !in s.tcb
    ensures !Allocated(Next(s, e), t, b)
  {
    LivingStep(s, e, t);
    hide Ordered, NoneLost, Switchable, Enqueued, Destroys;
  }

  // ----- whole runs

  /** From the AllocSignal that returns it, a signal is allocated until its task frees it or is gone. */
  lemma {:induction false} AllocatedUntilFreed<T>(ss: seq<State<T>>, es: seq<Event<T>>, t: T, b: SigNum,
                                                  i: nat, j: nat)
    returns (k: nat)
    requires |ss| == |es| + 1 && i <= j <= |es| && IsRun(ss, es) && Allocated(ss[i], t, b)
    ensures i <= k <= j && forall m :: i <= m <= k ==> Allocated(ss[m], t, b)
    ensures k == j || Frees(ss[k], es[k], t, b) || t !in ss[k + 1].tcb
    decreases j - i
  {
    k := i;
    if i < j {
      RunKeeps(ss, es, i);
      if t in ss[i + 1].tcb && !Frees(ss[i], es[i], t, b) {
        AllocatedStep(ss[i], es[i], t, b);
        hide IsRun, Inv, Enabled, Next, Grants, Frees;
        k := AllocatedUntilFreed(ss, es, t, b, i + 1, j);
      }
    }
  }

  /** No signal is handed out twice: between two AllocSignals of a task that return the same signal, the
      task has given it back, or it ended and was added anew. */
  lemma {:induction false} GrantedOnce<T>(ss: seq<State<T>>, es: seq<Event<T>>, t: T, b: SigNum, i: nat, j: nat)
    returns (k: nat)
    requires |ss| == |es| + 1 && i < j < |es| && IsRun(ss, es)
    requires Grants(ss[i], es[i], t, b) && Grants(ss[j], es[j], t, b)
    ensures !Allocated(ss[i], t, b) && Allocated(ss[i + 1], t, b)
    ensures i < k < j && (Frees(ss[k], es[k], t, b) || t !in ss[k + 1].tcb)
  {
    hide *;
    GrantedAt(ss, es, t, b, i);
    GrantedAt(ss, es, t, b, j);
    k := AllocatedUntilFreed(ss, es, t, b, i + 1, j);
  }

  lemma GrantedAt<T>(ss: seq<State<T>>, es: seq<Event<T>>, t: T, b: SigNum, i: nat)
    requires |ss| == |es| + 1 && i < |es| && IsRun(ss, es) && Grants(ss[i], es[i], t, b)
    ensures !Allocated(ss[i], t, b) && Allocated(ss[i + 1], t, b)
  {
    RunKeeps(ss, es, i);
    GrantedClean(ss[i], es[i], t, b);
    hide Inv, Enabled, Next, IsRun;
  }

  /** A signal that was given back is free until it is returned again, also if the task ends and is
      added anew meanwhile ... */
  lemma {:induction false} FreeUntilGranted<T>(ss: seq<State<T>>, es: seq<Event<T>>, t: T, b: SigNum, i: nat, j: nat)
    requires |ss| == |es| + 1 && i < j <= |es| && IsRun(ss, es) && Frees(ss[i], es[i], t, b)
    requires forall k :: i < k < j ==> !Grants(ss[k], es[k], t, b)
    ensures !Allocated(ss[j], t, b)
    decreases j
  {
    hide *;
    RunKeeps(ss, es, j - 1);
    if i + 1 < j {
      FreeUntilGranted(ss, es, t, b, i, j - 1);
      StaysFree(ss[j - 1], es[j - 1], t, b);
    } else {
      FreedStep(ss[i], es[i], t, b);
    }
  }

  lemma StaysFree<T>(s: State<T>, e: Event<T>, t: T, b: SigNum)
    requires Inv(s) && Enabled(s, e) && !Allocated(s, t, b) && !Grants(s, e, t, b)
    ensures !Allocated(Next(s, e), t, b)
  {
    hide Inv, Enabled, Next, Grants, Frees;
    if t !in s.tcb {
      NewTaskHasNone(s, e, t, b);
    } else if t in Next(s, e).tcb {
      AllocatedStep(s, e, t, b);
    }
  }

  lemma FreedStep<T>(s: State<T>, e: Event<T>, t: T, b: SigNum)
    requires Inv(s) && Enabled(s, e) && Frees(s, e, t, b)
    ensures !Allocated(Next(s, e), t, b)
  {
  }

  /** ... and an AllocSignal that asks for it gets it. */
  lemma FreedIsAvailable<T>(ss: seq<State<T>>, es: seq<Event<T>>, t: T, b: SigNum, i: nat, j: nat)
    requires |ss| == |es| + 1 && i < j < |es| && IsRun(ss, es) && Frees(ss[i], es[i], t, b)
    requires forall k :: i < k < j ==> !Grants(ss[k], es[k], t, b)
    requires ss[j].thisTask == Some(t) && es[j] == Event<T>.AllocSignal(b)
    ensures Grants(ss[j], es[j], t, b)
  {
    FreeUntilGranted(ss, es, t, b, i, j);
    RunKeeps(ss, es, j);
    hide IsRun, NoneLost, Ordered, Switchable;
  }
}
