/** Semaphores on top of tasks: the Wait in a contended Obtain and the Signal in ReleaseSemaphore
    are those of the kernel machine, on SIGF_SEMAPHORE.  `SemaphoreModel` lets a waiter resume
    when it has been handed the semaphore; here it resumes when its Wait returns, as in the code,
    and the two are proved to be the same.

    `suspends` false selects the code as written: the Forbid of a contended Obtain is in force
    during its Wait.  With `suspends` true the Wait suspends Forbid, however deeply nested, until
    it returns, as it is meant to.  `twice` is that of `SemaphoreModel`. */
module SemaphoreTasks {
  import opened Options
  import T = TaskModel
  import TaskProofs
  import S = SemaphoreModel
  import SemaphoreProofs

  /** SIGB_SEMAPHORE. */
  const SEM: T.SigNum := 4

  type Kernel = T.State<nat>

  /** `suspended` has the nest counts to restore when the Waits that suspend Forbid return. */
  datatype Whole = Whole(kernel: Kernel, sem: S.Sem, suspended: map<nat, T.Int8>)

  /** `Call` is any other kernel call, or a tick. */
  datatype Event =
    | Call(c: T.Event<nat>)
    | Obtain(mode: S.Mode)
    | Attempt(mode: S.Mode)
    | Resume
    | Release(hold: nat)

  /** The caller is the running task. */
  function Me(w: Whole): nat
    requires w.kernel.thisTask.Some?
  {
    w.kernel.thisTask.value
  }

  /** Only ReleaseSemaphore sends SIGF_SEMAPHORE, and a task inside a contended Obtain does
      nothing but sleep in its Wait. */
  predicate Behaved(w: Whole, c: T.Event<nat>) {
    match c
    case Signal(_, mask) => SEM !in mask
    case AddTask(_, _) => true
    case Schedule => true
    case _ => w.kernel.thisTask.Some? && Me(w) in w.sem.blocked ==> c == T.Sleep({SEM})
  }

  ghost predicate Enabled(w: Whole, e: Event) {
    && T.Inv(w.kernel)
    && match e
       case Call(c) => T.Enabled(w.kernel, c) && Behaved(w, c)
       case Obtain(m) => T.Running(w.kernel) && S.Enabled(w.sem, S.Obtain(Me(w), m))
       case Attempt(m) => T.Running(w.kernel) && S.Enabled(w.sem, S.Attempt(Me(w), m))
       case Resume => T.Enabled(w.kernel, T.Collect({SEM})) && Me(w) in w.sem.blocked
       case Release(k) => T.Running(w.kernel) && S.Enabled(w.sem, S.Release(k)) && w.sem.holds[k].task == Me(w)
  }

  /** A release that signals a waiter. */
  predicate HandsOver(s: S.Sem, k: nat)
    requires k < |s.holds|
  {
    S.Dropped(s, k).nest == 0 && s.waitQueue != []
  }

  /** TDNestCnt when a contended Obtain gets to its Wait ... */
  function NestAtWait(nest: T.Int8, suspends: bool): T.Int8 {
    if suspends then (if nest < 0 then nest else -1) else T.Wrap8(nest + 1)
  }

  /** ... and when it is done. */
  function NestBehind(w: Whole, suspends: bool): T.Int8
    requires w.kernel.thisTask.Some?
  {
    if !suspends then T.Wrap8(w.kernel.tdNest - 1)
    else if Me(w) in w.suspended then w.suspended[Me(w)] else w.kernel.tdNest
  }

  lemma NestFree(k: Kernel, nest: T.Int8)
    requires T.Inv(k)
    ensures T.Inv(k.(tdNest := nest))
  {
  }

  /** A contended Obtain up to its Wait: Forbid, and `SigRecvd &= ~SIGF_SEMAPHORE`. */
  function UpToWait(k: Kernel, suspends: bool): Kernel
    requires T.Inv(k) && T.Running(k)
  {
    NestFree(k, NestAtWait(k.tdNest, suspends));
    T.Next(k.(tdNest := NestAtWait(k.tdNest, suspends)), T.SetSignal({}, {SEM}))
  }

  /** The rest of it: Wait returns, and Permit. */
  function FromWait(w: Whole, suspends: bool): Kernel
    requires T.Inv(w.kernel) && T.Enabled(w.kernel, T.Collect({SEM}))
  {
    T.Next(w.kernel, T.Collect({SEM})).(tdNest := NestBehind(w, suspends))
  }

  /** As written, the nest count changes as Forbid and Permit change it. */
  lemma AsWritten(k: Kernel)
    requires T.Inv(k)
    ensures T.Next(k, T.Forbid) == k.(tdNest := NestAtWait(k.tdNest, false))
    ensures T.Next(k, T.Permit) == k.(tdNest := T.Wrap8(k.tdNest - 1))
  {
    hide T.Inv;
  }

  /** In the other branches and calls Forbid and Permit cancel each other ... */
  lemma BracketCancels(k: Kernel, f: Kernel)
    requires T.Inv(k) && f == T.Next(k, T.Forbid)
    ensures T.Inv(f) && T.Next(f, T.Permit) == k
  {
    TaskProofs.NextKeeps(k, T.Forbid);
    hide T.Inv;
  }

  /** ... and the Signal of a release does not depend on the count. */
  lemma SignalCommutes(k: Kernel, nest: T.Int8, t: nat, mask: T.Mask)
    requires T.Inv(k) && t in k.tcb
    ensures var f := k.(tdNest := nest);
            && T.Closed(f) && (f.tcb[t].state == T.WAIT ==> t in f.wait)
            && T.Signalled(f, t, mask) == T.Signalled(k, t, mask).(tdNest := nest)
  {
    hide T.Ordered, T.NoneLost, T.Switchable, T.Enqueued;
  }

  lemma AtTheWait(k: Kernel, suspends: bool)
    requires T.Inv(k) && T.Running(k)
    ensures var n := UpToWait(k, suspends);
            && T.Inv(n) && n.thisTask == k.thisTask && T.Running(n) && n.tdNest == NestAtWait(k.tdNest, suspends)
            && (T.Enabled(n, T.Sleep({SEM})) <==> NestAtWait(k.tdNest, suspends) < 0 && k.ready != [])
  {
    var f, c := k.(tdNest := NestAtWait(k.tdNest, suspends)), T.SetSignal({}, {SEM});
    NestFree(k, f.tdNest);
    TaskProofs.NextKeeps(f, c);
    var n := T.Next(f, c);
    assert n.tcb[n.thisTask.value].sigRecvd * {SEM} == {};
    hide T.Inv, NestAtWait;
  }

  lemma HandedAtReturn(w: Whole, twice: bool)
    requires Agree(w, twice) && Enabled(w, Resume)
    ensures S.Enabled(w.sem, S.Resume(Me(w)))
  {
    assert Waits(w.kernel, Me(w), Me(w) in w.sem.signalled);
    hide T.Inv, S.Inv;
  }

  lemma WaiterLives(w: Whole, twice: bool)
    requires Agree(w, twice)
    ensures w.sem.waitQueue != [] ==> w.sem.waitQueue[0] in w.kernel.tcb
  {
    if w.sem.waitQueue != [] {
      assert w.sem.waitQueue[0] in w.sem.blocked;
      hide T.Inv, S.Inv;
    }
  }

  function Obtained(w: Whole, m: S.Mode, twice: bool, suspends: bool): Whole
    requires Agree(w, twice) && Enabled(w, Obtain(m))
  {
    var n := S.Next(w.sem, S.Obtain(Me(w), m), twice);
    if Me(w) in n.blocked then Whole(UpToWait(w.kernel, suspends), n, w.suspended[Me(w) := w.kernel.tdNest])
    else w.(sem := n)
  }

  function Resumed(w: Whole, twice: bool, suspends: bool): Whole
    requires Agree(w, twice) && Enabled(w, Resume)
  {
    HandedAtReturn(w, twice);
    w.(kernel := FromWait(w, suspends), sem := S.Next(w.sem, S.Resume(Me(w)), twice))
  }

  function Released(w: Whole, k: nat, twice: bool): Whole
    requires Agree(w, twice) && Enabled(w, Release(k))
  {
    WaiterLives(w, twice);
    var n := S.Next(w.sem, S.Release(k), twice);
    if HandsOver(w.sem, k) then w.(sem := n, kernel := T.Next(w.kernel, T.Signal(w.sem.waitQueue[0], {SEM})))
    else w.(sem := n)
  }

  function Next(w: Whole, e: Event, twice: bool, suspends: bool): Whole
    requires Agree(w, twice) && Enabled(w, e)
  {
    match e
    case Call(c) => w.(kernel := T.Next(w.kernel, c))
    case Obtain(m) => Obtained(w, m, twice, suspends)
    case Attempt(m) => w.(sem := S.Next(w.sem, S.Attempt(Me(w), m), twice))
    case Resume => Resumed(w, twice, suspends)
    case Release(k) => Released(w, k, twice)
  }

  // ----- the invariant

  /** A task inside a contended Obtain: if it is asleep, it sleeps on SIGF_SEMAPHORE, which is
      pending exactly if it has been handed the semaphore. */
  ghost predicate Waits(k: Kernel, t: nat, handed: bool) {
    && t in k.tcb && k.tcb[t].state != T.REMOVED
    && (k.tcb[t].state == T.WAIT ==> k.tcb[t].sigWait == {SEM})
    && (SEM in k.tcb[t].sigRecvd <==> handed)
  }

  ghost predicate Agree(w: Whole, twice: bool) {
    && T.Inv(w.kernel) && S.Inv(w.sem, twice)
    && forall t <- w.sem.blocked :: Waits(w.kernel, t, t in w.sem.signalled)
  }

  /** The bit of a waiter changes as a signal does, and it remains a proper waiter. */
  lemma WaiterThrough(k: Kernel, c: T.Event<nat>, t: nat, before: bool, after: bool)
    requires T.Inv(k) && T.Enabled(k, c) && Waits(k, t, before)
    requires k.thisTask == Some(t) ==> !c.Exit? && (c.Sleep? ==> c.sigs == {SEM})
    requires after <==> TaskProofs.Posted(k, c, t, SEM)
                        || (before && !TaskProofs.Returned(k, c, t, SEM) && !TaskProofs.Cleared(k, c, t, SEM))
    ensures T.Inv(T.Next(k, c)) && Waits(T.Next(k, c), t, after)
  {
    TaskProofs.StaysAlive(k, c, t);
    TaskProofs.NextKeeps(k, c);
    TaskProofs.PendingStep(k, c, t, SEM);
    hide T.Inv, T.Enabled, T.Next, TaskProofs.Posted, TaskProofs.Returned, TaskProofs.Cleared;
  }

  // ----- what the calls do to the waiters on the semaphore's side

  lemma SemAfterObtain(s: S.Sem, t: nat, m: S.Mode, twice: bool)
    requires S.Inv(s, twice) && S.Enabled(s, S.Obtain(t, m))
    ensures var n := S.Next(s, S.Obtain(t, m), twice);
            && S.Inv(n, twice) && n.signalled == s.signalled && t !in s.signalled
            && n.blocked == if t in n.blocked then s.blocked[t := m] else s.blocked
  {
    SemaphoreProofs.NextKeeps(s, S.Obtain(t, m), twice);
    hide S.Counting, S.Owning;
  }

  lemma SemAfterAttempt(s: S.Sem, t: nat, m: S.Mode, twice: bool)
    requires S.Inv(s, twice) && S.Enabled(s, S.Attempt(t, m))
    ensures var n := S.Next(s, S.Attempt(t, m), twice);
            S.Inv(n, twice) && n.signalled == s.signalled && n.blocked == s.blocked
  {
    SemaphoreProofs.NextKeeps(s, S.Attempt(t, m), twice);
    hide S.Inv;
  }

  lemma SemAfterResume(s: S.Sem, t: nat, twice: bool)
    requires S.Inv(s, twice) && S.Enabled(s, S.Resume(t))
    ensures var n := S.Next(s, S.Resume(t), twice);
            S.Inv(n, twice) && n.signalled == s.signalled - {t} && n.blocked == s.blocked - {t}
  {
    SemaphoreProofs.NextKeeps(s, S.Resume(t), twice);
    hide S.Inv;
  }

  lemma SemAfterRelease(s: S.Sem, k: nat, twice: bool)
    requires S.Inv(s, twice) && S.Enabled(s, S.Release(k))
    ensures var n := S.Next(s, S.Release(k), twice);
            && S.Inv(n, twice) && n.blocked == s.blocked
            && n.signalled == (if HandsOver(s, k) then s.signalled + {s.waitQueue[0]} else s.signalled)
            && (HandsOver(s, k) ==> s.waitQueue[0] in s.blocked && s.waitQueue[0] !in s.signalled)
  {
    SemaphoreProofs.NextKeeps(s, S.Release(k), twice);
    hide S.Counting, S.Owning;
  }

  // ----- every step keeps the two in agreement

  lemma CallKeeps(w: Whole, c: T.Event<nat>, twice: bool, suspends: bool)
    requires Agree(w, twice) && Enabled(w, Call(c))
    ensures Agree(Next(w, Call(c), twice, suspends), twice)
  {
    TaskProofs.NextKeeps(w.kernel, c);
    forall t | t in w.sem.blocked ensures Waits(T.Next(w.kernel, c), t, t in w.sem.signalled) {
      WaiterThrough(w.kernel, c, t, t in w.sem.signalled, t in w.sem.signalled);
    }
  }

  lemma ObtainKeeps(w: Whole, m: S.Mode, twice: bool, suspends: bool)
    requires Agree(w, twice) && Enabled(w, Obtain(m))
    ensures Agree(Next(w, Obtain(m), twice, suspends), twice)
  {
    var me, n, c := Me(w), Next(w, Obtain(m), twice, suspends), T.SetSignal({}, {SEM});
    var f := w.kernel.(tdNest := NestAtWait(w.kernel.tdNest, suspends));
    SemAfterObtain(w.sem, me, m, twice);
    if me in n.sem.blocked {
      NestFree(w.kernel, f.tdNest);
      TaskProofs.NextKeeps(f, c);
      forall t | t in n.sem.blocked ensures Waits(n.kernel, t, t in n.sem.signalled) {
        WaiterThrough(f, c, t, SEM in f.tcb[t].sigRecvd, t in n.sem.signalled);
      }
    }
  }

  lemma ResumeKeeps(w: Whole, twice: bool, suspends: bool)
    requires Agree(w, twice) && Enabled(w, Resume)
    ensures Agree(Next(w, Resume, twice, suspends), twice)
  {
    var me, n, c := Me(w), Next(w, Resume, twice, suspends), T.Collect({SEM});
    var k := T.Next(w.kernel, c);
    SemAfterResume(w.sem, me, twice);
    TaskProofs.NextKeeps(w.kernel, c);
    NestFree(k, n.kernel.tdNest);
    forall t | t in n.sem.blocked ensures Waits(n.kernel, t, t in n.sem.signalled) {
      WaiterThrough(w.kernel, c, t, t in w.sem.signalled, t in n.sem.signalled);
      assert n.kernel.tcb == k.tcb;
    }
  }

  lemma ReleaseKeeps(w: Whole, k: nat, twice: bool, suspends: bool)
    requires Agree(w, twice) && Enabled(w, Release(k))
    ensures Agree(Next(w, Release(k), twice, suspends), twice)
  {
    var n := Next(w, Release(k), twice, suspends);
    SemAfterRelease(w.sem, k, twice);
    if HandsOver(w.sem, k) {
      var c := T.Signal(w.sem.waitQueue[0], {SEM});
      TaskProofs.NextKeeps(w.kernel, c);
      forall t | t in n.sem.blocked ensures Waits(n.kernel, t, t in n.sem.signalled) {
        WaiterThrough(w.kernel, c, t, t in w.sem.signalled, t in n.sem.signalled);
      }
    }
  }

  /** Every step keeps kernel and semaphore consistent: the awaited bit of a task inside a
      contended Obtain is pending exactly if it has been handed the semaphore. */
  lemma NextKeeps(w: Whole, e: Event, twice: bool, suspends: bool)
    requires Agree(w, twice) && Enabled(w, e)
    ensures Agree(Next(w, e, twice, suspends), twice)
  {
    match e
    case Call(c) => CallKeeps(w, c, twice, suspends);
    case Obtain(m) => ObtainKeeps(w, m, twice, suspends);
    case Attempt(m) => SemAfterAttempt(w.sem, Me(w), m, twice);
    case Resume => ResumeKeeps(w, twice, suspends);
    case Release(k) => ReleaseKeeps(w, k, twice, suspends);
  }

  /** A run starts with a semaphore that InitSemaphore has just set up. */
  ghost predicate IsRun(ws: seq<Whole>, es: seq<Event>, twice: bool, suspends: bool) {
    && |ws| == |es| + 1
    && T.Inv(ws[0].kernel) && ws[0].sem == S.Init() && ws[0].suspended == map[]
    && (forall i {:trigger es[i]} :: 0 <= i < |es| && Agree(ws[i], twice) ==>
          Enabled(ws[i], es[i]) && ws[i + 1] == Next(ws[i], es[i], twice, suspends))
  }

  lemma {:induction false} RunKeeps(ws: seq<Whole>, es: seq<Event>, twice: bool, suspends: bool, i: nat)
    requires IsRun(ws, es, twice, suspends) && i < |ws|
    ensures Agree(ws[i], twice)
    ensures i < |es| ==> Enabled(ws[i], es[i]) && ws[i + 1] == Next(ws[i], es[i], twice, suspends)
  {
    if i == 0 {
      SemaphoreProofs.InitInv(twice);
    } else {
      RunKeeps(ws, es, twice, suspends, i - 1);
      NextKeeps(ws[i - 1], es[i - 1], twice, suspends);
    }
    assert i < |es| ==> es[i] == es[i];
  }

  // ----- hand-overs and wakeups

  /** Behind a contended Obtain its caller can sleep exactly if another task is ready and, as
      written, TDNestCnt is negative in spite of the Forbid. */
  lemma ObtainSleepsIff(w: Whole, m: S.Mode, twice: bool, suspends: bool)
    requires Agree(w, twice) && Enabled(w, Obtain(m)) && Me(w) in Next(w, Obtain(m), twice, suspends).sem.blocked
    ensures Enabled(Next(w, Obtain(m), twice, suspends), Call(T.Sleep({SEM})))
       <==> w.kernel.ready != [] && (suspends || T.Wrap8(w.kernel.tdNest + 1) < 0)
  {
    AtTheWait(w.kernel, suspends);
    assert Next(w, Obtain(m), twice, suspends).kernel == UpToWait(w.kernel, suspends);
    assert NestAtWait(w.kernel.tdNest, suspends) < 0 <==> suspends || T.Wrap8(w.kernel.tdNest + 1) < 0;
    hide T.Inv, T.Enabled, T.Wrap8, S.Inv, S.Next, Agree, UpToWait, NestAtWait;
  }

  /** The Wait of a contended Obtain returns exactly if its task has been handed the semaphore;
      woken by anything else, the task finds its bit clear and may go back to sleep. */
  lemma ReturnsIffHandedOver(w: Whole, twice: bool)
    requires Agree(w, twice) && T.Running(w.kernel) && Me(w) in w.sem.blocked
    ensures Enabled(w, Resume) <==> Me(w) in w.sem.signalled
    ensures Enabled(w, Resume) <==> S.Enabled(w.sem, S.Resume(Me(w)))
    ensures Me(w) !in w.sem.signalled ==> w.kernel.tcb[Me(w)].sigRecvd * {SEM} == {}
  {
    var r := w.kernel.tcb[Me(w)].sigRecvd;
    assert SEM in r <==> r * {SEM} != {} by { assert SEM in r ==> SEM in r * {SEM}; }
  }

  /** A hand-over takes the first waiter out of its sleep, if it was asleep, with its bit set. */
  lemma HandOverWakes(w: Whole, k: nat, twice: bool, suspends: bool)
    requires Agree(w, twice) && Enabled(w, Release(k)) && HandsOver(w.sem, k)
    ensures var n, t := Next(w, Release(k), twice, suspends), w.sem.waitQueue[0];
            && t in n.sem.blocked && t in n.sem.signalled && t !in w.sem.signalled
            && t in n.kernel.tcb && n.kernel.tcb[t].state != T.WAIT && SEM in n.kernel.tcb[t].sigRecvd
            && (w.kernel.tcb[t].state == T.WAIT ==> t in n.kernel.ready)
  {
    var n, t := Next(w, Release(k), twice, suspends), w.sem.waitQueue[0];
    HandedOver(w, k, twice, suspends);
    hide T.Inv, T.Enabled, S.Inv, S.Enabled, Agree, Enabled, Next, HandsOver, T.Signalled;
    AwakeIfPending(n.kernel, t);
    SignalWakes(w.kernel, t, {SEM});
  }

  lemma SignalSent(w: Whole, k: nat, twice: bool, suspends: bool)
    requires Agree(w, twice) && Enabled(w, Release(k)) && HandsOver(w.sem, k)
    ensures var n, t := Next(w, Release(k), twice, suspends), w.sem.waitQueue[0];
            T.Inv(w.kernel) && t in w.kernel.tcb && n.kernel == T.Signalled(w.kernel, t, {SEM})
  {
    WaiterLives(w, twice);
    assert T.Inv(w.kernel);
    KernelOfRelease(w, k, twice, suspends);
    hide Next, Agree, Enabled, HandsOver, T.Inv, T.Signalled, S.Inv, S.Enabled;
  }

  lemma KernelOfRelease(w: Whole, k: nat, twice: bool, suspends: bool)
    requires Agree(w, twice) && Enabled(w, Release(k)) && HandsOver(w.sem, k)
    ensures var t := w.sem.waitQueue[0];
            T.Inv(w.kernel) && t in w.kernel.tcb
            && Next(w, Release(k), twice, suspends).kernel == T.Next(w.kernel, T.Signal(t, {SEM}))
  {
    WaiterLives(w, twice);
    assert T.Inv(w.kernel);
    assert Next(w, Release(k), twice, suspends) == Released(w, k, twice) by { hide Released, T.Inv, Agree, Enabled; }
    hide Next, Agree, Enabled, HandsOver, T.Inv, T.Next, T.Enabled, S.Inv, S.Enabled, S.Next;
  }

  lemma HandedOver(w: Whole, k: nat, twice: bool, suspends: bool)
    requires Agree(w, twice) && Enabled(w, Release(k)) && HandsOver(w.sem, k)
    ensures var n, t := Next(w, Release(k), twice, suspends), w.sem.waitQueue[0];
            && T.Inv(w.kernel) && T.Inv(n.kernel) && t in w.kernel.tcb
            && n.kernel == T.Signalled(w.kernel, t, {SEM}) && Waits(n.kernel, t, true)
            && t in n.sem.blocked && t in n.sem.signalled && t !in w.sem.signalled
  {
    SignalSent(w, k, twice, suspends);
    SemSteps(w, Release(k), twice, suspends);
    ReleaseKeeps(w, k, twice, suspends);
    hide T.Inv, T.Enabled, T.Running, T.Signalled, S.Inv, S.Next, S.Enabled, Enabled, Next, HandsOver, Waits;
    SemAfterRelease(w.sem, k, twice);
  }

  lemma AwakeIfPending(k: Kernel, t: nat)
    requires T.Inv(k) && Waits(k, t, true)
    ensures k.tcb[t].state != T.WAIT
  {
    assert SEM in k.tcb[t].sigRecvd * {SEM};
  }

  lemma SignalWakes(k: Kernel, t: nat, mask: T.Mask)
    requires T.Inv(k) && t in k.tcb
    ensures k.tcb[t].state == T.WAIT ==> t in T.Signalled(k, t, mask).ready
  {
    var n := T.Signalled(k, t, mask);
    TaskProofs.SignalledKeeps(k, t, mask);
    assert t in n.tcb && (k.tcb[t].state == T.WAIT ==> n.tcb[t].state == T.READY);
    hide T.Signalled, T.Ordered, T.NoneLost, T.Switchable;
  }

  ghost predicate HandsTo(w: Whole, e: Event, t: nat) {
    e.Release? && e.hold < |w.sem.holds| && HandsOver(w.sem, e.hold) && w.sem.waitQueue[0] == t
  }

  /** Task `t` waits and has not been handed the semaphore. */
  ghost predicate Empty(s: S.Sem, t: nat) { t in s.blocked && t !in s.signalled }

  /** On the semaphore's side, only a hand-over to a waiter that has none changes that. */
  lemma StaysEmptyThere(s: S.Sem, e: S.Event, twice: bool, t: nat)
    requires S.Inv(s, twice) && S.Enabled(s, e) && Empty(s, t)
    requires e.Release? && HandsOver(s, e.hold) ==> s.waitQueue[0] != t
    ensures Empty(S.Next(s, e, twice), t)
  {
    match e
    case Obtain(u, m) => SemAfterObtain(s, u, m, twice);
    case Attempt(u, m) => SemAfterAttempt(s, u, m, twice);
    case Resume(u) => SemAfterResume(s, u, twice);
    case Release(k) => SemAfterRelease(s, k, twice);
    hide S.Inv, S.Next, HandsOver;
  }

  /** The event on the semaphore's side. */
  function SemEvent(w: Whole, e: Event): S.Event
    requires !e.Call? && w.kernel.thisTask.Some?
  {
    match e
    case Obtain(m) => S.Obtain(Me(w), m)
    case Attempt(m) => S.Attempt(Me(w), m)
    case Resume => S.Resume(Me(w))
    case Release(k) => S.Release(k)
  }

  lemma SemSteps(w: Whole, e: Event, twice: bool, suspends: bool)
    requires Agree(w, twice) && Enabled(w, e)
    ensures S.Inv(w.sem, twice)
    ensures e.Call? ==> Next(w, e, twice, suspends).sem == w.sem
    ensures !e.Call? ==> w.kernel.thisTask.Some?
    ensures !e.Call? ==> S.Enabled(w.sem, SemEvent(w, e))
    ensures !e.Call? ==> Next(w, e, twice, suspends).sem == S.Next(w.sem, SemEvent(w, e), twice)
  {
    if e == Resume { HandedAtReturn(w, twice); }
    hide T.Inv, S.Inv, S.Next, T.Next, UpToWait, FromWait, HandsOver;
  }

  /** No other event moves a waiter that has not been handed the semaphore. */
  lemma StaysEmpty(w: Whole, e: Event, twice: bool, suspends: bool, t: nat)
    requires Agree(w, twice) && Enabled(w, e) && Empty(w.sem, t) && !HandsTo(w, e, t)
    ensures Empty(Next(w, e, twice, suspends).sem, t)
  {
    SemSteps(w, e, twice, suspends);
    hide Agree, Enabled, Next, HandsOver, Empty, T.Inv, T.Running, S.Inv, S.Next;
    if !e.Call? { StaysEmptyThere(w.sem, SemEvent(w, e), twice, t); }
  }

  lemma {:induction false} EmptyUntilHandedOver(ws: seq<Whole>, es: seq<Event>, twice: bool, suspends: bool,
                                                t: nat, i: nat, j: nat)
    requires IsRun(ws, es, twice, suspends) && i <= j <= |es| < |ws| && Empty(ws[i].sem, t)
    requires forall k :: i <= k < j ==> !HandsTo(ws[k], es[k], t)
    ensures Empty(ws[j].sem, t)
    decreases j
  {
    hide *;
    if i < j {
      EmptyUntilHandedOver(ws, es, twice, suspends, t, i, j - 1);
      RunKeeps(ws, es, twice, suspends, j - 1);
      StaysEmpty(ws[j - 1], es[j - 1], twice, suspends, t);
    }
  }

  lemma EmptyAfterObtain(w: Whole, m: S.Mode, twice: bool, suspends: bool, t: nat)
    requires Agree(w, twice) && Enabled(w, Obtain(m)) && w.kernel.thisTask == Some(t)
    ensures t in Next(w, Obtain(m), twice, suspends).sem.blocked ==> Empty(Next(w, Obtain(m), twice, suspends).sem, t)
  {
    SemAfterObtain(w.sem, t, m, twice);
    hide T.Inv, S.Inv, S.Next, T.Next;
  }

  lemma NotEmptyAtResume(w: Whole, twice: bool, t: nat)
    requires Agree(w, twice) && Enabled(w, Resume) && w.kernel.thisTask == Some(t)
    ensures !Empty(w.sem, t)
  {
    ReturnsIffHandedOver(w, twice);
    hide T.Inv, S.Inv;
  }

  /** In every run: between the contended Obtain of a task and the return of its Wait, some
      ReleaseSemaphore has handed the semaphore to this very task, whatever other signals it got. */
  lemma ResumedAfterHandOver(ws: seq<Whole>, es: seq<Event>, twice: bool, suspends: bool, t: nat, i: nat, j: nat)
    requires IsRun(ws, es, twice, suspends) && i < j < |es| < |ws|
    requires es[i].Obtain? && ws[i].kernel.thisTask == Some(t) && t in ws[i + 1].sem.blocked
    requires es[j] == Resume && ws[j].kernel.thisTask == Some(t)
    ensures exists k :: i < k < j && HandsTo(ws[k], es[k], t)
  {
    hide *;
    RunKeeps(ws, es, twice, suspends, i);
    EmptyAfterObtain(ws[i], es[i].mode, twice, suspends, t);
    RunKeeps(ws, es, twice, suspends, j);
    NotEmptyAtResume(ws[j], twice, t);
    if forall k :: i < k < j ==> !HandsTo(ws[k], es[k], t) {
      EmptyUntilHandedOver(ws, es, twice, suspends, t, i + 1, j);
    }
  }

  // ----- the nest count

  /** The nest count to restore is kept while the task waits. */
  lemma StaysSuspended(w: Whole, e: Event, twice: bool, suspends: bool, t: nat)
    requires Agree(w, twice) && Enabled(w, e) && t in w.sem.blocked && t in w.suspended
    requires e == Resume ==> w.kernel.thisTask != Some(t)
    ensures var n := Next(w, e, twice, suspends);
            t in n.sem.blocked && t in n.suspended && n.suspended[t] == w.suspended[t]
  {
    match e
    case Call(_) =>
      hide T.Inv, S.Inv, T.Next;
    case Obtain(m) =>
      SemAfterObtain(w.sem, Me(w), m, twice);
      assert Me(w) !in w.sem.blocked;
      hide T.Inv, S.Inv, S.Next, UpToWait;
    case Attempt(m) =>
      SemAfterAttempt(w.sem, Me(w), m, twice);
      hide T.Inv, S.Inv, S.Next;
    case Resume =>
      HandedAtReturn(w, twice);
      SemAfterResume(w.sem, Me(w), twice);
      hide T.Inv, S.Inv, S.Next, FromWait;
    case Release(k) =>
      SemAfterRelease(w.sem, k, twice);
      hide T.Inv, S.Inv, S.Next, T.Next, HandsOver;
  }

  lemma {:induction false} SuspendedUntilReturn(ws: seq<Whole>, es: seq<Event>, twice: bool, suspends: bool,
                                                t: nat, i: nat, j: nat)
    requires IsRun(ws, es, twice, suspends) && i <= j <= |es| < |ws|
    requires t in ws[i].sem.blocked && t in ws[i].suspended
    requires forall k :: i <= k < j && es[k] == Resume ==> ws[k].kernel.thisTask != Some(t)
    ensures t in ws[j].sem.blocked && t in ws[j].suspended && ws[j].suspended[t] == ws[i].suspended[t]
    decreases j
  {
    hide *;
    if i < j {
      SuspendedUntilReturn(ws, es, twice, suspends, t, i, j - 1);
      RunKeeps(ws, es, twice, suspends, j - 1);
      StaysSuspended(ws[j - 1], es[j - 1], twice, suspends, t);
    }
  }

  lemma CountNoted(w: Whole, m: S.Mode, twice: bool, suspends: bool, t: nat)
    requires Agree(w, twice) && Enabled(w, Obtain(m)) && w.kernel.thisTask == Some(t)
    ensures var n := Next(w, Obtain(m), twice, suspends);
            t in n.sem.blocked ==> t in n.suspended && n.suspended[t] == w.kernel.tdNest
  {
    SemAfterObtain(w.sem, t, m, twice);
    hide T.Inv, S.Inv, S.Next, UpToWait;
  }

  lemma CountRestored(w: Whole, twice: bool, t: nat)
    requires Agree(w, twice) && Enabled(w, Resume) && w.kernel.thisTask == Some(t) && t in w.suspended
    ensures Next(w, Resume, twice, true).kernel.tdNest == w.suspended[t]
  {
    hide T.Inv, S.Inv, S.Next, T.Next;
  }

  /** With a Wait that suspends Forbid: when the contended Obtain of a task is done, TDNestCnt is
      what it was before, whoever has run in between. */
  lemma ForbidRestored(ws: seq<Whole>, es: seq<Event>, twice: bool, t: nat, i: nat, j: nat)
    requires IsRun(ws, es, twice, true) && i < j < |es| < |ws|
    requires es[i].Obtain? && ws[i].kernel.thisTask == Some(t) && t in ws[i + 1].sem.blocked
    requires es[j] == Resume && ws[j].kernel.thisTask == Some(t)
    requires forall k :: i < k < j && es[k] == Resume ==> ws[k].kernel.thisTask != Some(t)
    ensures ws[j + 1].kernel.tdNest == ws[i].kernel.tdNest
  {
    hide *;
    RunKeeps(ws, es, twice, true, i);
    CountNoted(ws[i], es[i].mode, twice, true, t);
    SuspendedUntilReturn(ws, es, twice, true, t, i + 1, j);
    RunKeeps(ws, es, twice, true, j);
    CountRestored(ws[j], twice, t);
  }

  // ----- the code as written

  /** The running task waits for a semaphore that nobody can hand to it. */
  ghost predicate Stuck(w: Whole, twice: bool, t: nat) {
    && Agree(w, twice) && T.Running(w.kernel) && w.kernel.thisTask == Some(t)
    && w.kernel.tdNest >= 0 && Empty(w.sem, t)
  }

  /** All that can happen to it are signals, new tasks, and ticks that do not switch. */
  predicate Idle(e: Event) {
    e.Call? && (e.c.Signal? || e.c.AddTask? || e.c.Schedule?)
  }

  lemma StuckStep(w: Whole, e: Event, twice: bool, suspends: bool, t: nat)
    requires Stuck(w, twice, t) && Enabled(w, e)
    ensures Idle(e)
    ensures var n := Next(w, e, twice, suspends);
            Stuck(n, twice, t) && n.sem == w.sem && (e == Call(T.Schedule) ==> n == w)
  {
    ReturnsIffHandedOver(w, twice);
    assert Idle(e) by { hide T.Inv, S.Inv; }
    NextKeeps(w, e, twice, suspends);
    StuckCall(w.kernel, e.c, t);
    hide T.Inv, S.Inv, T.Next, T.Running;
  }

  lemma StuckCall(k: Kernel, c: T.Event<nat>, t: nat)
    requires T.Inv(k) && T.Enabled(k, c) && T.Running(k) && k.thisTask == Some(t) && k.tdNest >= 0
    requires c.Signal? || c.AddTask? || c.Schedule?
    ensures var n := T.Next(k, c);
            T.Running(n) && n.thisTask == Some(t) && n.tdNest == k.tdNest && (c.Schedule? ==> n == k)
  {
    hide T.Ordered, T.NoneLost, T.Switchable, T.Enqueued;
  }

  lemma {:induction false} StaysStuck(ws: seq<Whole>, es: seq<Event>, twice: bool, suspends: bool,
                                      t: nat, i: nat, j: nat)
    requires IsRun(ws, es, twice, suspends) && i <= j <= |es| < |ws| && Stuck(ws[i], twice, t)
    ensures Stuck(ws[j], twice, t) && ws[j].sem == ws[i].sem
    decreases j
  {
    hide *;
    if i < j {
      StaysStuck(ws, es, twice, suspends, t, i, j - 1);
      RunKeeps(ws, es, twice, suspends, j - 1);
      StuckStep(ws[j - 1], es[j - 1], twice, suspends, t);
    }
  }

  lemma StuckAtWait(w: Whole, m: S.Mode, twice: bool, t: nat)
    requires Agree(w, twice) && Enabled(w, Obtain(m)) && w.kernel.thisTask == Some(t)
    requires -1 <= w.kernel.tdNest < 127 && t in Next(w, Obtain(m), twice, false).sem.blocked
    ensures Stuck(Next(w, Obtain(m), twice, false), twice, t)
  {
    NextKeeps(w, Obtain(m), twice, false);
    EmptyAfterObtain(w, m, twice, false, t);
    AtTheWait(w.kernel, false);
    assert Next(w, Obtain(m), twice, false).kernel == UpToWait(w.kernel, false);
    assert NestAtWait(w.kernel.tdNest, false) == w.kernel.tdNest + 1;
    hide T.Inv, S.Inv, S.Next, UpToWait, Agree, Next, T.Running, Empty, NestAtWait;
  }

  /** As written, in every run: a contended Obtain with a nest count from -1 to 126, which is that
      of every task that has called Forbid as often as Permit, is the end of all progress.  Its
      caller runs for ever after and is never handed the semaphore, which never changes again; no
      other task runs. */
  lemma StuckForEver(ws: seq<Whole>, es: seq<Event>, twice: bool, t: nat, i: nat, j: nat)
    requires IsRun(ws, es, twice, false) && i < j <= |es| < |ws|
    requires es[i].Obtain? && ws[i].kernel.thisTask == Some(t) && t in ws[i + 1].sem.blocked
    requires -1 <= ws[i].kernel.tdNest < 127
    ensures Stuck(ws[j], twice, t) && ws[j].sem == ws[i + 1].sem
    ensures j < |es| ==> Idle(es[j])
    ensures j < |es| && es[j] == Call(T.Schedule) ==> ws[j + 1] == ws[j]
  {
    hide *;
    RunKeeps(ws, es, twice, false, i);
    StuckAtWait(ws[i], es[i].mode, twice, t);
    StaysStuck(ws, es, twice, false, t, i + 1, j);
    RunKeeps(ws, es, twice, false, j);
    if j < |es| { StuckStep(ws[j], es[j], twice, false, t); }
  }
}
