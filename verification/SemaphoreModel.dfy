/** Signal semaphores (semaphores.c) as a state machine over one semaphore and any number
    of tasks.  The first five fields are those of `struct SignalSemaphore`; the others record
    what the callers have obtained and not yet released, who is inside the contended branch
    of an Obtain call, and in which order that happened.

    A contended Obtain is two events: the call itself, which queues the caller and sleeps, and
    `Resume`, when its Wait returns because ReleaseSemaphore signalled it.  Blocking is taken
    to suspend Forbid, as the kernel intends.

    `twice` selects the code as written: a waiter's ss_NestCount is incremented by
    ReleaseSemaphore when it hands the semaphore over and again when the waiter resumes.
    With `twice` false the second increment is left out. */
module SemaphoreModel {
  import opened Options
  import opened Words

  function Inc(x: U32): U32 { if x == TWO32 - 1 then 0 else x + 1 }
  function Dec(x: U32): U32 { if x == 0 then TWO32 - 1 else x - 1 }

  /** A task, by its address. */
  type Task = nat

  const SS_TYPE_SIMPLE: U32 := 1
  const SS_TYPE_SHARED: U32 := 2

  datatype Mode = Exclusive | Shared

  datatype Hold = Hold(task: Task, mode: Mode)

  datatype Sem = Sem(
    owner: Option<Task>, nest: U32, queue: U32, kind: U32, waitQueue: seq<Task>,
    holds: seq<Hold>,                              // obtained and not yet released
    blocked: map<Task, Mode>,                   // callers asleep in the contended branch
    signalled: set<Task>,                       // those of them that have been handed the semaphore
    queued: seq<Task>, granted: seq<Task>,         // every waiter so far, every hand-off so far
    resumed: nat)                            // completed hand-offs

  datatype Event =
    | Obtain(task: Task, mode: Mode)
    | Attempt(task: Task, mode: Mode)
    | Resume(task: Task)
    | Release(hold: nat)

  /** InitSemaphore. */
  function Init(): Sem {
    Sem(None, 0, TWO32 - 1, 0, [], [], map[], {}, [], [], 0)
  }

  /** Requests that have been made and neither refused nor released. */
  function Outstanding(s: Sem): nat {
    |s.holds| + |s.signalled| + |s.waitQueue|
  }

  /** A task makes no call while it sleeps in one, releases only what it holds (`Release(k)` gives up
      hold number `k`), and there are
      fewer than 2^32 - 2 outstanding requests (the counters are 32 bits wide). */
  predicate Enabled(s: Sem, e: Event) {
    match e
    case Obtain(t, _) => t !in s.blocked && Outstanding(s) < TWO32 - 2
    case Attempt(t, _) => t !in s.blocked && Outstanding(s) < TWO32 - 2
    case Resume(t) => t in s.blocked && t in s.signalled
    case Release(k) => k < |s.holds| && s.holds[k].task !in s.blocked
  }

  function Take(s: Sem, t: Task, m: Mode): Sem {
    s.(holds := s.holds + [Hold(t, m)])
  }

  /** The owner and type a successful request leaves. */
  function Owned(s: Sem, t: Task, m: Mode): Sem {
    if m == Exclusive then s.(owner := Some(t), kind := SS_TYPE_SIMPLE)
    else s.(owner := None, kind := SS_TYPE_SHARED)
  }

  /** The uncontended branches of the four request calls, or None for the contended one. */
  function Grab(s: Sem, t: Task, m: Mode): Option<Sem> {
    var q := Inc(s.queue);
    var up := s.(queue := q, nest := Inc(s.nest));
    if q == 0 then Some(Take(Owned(up, t, m), t, m))
    else if s.owner == Some(t) || (m == Shared && s.owner == None) then Some(Take(up, t, m))
    else None
  }

  function Next(s: Sem, e: Event, twice: bool): Sem
    requires Enabled(s, e)
  {
    match e
    case Obtain(t, m) =>
      (match Grab(s, t, m)
       case Some(n) => n
       case None => Waiting(s, t, m))
    case Attempt(t, m) =>
      (match Grab(s, t, m)
       case Some(n) => n
       case None => s.(queue := Dec(Inc(s.queue))))
    case Resume(t) =>
      var m := s.blocked[t];
      var up := s.(blocked := s.blocked - {t}, signalled := s.signalled - {t},
                   nest := if twice then Inc(s.nest) else s.nest, resumed := s.resumed + 1);
      Take(Owned(up, t, m), t, m)
    case Release(k) =>
      var down := Dropped(s, k);
      if down.nest != 0 then down
      else if s.waitQueue != [] then HandedOver(down)  // ss_QueueCount >= 0: it is unsigned
      else down.(owner := None, queue := TWO32 - 1, kind := 0)
  }

  /** The contended branch of an Obtain call. */
  function Waiting(s: Sem, t: Task, m: Mode): Sem {
    Queued(s.(queue := Inc(s.queue)), t, m)
  }

  function Queued(s: Sem, t: Task, m: Mode): Sem {
    s.(waitQueue := s.waitQueue + [t], blocked := s.blocked[t := m],
       signalled := s.signalled - {t}, queued := s.queued + [t])
  }

  function Dropped(s: Sem, k: nat): Sem
    requires k < |s.holds|
  {
    s.(nest := Dec(s.nest), queue := Dec(s.queue), holds := s.holds[..k] + s.holds[k + 1..])
  }

  function HandedOver(s: Sem): Sem
    requires s.waitQueue != []
  {
    var w := s.waitQueue[0];
    s.(waitQueue := s.waitQueue[1..], nest := Inc(s.nest), owner := Some(w),
       signalled := s.signalled + {w}, granted := s.granted + [w])
  }

  /** What Obtain and Attempt come to. */
  lemma RequestCases(s: Sem, t: Task, m: Mode, twice: bool)
    requires Enabled(s, Obtain(t, m))
    ensures match Grab(s, t, m)
            case Some(n) =>
              && n.holds == s.holds + [Hold(t, m)] && t !in n.blocked
              && Next(s, Obtain(t, m), twice) == Next(s, Attempt(t, m), twice) == n
            case None =>
              var n := Queued(s.(queue := Inc(s.queue)), t, m);
              && t in n.blocked && Dec(Inc(s.queue)) == s.queue
              && Next(s, Obtain(t, m), twice) == n && Next(s, Attempt(t, m), twice) == s
  {
  }

  lemma ResumeCase(s: Sem, t: Task)
    requires Enabled(s, Resume(t))
    ensures var up := s.(blocked := s.blocked - {t}, signalled := s.signalled - {t}, nest := Inc(s.nest),
                         resumed := s.resumed + 1);
            Next(s, Resume(t), true) == Take(Owned(up, t, s.blocked[t]), t, s.blocked[t])
  {
  }

  // ----- the invariant

  /** Who waits: the queue and the handed-over task, in the order of the requests. */
  ghost predicate Queueing(s: Sem) {
    && (forall t :: t in s.blocked <==> t in s.waitQueue || t in s.signalled)
    && (forall t <- s.waitQueue :: t !in s.signalled)
    && (forall i, j :: 0 <= i < j < |s.waitQueue| ==> s.waitQueue[i] != s.waitQueue[j])
    && s.queued == s.granted + s.waitQueue
    && |s.granted| == s.resumed + |s.signalled|
  }

  /** ss_NestCount and ss_QueueCount count what they are meant to count, except that the
      code as written leaves one nest too many behind its first completed hand-off. */
  ghost predicate Counting(s: Sem, twice: bool) {
    && s.nest == |s.holds| + |s.signalled| + (if twice && s.resumed > 0 then 1 else 0)
    && s.queue == (if Outstanding(s) == 0 then TWO32 - 1 else Outstanding(s) - 1)
    && Outstanding(s) < TWO32 - 1
    && (s.nest == 0 ==> s.waitQueue == [])
    && (twice ==> |s.granted| <= 1)
  }

  ghost predicate Owning(s: Sem) {
    && (s.owner.Some? ==> forall h <- s.holds :: h.task == s.owner.value)
    && (s.owner == None ==> forall h <- s.holds :: h.mode == Shared)
    && (s.signalled != {} ==> s.owner.Some? && s.signalled == {s.owner.value} && s.holds == [])
  }

  ghost predicate Inv(s: Sem, twice: bool) {
    Queueing(s) && Counting(s, twice) && Owning(s)
  }
}
