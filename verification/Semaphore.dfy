/** `struct SignalSemaphore` in place: its methods, proved to take the steps of
    `SemaphoreModel` for the code as written.  The ghost fields are the callers' bookkeeping;
    a call that has to wait ends at its Wait, and `Resume` is the rest of it. */
module Semaphore {
  import opened Options
  import opened Lists
  import opened SemaphoreModel
  import opened Words
  import opened SemaphoreProofs

  /** The nodes are `struct SemaphoreRequest`s; `sr_Waiter` is what follows their links. */
  ghost predicate Waits(nodes: seq<Node<Task>>, waiters: seq<Task>)
    reads nodes`rest
  {
    |nodes| == |waiters| && forall i :: 0 <= i < |nodes| ==> nodes[i].rest == waiters[i]
  }

  /** ss_WaitQueue. */
  class WaitQueue {
    const list: List<Task>
    ghost var waiters: seq<Task>

    ghost predicate Valid()
      reads this, list, list.Chain(), list.nodes
    {
      list.Valid() && Waits(list.nodes, waiters)
    }

    constructor ()
      ensures Valid() && waiters == []
      ensures fresh(list) && fresh(list.Chain())
    {
      list := new List(0);
      waiters := [];
    }

    method IsListEmpty() returns (b: bool)
      requires Valid()
      ensures b <==> waiters == []
    {
      b := list.IsEmpty();
    }

    /** The caller's request, which lies on its stack, comes to stand last. */
    method AddRequest(me: Task)
      requires Valid()
      modifies this, list, list.Chain()
      ensures Valid() && waiters == old(waiters) + [me]
    {
      var sr := new Node(0, me);
      TailLinked(list);
      hide Linked;
      list.AddTail(sr);
      waiters := waiters + [me];
    }

    method RemHead() returns (waiter: Task)
      requires Valid() && waiters != []
      modifies this, list, list.Chain()
      ensures Valid() && waiter == old(waiters)[0] && waiters == old(waiters)[1..]
    {
      hide Linked;
      assert list.head == list.Chain()[0];
      var sr := list.RemHead();
      waiter := sr.rest;
      waiters := waiters[1..];
    }
  }

  class SignalSemaphore {
    var owner: Option<Task>
    var nestCount: U32
    var queueCount: U32
    var kind: U32
    const waitQueue: WaitQueue
    ghost var holds: seq<Hold>
    ghost var blocked: map<Task, Mode>
    ghost var signalled: set<Task>
    ghost var queued: seq<Task>
    ghost var granted: seq<Task>
    ghost var resumed: nat

    ghost function Abs(): Sem
      reads this, waitQueue
    {
      Sem(owner, nestCount, queueCount, kind, waitQueue.waiters, holds, blocked, signalled, queued, granted, resumed)
    }

    ghost predicate Valid()
      reads this, waitQueue, waitQueue.list, waitQueue.list.Chain(), waitQueue.list.nodes
    {
      waitQueue.Valid() && Inv(Abs(), true)
    }

    /** InitSemaphore. */
    constructor ()
      ensures Valid() && Abs() == Init()
    {
      waitQueue := new WaitQueue();
      owner, nestCount := None, 0;
      queueCount, kind := TWO32 - 1, 0;
      holds, blocked, signalled, queued, granted, resumed := [], map[], {}, [], [], 0;
    }

    /** One more hold of a caller that has waited. */
    method Nest(ghost me: Task, ghost m: Mode)
      modifies this`nestCount, this`holds
      ensures Abs() == Take(old(Abs()).(nest := Inc(old(nestCount))), me, m)
    {
      nestCount := Inc(nestCount);
      holds := holds + [Hold(me, m)];
    }

    /** Queue the caller and sleep: the common contended branch. */
    method StartWaiting(me: Task, ghost m: Mode)
      requires waitQueue.Valid()
      modifies this, waitQueue, waitQueue.list, waitQueue.list.Chain()
      ensures waitQueue.Valid() && Abs() == Queued(old(Abs()), me, m)
    {
      signalled := signalled - {me};  // SigRecvd &= ~SIGF_SEMAPHORE
      waitQueue.AddRequest(me);
      blocked, queued := blocked[me := m], queued + [me];
    }

    /** The uncontended branches of ObtainSemaphore and AttemptSemaphore. */
    method GrabExclusive(me: Task) returns (ok: bool)
      modifies this`owner, this`nestCount, this`queueCount, this`kind, this`holds
      ensures Grab(old(Abs()), me, Exclusive) == if ok then Some(Abs()) else None
      ensures !ok ==> Abs() == old(Abs()).(queue := Inc(old(queueCount)))
    {
      hide Inc;
      queueCount := Inc(queueCount);
      if queueCount == 0 {
        owner := Some(me);
        nestCount := Inc(nestCount);
        kind := SS_TYPE_SIMPLE;
        holds := holds + [Hold(me, Exclusive)];
        return true;
      }
      if owner == Some(me) {
        nestCount := Inc(nestCount);
        holds := holds + [Hold(me, Exclusive)];
        return true;
      }
      return false;
    }

    /** The uncontended branches of ObtainSemaphoreShared and AttemptSemaphoreShared. */
    method GrabShared(me: Task) returns (ok: bool)
      modifies this`owner, this`nestCount, this`queueCount, this`kind, this`holds
      ensures Grab(old(Abs()), me, Shared) == if ok then Some(Abs()) else None
      ensures !ok ==> Abs() == old(Abs()).(queue := Inc(old(queueCount)))
    {
      hide Inc;
      queueCount := Inc(queueCount);
      if queueCount == 0 {
        owner := None;
        nestCount := Inc(nestCount);
        kind := SS_TYPE_SHARED;
        holds := holds + [Hold(me, Shared)];
        return true;
      }
      if owner == Some(me) || owner == None {
        nestCount := Inc(nestCount);
        holds := holds + [Hold(me, Shared)];
        return true;
      }
      return false;
    }

    method ObtainSemaphore(me: Task) returns (waits: bool)
      requires Valid() && Enabled(Abs(), Obtain(me, Exclusive))
      modifies this, waitQueue, waitQueue.list, waitQueue.list.Chain()
      ensures Valid() && Abs() == Next(old(Abs()), Obtain(me, Exclusive), true)
      ensures waits <==> me in blocked
    {
      NextKeeps(Abs(), Obtain(me, Exclusive), true);
      RequestCases(Abs(), me, Exclusive, true);
      hide Inv, Enabled, Next, Grab, Queued, Inc, Dec, Linked, Waits;
      var ok := GrabExclusive(me);
      if !ok { StartWaiting(me, Exclusive); }
      waits := !ok;
    }

    method ObtainSemaphoreShared(me: Task) returns (waits: bool)
      requires Valid() && Enabled(Abs(), Obtain(me, Shared))
      modifies this, waitQueue, waitQueue.list, waitQueue.list.Chain()
      ensures Valid() && Abs() == Next(old(Abs()), Obtain(me, Shared), true)
      ensures waits <==> me in blocked
    {
      NextKeeps(Abs(), Obtain(me, Shared), true);
      RequestCases(Abs(), me, Shared, true);
      hide Inv, Enabled, Next, Grab, Queued, Inc, Dec, Linked, Waits;
      var ok := GrabShared(me);
      if !ok { StartWaiting(me, Shared); }
      waits := !ok;
    }

    /** Wait returns: the caller is no longer asleep. */
    ghost method WakeUp(me: Task)
      modifies this`blocked, this`signalled, this`resumed
      ensures blocked == old(blocked) - {me} && signalled == old(signalled) - {me} && resumed == old(resumed) + 1
    {
      blocked, signalled, resumed := blocked - {me}, signalled - {me}, resumed + 1;
    }

    /** The end of a contended ObtainSemaphore, when its Wait has returned. */
    method ResumeExclusive(me: Task)
      requires Valid() && Enabled(Abs(), Resume(me)) && blocked[me] == Exclusive
      modifies this`owner, this`nestCount, this`kind, this`holds, this`blocked, this`signalled, this`resumed
      ensures Valid() && Abs() == Next(old(Abs()), Resume(me), true)
    {
      NextKeeps(Abs(), Resume(me), true);
      ResumeCase(Abs(), me);
      hide Inv, Enabled, Next, Take, Inc, Linked, Waits;
      WakeUp(me);
      owner, kind := Some(me), SS_TYPE_SIMPLE;
      Nest(me, Exclusive);
    }

    /** The end of a contended ObtainSemaphoreShared. */
    method ResumeShared(me: Task)
      requires Valid() && Enabled(Abs(), Resume(me)) && blocked[me] == Shared
      modifies this`owner, this`nestCount, this`kind, this`holds, this`blocked, this`signalled, this`resumed
      ensures Valid() && Abs() == Next(old(Abs()), Resume(me), true)
    {
      NextKeeps(Abs(), Resume(me), true);
      ResumeCase(Abs(), me);
      hide Inv, Enabled, Next, Take, Inc, Linked, Waits;
      WakeUp(me);
      owner, kind := None, SS_TYPE_SHARED;
      Nest(me, Shared);
    }

    method AttemptSemaphore(me: Task) returns (ok: bool)
      requires Valid() && Enabled(Abs(), Attempt(me, Exclusive))
      modifies this`owner, this`nestCount, this`queueCount, this`kind, this`holds
      ensures Valid() && Abs() == Next(old(Abs()), Attempt(me, Exclusive), true)
      ensures if ok then holds == old(holds) + [Hold(me, Exclusive)] else Abs() == old(Abs())
    {
      NextKeeps(Abs(), Attempt(me, Exclusive), true);
      RequestCases(Abs(), me, Exclusive, true);
      hide Inv, Enabled, Next, Grab, Queued, Inc, Dec, Linked, Waits;
      ok := GrabExclusive(me);
      if !ok { queueCount := Dec(queueCount); }
    }

    method AttemptSemaphoreShared(me: Task) returns (ok: bool)
      requires Valid() && Enabled(Abs(), Attempt(me, Shared))
      modifies this`owner, this`nestCount, this`queueCount, this`kind, this`holds
      ensures Valid() && Abs() == Next(old(Abs()), Attempt(me, Shared), true)
      ensures if ok then holds == old(holds) + [Hold(me, Shared)] else Abs() == old(Abs())
    {
      NextKeeps(Abs(), Attempt(me, Shared), true);
      RequestCases(Abs(), me, Shared, true);
      hide Inv, Enabled, Next, Grab, Queued, Inc, Dec, Linked, Waits;
      ok := GrabShared(me);
      if !ok { queueCount := Dec(queueCount); }
    }

    /** The branch of ReleaseSemaphore that hands over to the first waiter. */
    method HandOver()
      requires waitQueue.Valid() && waitQueue.waiters != []
      modifies this, waitQueue, waitQueue.list, waitQueue.list.Chain()
      ensures waitQueue.Valid() && Abs() == HandedOver(old(Abs()))
    {
      var waiter := waitQueue.RemHead();
      nestCount := Inc(nestCount);
      owner := Some(waiter);
      signalled, granted := signalled + {waiter}, granted + [waiter];  // Signal
    }

    /** Both counters go down by one. */
    method Drop(ghost k: nat)
      requires k < |holds|
      modifies this`nestCount, this`queueCount, this`holds
      ensures Abs() == Dropped(old(Abs()), k)
    {
      nestCount := Dec(nestCount);
      queueCount := Dec(queueCount);
      holds := holds[..k] + holds[k + 1..];
    }

    /** The branch for ss_NestCount == 0. */
    method LastRelease()
      requires waitQueue.Valid()
      modifies this, waitQueue, waitQueue.list, waitQueue.list.Chain()
      ensures waitQueue.Valid()
      ensures Abs() == if old(waitQueue.waiters) != [] then HandedOver(old(Abs()))
                       else old(Abs()).(owner := None, queue := TWO32 - 1, kind := 0)
    {
      var empty := waitQueue.IsListEmpty();
      if queueCount >= 0 && !empty {
        HandOver();
      } else {
        owner := None;
        queueCount := TWO32 - 1;
        kind := 0;
      }
    }

    /** `k` is the hold that the caller gives up. */
    method ReleaseSemaphore(ghost k: nat)
      requires Valid() && Enabled(Abs(), Release(k))
      modifies this, waitQueue, waitQueue.list, waitQueue.list.Chain()
      ensures Valid() && Abs() == Next(old(Abs()), Release(k), true)
    {
      NextKeeps(Abs(), Release(k), true);
      assert k < |holds|;
      hide Inv, Enabled, Linked, Waits;
      Drop(k);
      if nestCount == 0 { LastRelease(); }
    }
  }
}
