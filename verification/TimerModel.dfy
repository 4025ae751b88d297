/** timer.device as a state machine: the queue of waiting requests (UNIT_MICROHZ and
    UNIT_VBLANK share it), Elapsed, and the replies given so far. */
module TimerModel {
  import opened TimeVals
  import opened Lists

  /** A submitted request: when it was submitted, for how long, and `tr_time`. */
  datatype Waiter = Waiter(id: nat, submitted: Time, interval: Time, due: Time)

  datatype Reply = Expired(w: Waiter, at: Time) | Aborted(w: Waiter)

  /** Submissions are numbered: `count` of them so far. */
  datatype State = State(elapsed: Time, queue: seq<Waiter>, replies: seq<Reply>, count: nat)

  datatype Event = Add(interval: Time) | Tick(vblank: Time) | Abort(id: nat)

  /** AddWaiter: in front of the first request that CmpTime puts before the new one. */
  function WaiterIndex(q: seq<Waiter>, due: Time): (k: nat)
    ensures k <= |q|
    ensures forall i :: 0 <= i < k ==> CmpTime(q[i].due, due) >= 0
    ensures k < |q| ==> CmpTime(q[k].due, due) < 0
  {
    if q == [] || CmpTime(q[0].due, due) < 0 then 0 else 1 + WaiterIndex(q[1..], due)
  }

  /** The test of Timer3IRQServer. */
  predicate Before(due: Time, now: Time) {
    due.secs < now.secs || (due.secs <= now.secs && due.micro < now.micro)
  }

  /** The request that a tick replies to: the first in the queue that has expired. */
  function FirstExpired(q: seq<Waiter>, now: Time): (k: nat)
    ensures k <= |q|
    ensures forall i :: 0 <= i < k ==> !Before(q[i].due, now)
    ensures k < |q| ==> Before(q[k].due, now)
  {
    if q == [] || Before(q[0].due, now) then 0 else 1 + FirstExpired(q[1..], now)
  }

  function TicketIndex(q: seq<Waiter>, id: nat): (k: nat)
    ensures k <= |q|
    ensures forall i :: 0 <= i < k ==> q[i].id != id
    ensures k < |q| ==> q[k].id == id
  {
    if q == [] || q[0].id == id then 0 else 1 + TicketIndex(q[1..], id)
  }

  function Served(q: seq<Waiter>, now: Time): seq<Waiter> {
    var k := FirstExpired(q, now);
    if k < |q| then RemovedAt(q, k) else q
  }

  function Inserted(s: State, w: Waiter): State {
    var k := WaiterIndex(s.queue, w.due);
    s.(queue := InsertedAt(s.queue, k, w), count := s.count + 1)
  }

  function Removed(s: State, k: nat, r: Reply): State
    requires k < |s.queue|
  {
    s.(queue := RemovedAt(s.queue, k), replies := s.replies + [r])
  }

  /** The loop of Timer3IRQServer. */
  function FirstReplied(s: State): State {
    var k := FirstExpired(s.queue, s.elapsed);
    if k < |s.queue| then Removed(s, k, Expired(s.queue[k], s.elapsed)) else s
  }

  function Next(s: State, e: Event): State {
    match e
    case Add(interval) => Inserted(s, Waiter(s.count, s.elapsed, interval, Sum(s.elapsed, interval)))
    case Tick(vblank) => FirstReplied(s.(elapsed := Sum(vblank, s.elapsed)))
    case Abort(id) =>
      // an NT_REPLYMSG is left alone
      var k := TicketIndex(s.queue, id);
      if k < |s.queue| then Removed(s, k, Aborted(s.queue[k])) else s
  }

  /** All times stay below 2^31 seconds, and only submitted requests are aborted. */
  ghost predicate Enabled(s: State, e: Event) {
    match e
    case Add(interval) => SumFits(s.elapsed, interval) && Near(Sum(s.elapsed, interval))
    case Tick(vblank) => Normal(vblank) && SumFits(vblank, s.elapsed) && Near(Sum(vblank, s.elapsed))
    case Abort(id) => id < s.count
  }

  ghost predicate Near(t: Time) { Normal(t) && t.secs < 0x8000_0000 }

  // ----- invariants

  /** Latest first; requests due at the same time in the order of their submission. */
  ghost predicate Sorted(q: seq<Waiter>) {
    forall i, j :: 0 <= i < j < |q| ==> Ahead(q[i], q[j])
  }

  ghost predicate Ahead(v: Waiter, w: Waiter) {
    Micros(v.due) > Micros(w.due) || (Micros(v.due) == Micros(w.due) && v.id < w.id)
  }

  ghost predicate Sound(w: Waiter) {
    Near(w.due) && Micros(w.due) == Micros(w.submitted) + Micros(w.interval)
  }

  /** No reply comes before Elapsed has passed submission time plus interval. */
  ghost predicate NeverEarly(replies: seq<Reply>) {
    forall i :: 0 <= i < |replies| && replies[i].Expired? ==>
      Micros(replies[i].at) > Micros(replies[i].w.submitted) + Micros(replies[i].w.interval)
  }

  /** How often a submission is in the queue, and how often it has been replied to. */
  function Waiting(q: seq<Waiter>, id: nat): nat {
    if q == [] then 0 else (if q[0].id == id then 1 else 0) + Waiting(q[1..], id)
  }

  function Replied(replies: seq<Reply>, id: nat): nat {
    if replies == [] then 0
    else Replied(replies[..|replies| - 1], id) + (if replies[|replies| - 1].w.id == id then 1 else 0)
  }

  /** Every submission is waiting or replied to, and that exactly once. */
  ghost predicate ExactlyOnce(s: State) {
    forall id: nat :: Waiting(s.queue, id) + Replied(s.replies, id) == if id < s.count then 1 else 0
  }

  ghost predicate Inv(s: State) {
    && Near(s.elapsed) && Sorted(s.queue) && NeverEarly(s.replies) && ExactlyOnce(s)
    && forall i :: 0 <= i < |s.queue| ==> Sound(s.queue[i]) && s.queue[i].id < s.count
  }
}
