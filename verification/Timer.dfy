/** timer.device in place: AddRequest for UNIT_MICROHZ and UNIT_VBLANK and timer_AbortIO (io.c),
    Timer3IRQServer (_timerirq.c), on the linked list of requests.  Every method takes the step
    of `TimerModel` that its contract names.  Requests have a reply port. */
module Timer {
  import opened Words
  import opened TimeVals
  import opened Lists
  import opened TimerModel
  import opened TimerProofs

  datatype NodeType = NT_MESSAGE | NT_REPLYMSG

  /** What follows the links in a `struct TimeRequest`. */
  datatype Req = Req(time: Time, nodeType: NodeType, error: int, quick: bool)

  type TimeRequest = Node<Req>

  /** The requests in the list are those of the model, with their times; `tickets` has the
      numbers of their latest submissions. */
  ghost predicate Matches(waiters: seq<TimeRequest>, tickets: map<TimeRequest, nat>, q: seq<Waiter>)
    reads waiters`rest
  {
    && |waiters| == |q|
    && forall i :: 0 <= i < |q| ==>
         && waiters[i].rest.time == q[i].due && waiters[i].rest.nodeType == NT_MESSAGE
         && waiters[i] in tickets && tickets[waiters[i]] == q[i].id
  }

  lemma SameLength(waiters: seq<TimeRequest>, tickets: map<TimeRequest, nat>, q: seq<Waiter>)
    requires Matches(waiters, tickets, q)
    ensures |waiters| == |q|
  {
  }

  lemma InsertMatches(waiters: seq<TimeRequest>, tickets: map<TimeRequest, nat>, q: seq<Waiter>, k: nat,
                      r: TimeRequest, w: Waiter)
    requires Matches(waiters, tickets, q) && k <= |waiters| && r !in waiters
    requires r.rest.time == w.due && r.rest.nodeType == NT_MESSAGE
    ensures Matches(InsertedAt(waiters, k, r), tickets[r := w.id], InsertedAt(q, k, w))
  {
    var ws, p := InsertedAt(waiters, k, r), InsertedAt(q, k, w);
    forall i | 0 <= i < |ws|
      ensures ws[i] == (if i < k then waiters[i] else if i == k then r else waiters[i - 1])
      ensures p[i] == (if i < k then q[i] else if i == k then w else q[i - 1])
    {
    }
  }

  lemma RemoveMatches(waiters: seq<TimeRequest>, tickets: map<TimeRequest, nat>, q: seq<Waiter>, k: nat)
    requires Matches(waiters, tickets, q) && k < |waiters|
    ensures Matches(RemovedAt(waiters, k), tickets, RemovedAt(q, k))
  {
  }

  lemma OffTheList(l: List<Req>, k: nat)
    requires l.Valid() && k < |l.nodes|
    ensures l.nodes[k] !in [l.head] + RemovedAt(l.nodes, k) + [l.tail]
  {
    var c, r := l.Chain(), RemovedAt(l.nodes, k);
    assert c[k + 1] == l.nodes[k];
    forall i | 0 <= i < |r| ensures r[i] != l.nodes[k] {
      assert r[i] == c[if i < k then i + 1 else i + 2];
    }
    assert l.head == c[0] && l.tail == c[|c| - 1];
  }

  class TimerBase {
    const elapsed: TimeVal
    const vblankTime: TimeVal
    const list: List<Req>
    ghost var tickets: map<TimeRequest, nat>
    ghost var model: State

    ghost predicate Valid()
      reads this, elapsed, vblankTime, list, list.Chain(), list.nodes
    {
      && elapsed != vblankTime && list.Valid()
      && Matches(list.nodes, tickets, model.queue)
      && elapsed.Value() == model.elapsed && Normal(vblankTime.Value())
      && Inv(model)
    }

    constructor (vblankMicros: U32)
      requires vblankMicros < MICROS
      ensures Valid() && model == State(Time(0, 0), [], [], 0)
      ensures vblankTime.Value() == Time(0, vblankMicros)
    {
      elapsed := new TimeVal(0, 0);
      vblankTime := new TimeVal(0, vblankMicros);
      list := new List(Req(Time(0, 0), NT_MESSAGE, 0, false));
      tickets := map[];
      model := State(Time(0, 0), [], [], 0);
      new;
      InitiallySound(Time(0, 0));
    }

    /** Where AddWaiter stops walking: at the tail sentinel, or at the first request that is due
        earlier than the new one. */
    method FindPlace(due: Time) returns (tr: TimeRequest, ghost k: nat)
      requires list.Valid() && Matches(list.nodes, tickets, model.queue)
      ensures WaiterIndex(model.queue, due) <= |list.nodes| && tr == list.Chain()[WaiterIndex(model.queue, due) + 1]
      ensures k == WaiterIndex(model.queue, due) && tr.pred == list.Chain()[k]
      ensures tr.succ == null <==> k == |list.nodes|
    {
      ghost var c := list.Chain();
      tr, k := list.head.succ, 0;
      assert list.head == c[0] && tr == c[1];
      while tr.succ != null
        invariant k <= |list.nodes| && tr == c[k + 1]
        invariant forall i :: 0 <= i < k ==> CmpTime(model.queue[i].due, due) >= 0
        decreases |list.nodes| - k
      {
        assert c[k + 1].succ != null;
        if CmpTime(tr.rest.time, due) < 0 { break; }
        tr, k := tr.succ, k + 1;
      }
      assert c[k + 1].pred == c[k];
      assert k < |list.nodes| ==> c[k + 1].succ == c[k + 2];
    }

    /** AddWaiter. */
    method AddWaiter(r: TimeRequest, ghost w: Waiter)
      requires Valid() && r !in list.Chain()
      requires r.rest.time == w.due && r.rest.nodeType == NT_MESSAGE && Inv(Inserted(model, w))
      modifies list`nodes, r`succ, r`pred, list.Chain()`succ, list.Chain()`pred, this`tickets, this`model
      ensures Valid() && model == Inserted(old(model), w) && tickets == old(tickets)[r := w.id]
      ensures |old(list.nodes)| == |old(model.queue)|
      ensures list.nodes == InsertedAt(old(list.nodes), WaiterIndex(old(model.queue), w.due), r)
    {
      hide Inv, Matches, WaiterIndex, Linked;
      var tr;
      ghost var k;
      ghost var ws := list.nodes;
      SameLength(ws, tickets, model.queue);
      tr, k := FindPlace(r.rest.time);
      assert k == |ws| ==> InsertedAt(ws, k, r) == ws + [r];
      if tr.succ != null {
        list.Insert(r, tr.pred, k);
      } else {
        list.AddTail(r);
      }
      assert list.nodes == InsertedAt(ws, k, r);
      InsertMatches(ws, tickets, model.queue, k, r, w);
      hide InsertedAt;
      tickets := tickets[r := w.id];
      model := Inserted(model, w);
    }

    /** The request's time becomes the time it is due. */
    method Stamp(r: TimeRequest)
      requires Valid() && r !in list.Chain()
      modifies r`rest
      ensures Valid() && r.rest.time == Sum(model.elapsed, old(r.rest.time))
      ensures r.rest.nodeType == NT_MESSAGE && r.rest.error == 0 && !r.rest.quick
    {
      hide Inv, Matches, Linked, Sum;
      var time := new TimeVal(r.rest.time.secs, r.rest.time.micro);
      AddTime(elapsed, time);
      r.rest := Req(time.Value(), NT_MESSAGE, 0, false);
    }

    /** timer_BeginIO with TR_ADDREQUEST. */
    method AddRequest(r: TimeRequest)
      requires Valid() && r !in list.Chain() && Enabled(model, Add(r.rest.time))
      modifies list`nodes, r`succ, r`pred, r`rest, list.Chain()`succ, list.Chain()`pred, this`tickets, this`model
      ensures Valid() && model == Next(old(model), Add(old(r.rest.time)))
      ensures |old(list.nodes)| == |old(model.queue)|
      ensures list.nodes == InsertedAt(old(list.nodes), WaiterIndex(old(model.queue), r.rest.time), r)
      ensures !r.rest.quick && r.rest.error == 0
    {
      ghost var w := Waiter(model.count, model.elapsed, r.rest.time, Sum(model.elapsed, r.rest.time));
      NextKeeps(model, Add(r.rest.time));
      assert Next(model, Add(r.rest.time)) == Inserted(model, w);
      hide Inv, Enabled, Sum, Matches, Linked, WaiterIndex, Inserted, InsertedAt, Next;
      Stamp(r);
      AddWaiter(r, w);
    }

    /** Remove, given the node only. */
    method TakeOut(tr: TimeRequest, ghost k: nat)
      requires list.Valid() && k < |list.nodes| && tr == list.nodes[k]
      modifies list`nodes, list.Chain()`succ, list.Chain()`pred
      ensures list.Valid() && list.nodes == RemovedAt(old(list.nodes), k) && tr !in list.Chain()
    {
      ghost var ws := list.nodes;
      MemberLinked(list, k);
      OffTheList(list, k);
      hide Linked, RemovedAt;
      Remove(tr, list, k);
    }

    /** Remove a request from the list and reply to it. */
    method RemoveAndReply(tr: TimeRequest, ghost k: nat, ghost reply: Reply)
      requires Valid() && k < |list.nodes| && tr == list.nodes[k] && k < |model.queue| && reply.w == model.queue[k]
      requires Inv(Removed(model, k, reply))
      modifies list`nodes, list.Chain()`succ, list.Chain()`pred, tr`rest, this`model
      ensures Valid() && list.nodes == RemovedAt(old(list.nodes), k) && tr !in list.Chain()
      ensures model == Removed(old(model), k, reply)
      ensures tr.rest == old(tr.rest).(nodeType := NT_REPLYMSG)
    {
      ghost var ws := list.nodes;
      RemoveMatches(ws, tickets, model.queue, k);
      hide Inv, Matches, Linked, RemovedAt;
      TakeOut(tr, k);
      tr.rest := tr.rest.(nodeType := NT_REPLYMSG);
      model := Removed(model, k, reply);
    }

    /** The first request in the list that has expired, or the tail sentinel. */
    method FindExpired() returns (tr: TimeRequest, ghost k: nat)
      requires list.Valid() && Matches(list.nodes, tickets, model.queue)
      ensures FirstExpired(model.queue, elapsed.Value()) <= |list.nodes| == |model.queue|
      ensures tr == list.Chain()[FirstExpired(model.queue, elapsed.Value()) + 1]
      ensures k == FirstExpired(model.queue, elapsed.Value())
      ensures tr.succ == null <==> k == |list.nodes|
    {
      ghost var c := list.Chain();
      tr, k := list.head.succ, 0;
      assert list.head == c[0] && tr == c[1];
      while tr.succ != null
        invariant k <= |list.nodes| && tr == c[k + 1]
        invariant forall i :: 0 <= i < k ==> !Before(model.queue[i].due, elapsed.Value())
        decreases |list.nodes| - k
      {
        assert c[k + 1].succ != null;
        var t := tr.rest.time;
        if t.secs < elapsed.secs || (t.secs <= elapsed.secs && t.micro < elapsed.micro) { break; }
        tr, k := tr.succ, k + 1;
      }
      assert k < |list.nodes| ==> c[k + 1].succ == c[k + 2];
    }

    /** The loop of Timer3IRQServer: one request at most leaves, as a reply with its time zeroed. */
    method ReplyFirst()
      requires Valid()
      modifies list`nodes, list.Chain()`succ, list.Chain()`pred, list.nodes`rest, this`model
      ensures Valid() && model == FirstReplied(old(model))
      ensures var k := FirstExpired(old(model.queue), elapsed.Value());
              if k < |old(list.nodes)| then
                && list.nodes == RemovedAt(old(list.nodes), k)
                && var r := old(list.nodes)[k].rest;
                   r.time == Time(0, 0) && r.error == 0 && r.nodeType == NT_REPLYMSG
              else list.nodes == old(list.nodes)
    {
      hide Inv, Before, FirstExpired, Linked;
      var tr;
      ghost var k;
      tr, k := FindExpired();
      if tr.succ != null {
        assert tr == list.nodes[k];
        ExpiredReply(model, k);
        RemoveAndReply(tr, k, Expired(model.queue[k], model.elapsed));
        tr.rest := tr.rest.(time := Time(0, 0), error := 0);
      }
    }

    /** The first statement of Timer3IRQServer, as far as Elapsed is concerned. */
    method AdvanceElapsed()
      requires Valid() && Enabled(model, Tick(vblankTime.Value()))
      modifies elapsed, this`model
      ensures Valid() && model == old(model).(elapsed := Sum(vblankTime.Value(), old(model.elapsed)))
    {
      TickParts(model, vblankTime.Value());
      hide Inv, Enabled, Sum, Matches, Linked;
      FastAddTime(elapsed, vblankTime);
      model := model.(elapsed := elapsed.Value());
    }

    /** Timer3IRQServer: one tick replies to one request at most. */
    method Timer3IRQServer()
      requires Valid() && Enabled(model, Tick(vblankTime.Value()))
      modifies elapsed, list`nodes, list.Chain()`succ, list.Chain()`pred, list.nodes`rest, this`model
      ensures Valid() && model == Next(old(model), Tick(vblankTime.Value()))
      ensures var k := FirstExpired(old(model.queue), elapsed.Value());
              if k < |old(list.nodes)| then
                && list.nodes == RemovedAt(old(list.nodes), k)
                && var r := old(list.nodes)[k].rest;
                   r.time == Time(0, 0) && r.error == 0 && r.nodeType == NT_REPLYMSG
              else list.nodes == old(list.nodes)
    {
      hide Inv, FirstExpired, Matches, FirstReplied, Enabled, Linked, RemovedAt;
      AdvanceElapsed();
      ReplyFirst();
    }

    /** timer_AbortIO, for a request that was submitted: if it is no reply yet it is in the list,
        at position `k`. */
    method AbortIO(r: TimeRequest, ghost k: nat)
      requires Valid() && (r.rest.nodeType != NT_REPLYMSG ==> k < |list.nodes| && r == list.nodes[k])
      modifies list`nodes, list.Chain()`succ, list.Chain()`pred, r`rest, this`model
      ensures Valid()
      ensures old(r.rest.nodeType) == NT_REPLYMSG ==> model == old(model) && list.nodes == old(list.nodes)
      ensures old(r.rest.nodeType) != NT_REPLYMSG ==>
                && r in tickets && model == Next(old(model), Event.Abort(tickets[r]))
                && r !in list.nodes && r.rest.nodeType == NT_REPLYMSG
    {
      if r.rest.nodeType != NT_REPLYMSG {
        assert r in tickets && tickets[r] == model.queue[k].id;
        AbortedReply(model, k);
        hide Inv, Linked;
        RemoveAndReply(r, k, Aborted(model.queue[k]));
      }
    }

    /** Remove in timer_AbortIO, with the tick interrupt between its two assignments, when the tick
        finds an expired request.  Its walk follows only successors, which the first assignment
        leaves alone, so it takes the request that it would have taken before. */
    method AbortTorn(tr: TimeRequest, ghost k: nat)
      requires Valid() && k < |list.nodes| && tr == list.nodes[k]
      requires FirstExpired(model.queue, elapsed.Value()) < |model.queue|
      modifies list.Chain()`succ, list.Chain()`pred
      ensures var c, j := list.Chain(), FirstExpired(old(model.queue), old(elapsed.Value()));
              && j + 2 < |c|
              && (Linked(Without(c, 1 + Min(k, j), 1 + Max(k, j))) <==> j != k + 1 && k != j + 1)
              && (j == k + 1 ==> c[k].succ == c[j + 1])
    {
      hide Inv, Before, FirstExpired, Linked, Without;
      ghost var c := list.Chain();
      var served;
      ghost var j;
      served, j := FindExpired();
      assert tr == c[k + 1];
      RemoveInterrupted(tr, served, c, k + 1, j + 1);
    }
  }

  /** The middle of a tick: Elapsed has advanced, nothing has been replied to yet. */
  lemma TickParts(s: State, vblank: Time)
    requires Inv(s) && Enabled(s, Tick(vblank))
    ensures Normal(s.elapsed) && Inv(s.(elapsed := Sum(vblank, s.elapsed)))
  {
  }

  lemma ExpiredReply(s: State, k: nat)
    requires Inv(s) && k < |s.queue| && Before(s.queue[k].due, s.elapsed)
    ensures Inv(Removed(s, k, Expired(s.queue[k], s.elapsed)))
  {
    assert Sound(s.queue[k]);
    BeforeIsLess(s.queue[k].due, s.elapsed);
    RemovalKeeps(s, k, Expired(s.queue[k], s.elapsed));
  }

  lemma AbortedReply(s: State, k: nat)
    requires Inv(s) && k < |s.queue|
    ensures k == TicketIndex(s.queue, s.queue[k].id)
    ensures Inv(Removed(s, k, Aborted(s.queue[k])))
  {
    RemovalKeeps(s, k, Aborted(s.queue[k]));
    QueuedOnce(s, TicketIndex(s.queue, s.queue[k].id), k);
  }

  /** No two requests in the queue have the same number. */
  lemma QueuedOnce(s: State, i: nat, j: nat)
    requires ExactlyOnce(s) && i <= j < |s.queue| && s.queue[i].id == s.queue[j].id
    ensures i == j
  {
    var q, id := s.queue, s.queue[i].id;
    assert Waiting(q, id) + Replied(s.replies, id) <= 1;
    if i < j {
      WaitingRemoved(q, j, id);
      WaitingRemoved(RemovedAt(q, j), i, id);
      assert false;
    }
  }
}
