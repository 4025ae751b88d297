/** Properties of the timer that hold over all runs. */
module TimerProofs {
  import opened TimeVals
  import opened Lists
  import opened TimerModel

  // ----- comparing times

  lemma BeforeIsLess(due: Time, now: Time)
    requires Normal(due) && Normal(now)
    ensures Before(due, now) <==> Micros(due) < Micros(now)
  {
    CompareNormal(due, now);
  }

  /** On the times that occur CmpTime is exact, so the queue is also sorted by CmpTime. */
  lemma SortedByCmpTime(q: seq<Waiter>, i: nat, j: nat)
    requires Sorted(q) && i < j < |q| && Near(q[i].due) && Near(q[j].due)
    ensures CmpTime(q[i].due, q[j].due) >= 0
  {
    CompareExact(q[i].due, q[j].due);
    assert Ahead(q[i], q[j]);
  }

  // ----- counting

  lemma {:induction false} WaitingConcat(p: seq<Waiter>, q: seq<Waiter>, id: nat)
    ensures Waiting(p + q, id) == Waiting(p, id) + Waiting(q, id)
  {
    if p == [] {
      assert p + q == q;
    } else {
      WaitingConcat(p[1..], q, id);
      assert (p + q)[1..] == p[1..] + q;
    }
  }

  lemma WaitingInserted(q: seq<Waiter>, k: nat, w: Waiter, id: nat)
    requires k <= |q|
    ensures Waiting(InsertedAt(q, k, w), id) == Waiting(q, id) + (if w.id == id then 1 else 0)
  {
    assert Waiting([w], id) == if w.id == id then 1 else 0;
    hide Waiting;
    WaitingConcat(q[..k], q[k..], id);
    assert q[..k] + q[k..] == q;
    WaitingConcat(q[..k] + [w], q[k..], id);
    WaitingConcat(q[..k], [w], id);
  }

  lemma WaitingRemoved(q: seq<Waiter>, k: nat, id: nat)
    requires k < |q|
    ensures Waiting(q, id) == Waiting(RemovedAt(q, k), id) + (if q[k].id == id then 1 else 0)
  {
    var rest := RemovedAt(q, k);
    hide Waiting;
    WaitingInserted(rest, k, q[k], id);
    assert rest[..k] + [q[k]] + rest[k..] == q;
  }

  lemma RepliedMore(replies: seq<Reply>, r: Reply, id: nat)
    ensures Replied(replies + [r], id) == Replied(replies, id) + (if r.w.id == id then 1 else 0)
  {
    assert (replies + [r])[..|replies|] == replies;
  }

  lemma OnceMore(s: State, k: nat, r: Reply)
    requires ExactlyOnce(s) && k < |s.queue| && r.w == s.queue[k]
    ensures ExactlyOnce(Removed(s, k, r))
  {
    hide Waiting, Replied, RemovedAt;
    forall id: nat
      ensures Waiting(RemovedAt(s.queue, k), id) + Replied(s.replies + [r], id) == if id < s.count then 1 else 0
    {
      WaitingRemoved(s.queue, k, id);
      RepliedMore(s.replies, r, id);
    }
  }

  lemma OnceAdded(s: State, k: nat, w: Waiter)
    requires ExactlyOnce(s) && k <= |s.queue| && w.id == s.count
    ensures ExactlyOnce(s.(queue := InsertedAt(s.queue, k, w), count := s.count + 1))
  {
    hide Waiting, Replied;
    var q := InsertedAt(s.queue, k, w);
    forall id: nat ensures Waiting(q, id) + Replied(s.replies, id) == if id < s.count + 1 then 1 else 0 {
      WaitingInserted(s.queue, k, w, id);
    }
  }

  // ----- order

  lemma RemovedSorted(q: seq<Waiter>, k: nat)
    requires Sorted(q) && k < |q|
    ensures Sorted(RemovedAt(q, k))
  {
    var r := RemovedAt(q, k);
    forall i, j | 0 <= i < j < |r| ensures Ahead(r[i], r[j]) {
      assert r[i] == q[if i < k then i else i + 1] && r[j] == q[if j < k then j else j + 1];
    }
  }

  lemma InsertedSorted(q: seq<Waiter>, k: nat, w: Waiter)
    requires Sorted(q) && k <= |q|
    requires forall i :: 0 <= i < |q| ==> if i < k then Ahead(q[i], w) else Ahead(w, q[i])
    ensures Sorted(InsertedAt(q, k, w))
  {
    hide Ahead;
    var r := InsertedAt(q, k, w);
    forall i, j | 0 <= i < j < |r| ensures Ahead(r[i], r[j]) {
      assert i < k ==> r[i] == q[i];
      assert i > k ==> r[i] == q[i - 1];
      assert j < k ==> r[j] == q[j];
      assert j > k ==> r[j] == q[j - 1];
    }
  }

  /** The place AddWaiter finds is behind everything due later or at the same time. */
  lemma PlaceSplits(q: seq<Waiter>, w: Waiter, i: nat)
    requires Sorted(q) && Near(w.due) && (forall i :: 0 <= i < |q| ==> Near(q[i].due) && q[i].id < w.id) && i < |q|
    ensures if i < WaiterIndex(q, w.due) then Ahead(q[i], w) else Ahead(w, q[i])
  {
    var k := WaiterIndex(q, w.due);
    CompareExact(q[i].due, w.due);
    if i >= k {
      CompareExact(q[k].due, w.due);
      assert i > k ==> Ahead(q[k], q[i]);
    }
    hide Micros, CmpTime;
  }

  // ----- every event keeps the invariant

  lemma NewcomerSound(s: State, interval: Time)
    requires Inv(s) && Enabled(s, Add(interval))
    ensures var due := Sum(s.elapsed, interval); Near(due) && Sound(Waiter(s.count, s.elapsed, interval, due))
  {
    SumExact(s.elapsed, interval);
  }

  lemma QueueNear(s: State)
    requires Inv(s)
    ensures forall i :: 0 <= i < |s.queue| ==> Near(s.queue[i].due) && s.queue[i].id < s.count
  {
    forall i | 0 <= i < |s.queue| ensures Near(s.queue[i].due) && s.queue[i].id < s.count { assert Sound(s.queue[i]); }
  }

  lemma AddKeeps(s: State, interval: Time)
    requires Inv(s) && Enabled(s, Add(interval))
    ensures Inv(Next(s, Add(interval)))
  {
    var due := Sum(s.elapsed, interval);
    var w := Waiter(s.count, s.elapsed, interval, due);
    var k := WaiterIndex(s.queue, due);
    NewcomerSound(s, interval);
    QueueNear(s);
    hide Sum, SumFits, Ahead, WaiterIndex, Micros, Near, CmpTime, Sound, Enabled;
    forall i | 0 <= i < |s.queue| ensures if i < k then Ahead(s.queue[i], w) else Ahead(w, s.queue[i]) {
      PlaceSplits(s.queue, w, i);
    }
    InsertedSorted(s.queue, k, w);
    OnceAdded(s, k, w);
    hide Sorted, NeverEarly, ExactlyOnce;
    var q := InsertedAt(s.queue, k, w);
    forall i | 0 <= i < |q| ensures Sound(q[i]) && q[i].id < s.count + 1 {
      assert q[i] == if i < k then s.queue[i] else if i == k then w else s.queue[i - 1];
    }
  }

  lemma RemovalKeeps(s: State, k: nat, r: Reply)
    requires Inv(s) && k < |s.queue| && r.w == s.queue[k]
    requires r.Expired? ==> Micros(r.at) > Micros(r.w.due)
    ensures Inv(Removed(s, k, r))
  {
    RemovedSorted(s.queue, k);
    OnceMore(s, k, r);
    assert Sound(s.queue[k]);
    hide Sorted, Micros, Near, ExactlyOnce;
    var q := RemovedAt(s.queue, k);
    forall i | 0 <= i < |q| ensures Sound(q[i]) && q[i].id < s.count {
      assert q[i] == s.queue[if i < k then i else i + 1];
    }
  }

  lemma TickKeeps(s: State, vblank: Time)
    requires Inv(s) && Enabled(s, Tick(vblank))
    ensures Inv(Next(s, Tick(vblank)))
  {
    var now := Sum(vblank, s.elapsed);
    var k := FirstExpired(s.queue, now);
    var t := s.(elapsed := now);
    assert Inv(t);
    if k < |s.queue| {
      assert Sound(s.queue[k]);
      BeforeIsLess(s.queue[k].due, now);
      hide Inv;
      RemovalKeeps(t, k, Expired(s.queue[k], now));
    }
  }

  lemma NextKeeps(s: State, e: Event)
    requires Inv(s) && Enabled(s, e)
    ensures Inv(Next(s, e))
  {
    match e
    case Add(interval) => AddKeeps(s, interval);
    case Tick(vblank) => TickKeeps(s, vblank);
    case Abort(id) =>
      var k := TicketIndex(s.queue, id);
      if k < |s.queue| {
        hide Inv;
        RemovalKeeps(s, k, Aborted(s.queue[k]));
      }
  }

  ghost predicate IsRun(run: seq<State>, events: seq<Event>) {
    && |run| == |events| + 1
    && Inv(run[0])
    && forall i :: 0 <= i < |events| ==> Enabled(run[i], events[i]) && run[i + 1] == Next(run[i], events[i])
  }

  /** In every state of every run the queue is sorted, no reply was early, and every request is
      either waiting or has been replied to once. */
  lemma {:induction false} RunKeeps(run: seq<State>, events: seq<Event>, i: nat)
    requires IsRun(run, events) && i < |run|
    ensures Inv(run[i])
  {
    if i > 0 {
      RunKeeps(run, events, i - 1);
      assert Enabled(run[i - 1], events[i - 1]);
      NextKeeps(run[i - 1], events[i - 1]);
    }
  }

  lemma InitiallySound(elapsed: Time)
    requires Near(elapsed)
    ensures Inv(State(elapsed, [], [], 0))
  {
  }

  // ----- draining the queue

  /** Ticks only, nothing added or aborted: the values of Elapsed they reach. */
  ghost predicate Rising(times: seq<Time>) {
    (forall i :: 0 <= i < |times| ==> Normal(times[i]))
    && forall i, j :: 0 <= i < j < |times| ==> Micros(times[i]) < Micros(times[j])
  }

  /** The queue after ticks at these times. */
  function After(q: seq<Waiter>, times: seq<Time>): seq<Waiter> {
    if times == [] then q else After(Served(q, times[0]), times[1..])
  }

  ghost predicate InOrder(q: seq<Waiter>) {
    Sorted(q) && forall i :: 0 <= i < |q| ==> Normal(q[i].due)
  }

  lemma ServedKeepsOrder(q: seq<Waiter>, now: Time)
    requires InOrder(q)
    ensures InOrder(Served(q, now)) && forall w :: w in Served(q, now) ==> w in q
  {
    var k := FirstExpired(q, now);
    if k < |q| { RemovedSorted(q, k); }
  }

  /** What has expired is a suffix of the queue. */
  lemma ExpiredIsSuffix(q: seq<Waiter>, now: Time, i: nat)
    requires InOrder(q) && Normal(now) && i < |q|
    ensures Before(q[i].due, now) <==> FirstExpired(q, now) <= i
  {
    var k := FirstExpired(q, now);
    if k < i {
      assert Ahead(q[k], q[i]);
      BeforeIsLess(q[k].due, now);
      BeforeIsLess(q[i].due, now);
    }
  }

  lemma DistinctWaiters(q: seq<Waiter>, i: nat, j: nat)
    requires Sorted(q) && i < j < |q|
    ensures q[i] != q[j]
  {
    assert Ahead(q[i], q[j]);
  }

  /** A tick takes away one request at most. */
  lemma {:induction false} SomeRemain(q: seq<Waiter>, times: seq<Time>, olds: seq<Waiter>)
    requires Sorted(olds) && |times| < |olds| && forall w :: w in olds ==> w in q
    ensures exists w :: w in olds && w in After(q, times)
    decreases |times|
  {
    if times == [] {
      assert olds[0] in olds;
    } else {
      var k := FirstExpired(q, times[0]);
      var r := Served(q, times[0]);
      var rest := olds;
      if k < |q| && q[k] in olds {
        var i :| 0 <= i < |olds| && olds[i] == q[k];
        rest := RemovedAt(olds, i);
        RemovedSorted(olds, i);
        NotAmongRest(olds, i);
      } else {
        rest := olds[1..];
      }
      forall w | w in rest ensures w in r && w in olds { StillQueued(q, times[0], w); }
      SomeRemain(r, times[1..], rest);
    }
  }

  lemma NotAmongRest(q: seq<Waiter>, i: nat)
    requires Sorted(q) && i < |q|
    ensures q[i] !in RemovedAt(q, i) && forall w :: w in RemovedAt(q, i) ==> w in q
  {
    var r := RemovedAt(q, i);
    forall j | 0 <= j < |r| ensures r[j] != q[i] && r[j] in q {
      if j < i {
        DistinctWaiters(q, j, i);
        assert r[j] == q[j];
      } else {
        DistinctWaiters(q, i, j + 1);
        assert r[j] == q[j + 1];
      }
    }
  }

  lemma StillQueued(q: seq<Waiter>, now: Time, w: Waiter)
    requires w in q && (FirstExpired(q, now) < |q| ==> w != q[FirstExpired(q, now)])
    ensures w in Served(q, now)
  {
    var k := FirstExpired(q, now);
    if k < |q| {
      var i :| 0 <= i < |q| && q[i] == w;
      assert w == RemovedAt(q, k)[if i < k then i else i - 1];
    }
  }

  lemma {:induction false} AfterSubset(q: seq<Waiter>, times: seq<Time>, w: Waiter)
    requires w in After(q, times)
    ensures w in q
    decreases |times|
  {
    if times != [] {
      AfterSubset(Served(q, times[0]), times[1..], w);
    }
  }

  lemma StaysExpired(due: Time, times: seq<Time>, i: nat)
    requires Normal(due) && Rising(times) && i < |times| && Before(due, times[0])
    ensures Before(due, times[i])
  {
    BeforeIsLess(due, times[0]);
    BeforeIsLess(due, times[i]);
  }

  /** Nothing of q from index `m` on is left in `r`. */
  ghost predicate Gone(q: seq<Waiter>, m: nat, r: seq<Waiter>) {
    forall i :: m <= i < |q| ==> q[i] !in r
  }

  /** If the first tick serves another one, there are too few ticks left. */
  lemma OldOnesRemain(q: seq<Waiter>, times: seq<Time>, m: nat)
    requires InOrder(q) && times != [] && m < |q| && |times| == |q| - m && FirstExpired(q, times[0]) < m
    ensures !Gone(q, m, After(q, times))
  {
    var olds, k := q[m..], FirstExpired(q, times[0]);
    assert Sorted(olds) by {
      forall i, j | 0 <= i < j < |olds| ensures Ahead(olds[i], olds[j]) { assert Ahead(q[m + i], q[m + j]); }
    }
    forall w | w in olds ensures w in Served(q, times[0]) {
      var i :| 0 <= i < |olds| && olds[i] == w;
      DistinctWaiters(q, k, m + i);
      StillQueued(q, times[0], w);
    }
    SomeRemain(Served(q, times[0]), times[1..], olds);
  }

  /** If the first tick serves the latest of them, the others are left to the other ticks. */
  lemma OldOneServed(q: seq<Waiter>, times: seq<Time>, m: nat)
    requires InOrder(q) && times != [] && m < |q| && FirstExpired(q, times[0]) == m
    ensures Gone(q, m, After(q, times)) <==> Gone(Served(q, times[0]), m, After(Served(q, times[0]), times[1..]))
  {
    var r, end := Served(q, times[0]), After(q, times);
    NotAmongRest(q, m);
    if q[m] in end { AfterSubset(r, times[1..], q[m]); }
    assert end == After(r, times[1..]);
    hide After, InOrder, FirstExpired;
    assert r == q[..m] + q[m + 1..];
    GoneShifted(q, r, m, end);
  }

  lemma GoneShifted(q: seq<Waiter>, r: seq<Waiter>, m: nat, end: seq<Waiter>)
    requires m < |q| && r == q[..m] + q[m + 1..] && q[m] !in end
    ensures Gone(q, m, end) <==> Gone(r, m, end)
  {
    assert forall i :: m <= i < |r| ==> r[i] == q[i + 1];
    assert forall i :: m < i < |q| ==> q[i] == r[i - 1];
  }

  /** If one of the others has expired at the first tick, the ticks do not suffice. */
  lemma TooFewTicks(q: seq<Waiter>, times: seq<Time>, m: nat)
    requires InOrder(q) && Rising(times) && |times| == |q| - m && m < |q|
    requires Before(q[m].due, times[0]) && FirstExpired(q, times[0]) < m
    ensures m > 0 && Before(q[m - 1].due, times[|times| - 1]) && !Gone(q, m, After(q, times))
  {
    ExpiredIsSuffix(q, times[0], m - 1);
    StaysExpired(q[m - 1].due, times, |times| - 1);
    hide InOrder, FirstExpired, Before, After, Rising;
    OldOnesRemain(q, times, m);
  }

  /** Otherwise the first tick serves one of the requests in question, and the rest is the same
      problem for the queue that it leaves. */
  lemma RoundServed(q: seq<Waiter>, times: seq<Time>, m: nat, r: seq<Waiter>)
    requires InOrder(q) && Rising(times) && |times| == |q| - m && m < |q|
    requires FirstExpired(q, times[0]) == m && r == Served(q, times[0])
    ensures InOrder(r) && |r| == |q| - 1 && (m > 0 ==> r[m - 1] == q[m - 1])
    ensures |times| > 1 ==> Before(r[m].due, times[1])
  {
    ServedKeepsOrder(q, times[0]);
    hide InOrder, Rising;
    if |times| > 1 {
      assert r[m] == q[m + 1];
      ExpiredIsSuffix(q, times[0], m + 1);
      StaysExpired(r[m].due, times, 1);
    }
  }

  /** `n` requests that have expired when the first of `n` ticks comes are all replied to by these
      ticks exactly if none of the others has expired at the last one: a request that expires
      later is due later, stands in front, and takes its tick from one that waited longer. */
  lemma {:induction false} DrainIff(q: seq<Waiter>, times: seq<Time>, n: nat)
    requires InOrder(q) && Rising(times) && |times| == n && 1 <= n <= |q|
    requires Before(q[|q| - n].due, times[0])
    ensures Gone(q, |q| - n, After(q, times)) <==> n == |q| || !Before(q[|q| - n - 1].due, times[n - 1])
    decreases n
  {
    hide *;
    var m := |q| - n;
    var r := Served(q, times[0]);
    RisingNormal(times);
    ExpiredIsSuffix(q, times[0], m);
    if FirstExpired(q, times[0]) < m {
      TooFewTicks(q, times, m);
    } else {
      RoundServed(q, times, m, r);
      OldOneServed(q, times, m);
      if n > 1 {
        RisingTail(times);
        DrainIff(r, times[1..], n - 1);
      } else {
        LastRound(r, times, m);
      }
    }
  }

  lemma RisingNormal(times: seq<Time>)
    requires Rising(times) && times != []
    ensures Normal(times[0])
  {
  }

  lemma LastRound(r: seq<Waiter>, times: seq<Time>, m: nat)
    requires |times| == 1 && |r| == m
    ensures Gone(r, m, After(r, times[1..]))
  {
  }

  lemma RisingTail(times: seq<Time>)
    requires Rising(times) && times != []
    ensures Rising(times[1..])
  {
  }

  /** A request with `i` others in front of it that has expired is replied to within i + 1 ticks. */
  lemma {:induction false} ServedWithin(q: seq<Waiter>, times: seq<Time>, i: nat)
    requires InOrder(q) && Rising(times) && i < |q| && i < |times| && Before(q[i].due, times[0])
    ensures q[i] !in After(q, times)
    decreases i
  {
    var w, k, r := q[i], FirstExpired(q, times[0]), Served(q, times[0]);
    ServedKeepsOrder(q, times[0]);
    ExpiredIsSuffix(q, times[0], i);
    if k == i {
      NotAmongRest(q, i);
      if w in After(q, times) { AfterSubset(r, times[1..], w); }
    } else {
      assert r[i - 1] == w;
      StaysExpired(w.due, times, 1);
      RisingTail(times);
      ServedWithin(r, times[1..], i - 1);
    }
  }

  // ----- the same for runs of the device in which only ticks happen

  function Times(run: seq<State>): (ts: seq<Time>)
    requires run != []
    ensures |ts| == |run| - 1 && forall i :: 0 <= i < |ts| ==> ts[i] == run[i + 1].elapsed
  {
    seq(|run| - 1, i requires 0 <= i < |run| - 1 => run[i + 1].elapsed)
  }

  ghost predicate OnlyTicks(events: seq<Event>) {
    forall i :: 0 <= i < |events| ==> events[i].Tick? && Micros(events[i].vblank) > 0
  }

  lemma InvInOrder(s: State)
    requires Inv(s)
    ensures InOrder(s.queue) && Normal(s.elapsed)
  {
    forall i | 0 <= i < |s.queue| ensures Normal(s.queue[i].due) { assert Sound(s.queue[i]); }
  }

  lemma {:induction false} ElapsedRises(run: seq<State>, events: seq<Event>, i: nat, j: nat)
    requires IsRun(run, events) && OnlyTicks(events) && i < j < |run|
    ensures Micros(run[i].elapsed) < Micros(run[j].elapsed)
  {
    if i < j - 1 { ElapsedRises(run, events, i, j - 1); }
    var e := events[j - 1];
    assert Enabled(run[j - 1], e) && run[j] == Next(run[j - 1], e);
    SumExact(e.vblank, run[j - 1].elapsed);
  }

  lemma {:induction false} TicksTake(run: seq<State>, events: seq<Event>)
    requires IsRun(run, events) && OnlyTicks(events)
    ensures run[|events|].queue == After(run[0].queue, Times(run))
    decreases |events|
  {
    if events != [] {
      assert Enabled(run[0], events[0]) && run[1] == Next(run[0], events[0]);
      RunKeeps(run, events, 1);
      hide Inv, Enabled, Next;
      assert IsRun(run[1..], events[1..]);
      TicksTake(run[1..], events[1..]);
      assert Times(run)[1..] == Times(run[1..]);
    }
  }

  lemma TicksRise(run: seq<State>, events: seq<Event>)
    requires IsRun(run, events) && OnlyTicks(events)
    ensures Rising(Times(run)) && InOrder(run[0].queue)
  {
    InvInOrder(run[0]);
    var ts := Times(run);
    forall i | 0 <= i < |ts| ensures Normal(ts[i]) {
      RunKeeps(run, events, i + 1);
      InvInOrder(run[i + 1]);
    }
    forall i, j | 0 <= i < j < |ts| ensures Micros(ts[i]) < Micros(ts[j]) {
      ElapsedRises(run, events, i + 1, j + 1);
    }
  }

  /** In any run of n ticks that begins when the n last requests in the queue have expired, these
      have all been replied to at the end exactly if no other request has expired by then; and a
      request at index i that has expired is replied to by the (i+1)-th tick in any case. */
  lemma DrainRun(run: seq<State>, events: seq<Event>, i: nat)
    requires |run| == |events| + 1 && IsRun(run, events) && OnlyTicks(events) && i < |run[0].queue| && events != []
    requires Before(run[0].queue[i].due, run[0].elapsed)
    ensures var q, n := run[0].queue, |events|;
            && (n == |q| - i ==>
                  (Gone(q, i, run[n].queue) <==> i == 0 || !Before(q[i - 1].due, run[n].elapsed)))
            && (n > i ==> q[i] !in run[n].queue)
  {
    hide *;
    var q, n := run[0].queue, |events|;
    var ts := Times(run);
    StillExpired(run, events, i);
    TicksTake(run, events);
    TicksRise(run, events);
    if n == |q| - i { DrainIff(q, ts, n); }
    if n > i { ServedWithin(q, ts, i); }
  }

  lemma StillExpired(run: seq<State>, events: seq<Event>, i: nat)
    requires IsRun(run, events) && OnlyTicks(events) && i < |run[0].queue| && events != []
    requires Before(run[0].queue[i].due, run[0].elapsed)
    ensures Before(run[0].queue[i].due, Times(run)[0]) && Times(run)[|events| - 1] == run[|events|].elapsed
  {
    ElapsedRises(run, events, 0, 1);
    RunKeeps(run, events, 1);
    InvInOrder(run[0]);
    InvInOrder(run[1]);
    BeforeIsLess(run[0].queue[i].due, run[0].elapsed);
    BeforeIsLess(run[0].queue[i].due, run[1].elapsed);
  }

  lemma SmallSum(x: nat, y: nat)
    requires x + y < MICROS
    ensures Sum(Time(0, x), Time(0, y)) == Time(0, x + y) && SumFits(Time(0, x), Time(0, y))
  {
    SumNormal(Time(0, x), Time(0, y));
  }

  /** A request due later than the only one in the queue goes in front of it ... */
  lemma AddInFront(s: State, x: nat, y: nat)
    requires x + y < MICROS && s.elapsed == Time(0, x) && |s.queue| <= 1
    requires s.queue != [] ==> s.queue[0].due.secs == 0 && s.queue[0].due.micro < x + y
    ensures Enabled(s, Add(Time(0, y)))
    ensures Next(s, Add(Time(0, y)))
         == s.(queue := [Waiter(s.count, s.elapsed, Time(0, y), Time(0, x + y))] + s.queue, count := s.count + 1)
  {
    SmallSum(x, y);
    hide Sum, SumFits;
    var due := Time(0, x + y);
    assert WaiterIndex(s.queue, due) == 0;
  }

  /** ... and is served first. */
  lemma FrontIsServed(s: State, x: nat, y: nat)
    requires x + y < MICROS && s.elapsed == Time(0, x) && |s.queue| == 2
    requires s.queue[0].due.secs == 0 && s.queue[0].due.micro < x + y
    ensures Enabled(s, Tick(Time(0, y)))
    ensures Next(s, Tick(Time(0, y)))
         == State(Time(0, x + y), [s.queue[1]], s.replies + [Expired(s.queue[0], Time(0, x + y))], s.count)
  {
    SmallSum(y, x);
    hide Sum, SumFits;
    assert FirstExpired(s.queue, Time(0, x + y)) == 0;
    assert RemovedAt(s.queue, 0) == [s.queue[1]];
  }

  /** `w` is the last of `n` requests in the queue. */
  predicate Last(s: State, w: Waiter, n: nat) { |s.queue| == n && n > 0 && s.queue[n - 1] == w }

  /** A run from the start: at 10 ms the tick serves the request due at 5 ms and leaves the one due
      at 0.  That one has expired when a request due at 10 ms comes in, and the next tick, at 20 ms,
      serves the newcomer.  So one tick need not be enough for one expired request. */
  lemma DrainCanFail() returns (run: seq<State>, events: seq<Event>, w: Waiter)
    ensures events == [Add(Time(0, 0)), Add(Time(0, 5000)), Tick(Time(0, 10000)), Add(Time(0, 0)), Tick(Time(0, 10000))]
    ensures |run| == 6 && IsRun(run, events) && run[0] == State(Time(0, 0), [], [], 0)
    ensures w.id == 0 && Before(w.due, run[4].elapsed)
    ensures Last(run[3], w, 1) && Last(run[4], w, 2) && Last(run[5], w, 1)
  {
    hide Inv, Enabled, Next, IsRun, Before, InOrder, Sum, SumFits;
    var s0, s1, s2, s3;
    s0, s1, s2, s3, w := FirstThree();
    var s4, s5 := LastTwo(s3, w);
    events := [Add(Time(0, 0)), Add(Time(0, 5000)), Tick(Time(0, 10000)), Add(Time(0, 0)), Tick(Time(0, 10000))];
    run := [s0, s1, s2, s3, s4, s5];
    FiveSteps(run, events);
  }

  lemma FirstThree() returns (s0: State, s1: State, s2: State, s3: State, w: Waiter)
    ensures s0 == State(Time(0, 0), [], [], 0) && Inv(s0)
    ensures Enabled(s0, Add(Time(0, 0))) && s1 == Next(s0, Add(Time(0, 0)))
    ensures Enabled(s1, Add(Time(0, 5000))) && s2 == Next(s1, Add(Time(0, 5000)))
    ensures Enabled(s2, Tick(Time(0, 10000))) && s3 == Next(s2, Tick(Time(0, 10000)))
    ensures s3.elapsed == Time(0, 10000) && Last(s3, w, 1) && w.id == 0 && w.due == Time(0, 0)
  {
    s0 := State(Time(0, 0), [], [], 0);
    InitiallySound(Time(0, 0));
    hide Inv, Next, Enabled;
    AddInFront(s0, 0, 0);
    s1 := Next(s0, Add(Time(0, 0)));
    AddInFront(s1, 0, 5000);
    s2 := Next(s1, Add(Time(0, 5000)));
    FrontIsServed(s2, 0, 10000);
    s3 := Next(s2, Tick(Time(0, 10000)));
    w := s3.queue[0];
  }

  lemma LastTwo(s3: State, w: Waiter) returns (s4: State, s5: State)
    requires s3.elapsed == Time(0, 10000) && Last(s3, w, 1) && w.due == Time(0, 0)
    ensures Enabled(s3, Add(Time(0, 0))) && s4 == Next(s3, Add(Time(0, 0)))
    ensures Enabled(s4, Tick(Time(0, 10000))) && s5 == Next(s4, Tick(Time(0, 10000)))
    ensures Last(s4, w, 2) && Before(w.due, s4.elapsed) && Last(s5, w, 1)
  {
    hide Next, Enabled;
    AddInFront(s3, 10000, 0);
    s4 := Next(s3, Add(Time(0, 0)));
    FrontIsServed(s4, 10000, 10000);
    s5 := Next(s4, Tick(Time(0, 10000)));
  }

  lemma FiveSteps(run: seq<State>, events: seq<Event>)
    requires |events| == 5 && |run| == 6 && Inv(run[0])
    requires Enabled(run[0], events[0]) && run[1] == Next(run[0], events[0])
    requires Enabled(run[1], events[1]) && run[2] == Next(run[1], events[1])
    requires Enabled(run[2], events[2]) && run[3] == Next(run[2], events[2])
    requires Enabled(run[3], events[3]) && run[4] == Next(run[3], events[3])
    requires Enabled(run[4], events[4]) && run[5] == Next(run[4], events[4])
    ensures IsRun(run, events)
  {
    hide Inv, Enabled, Next;
  }

  // ----- an abort that is overtaken by ticks

  /** The step from state `t` is a tick that replies to request `id`. */
  ghost predicate ServedAt(run: seq<State>, events: seq<Event>, t: nat, id: nat) {
    && t < |events| && t + 1 < |run| && events[t].Tick?
    && Serves(run[t], run[t + 1].elapsed, id)
  }

  ghost predicate Serves(s: State, now: Time, id: nat) {
    var k := FirstExpired(s.queue, now);
    k < |s.queue| && s.queue[k].id == id
  }

  /** A step that does not abort a request replies to it exactly if it is a tick that serves it. */
  lemma RepliedStep(s: State, e: Event, id: nat)
    requires e != Abort(id)
    ensures Replied(Next(s, e).replies, id)
         == Replied(s.replies, id) + if e.Tick? && Serves(s, Next(s, e).elapsed, id) then 1 else 0
  {
    hide Replied;
    match e
    case Add(_) =>
    case Tick(vblank) =>
      var now := Sum(vblank, s.elapsed);
      var k := FirstExpired(s.queue, now);
      if k < |s.queue| { RepliedMore(s.replies, Expired(s.queue[k], now), id); }
    case Abort(other) =>
      var k := TicketIndex(s.queue, other);
      if k < |s.queue| { RepliedMore(s.replies, Aborted(s.queue[k]), id); }
  }

  ghost predicate NoAbort(events: seq<Event>, id: nat) { forall t :: 0 <= t < |events| ==> events[t] != Abort(id) }

  /** A request that has been replied to is not served any more. */
  lemma ServedOnce(s: State, now: Time, id: nat)
    requires ExactlyOnce(s) && Serves(s, now, id)
    ensures Replied(s.replies, id) == 0
  {
    var k := FirstExpired(s.queue, now);
    WaitingRemoved(s.queue, k, id);
    assert Waiting(s.queue, id) + Replied(s.replies, id) <= 1;
  }

  lemma StepAt(run: seq<State>, events: seq<Event>, id: nat, i: nat)
    requires IsRun(run, events) && i < |events| && NoAbort(events, id)
    ensures |run| == |events| + 1 && ExactlyOnce(run[i]) && events[i] != Abort(id)
    ensures run[i + 1] == Next(run[i], events[i])
    ensures events[i].Tick? && Serves(run[i], run[i + 1].elapsed, id) <==> ServedAt(run, events, i, id)
  {
    RunKeeps(run, events, i);
    assert Enabled(run[i], events[i]);
    hide Next, Enabled, Serves;
  }

  /** While nobody aborts it, a request has been replied to exactly if a tick has served it. */
  lemma {:induction false} RepliedByTicks(run: seq<State>, events: seq<Event>, id: nat, i: nat)
    requires |run| == |events| + 1 && i < |run|
    requires IsRun(run, events) && NoAbort(events, id) && Replied(run[0].replies, id) == 0
    ensures Replied(run[i].replies, id) == if exists t :: 0 <= t < i && ServedAt(run, events, t, id) then 1 else 0
  {
    hide *;
    if i > 0 {
      var s, e := run[i - 1], events[i - 1];
      RepliedByTicks(run, events, id, i - 1);
      StepAt(run, events, id, i - 1);
      RepliedStep(s, e, id);
      if ServedAt(run, events, i - 1, id) { ServedOnce(s, run[i].elapsed, id); }
    }
  }

  /** timer_AbortIO tests for NT_REPLYMSG with interrupts enabled.  If request `w` waits at the
      test, which state run[0] stands for, and other things happen before it is removed and
      replied to, then it is replied to twice exactly if one of them is a tick that serves it,
      and otherwise once. */
  lemma LateAbortRepliesTwice(run: seq<State>, events: seq<Event>, w: Waiter)
    requires |run| == |events| + 1 && IsRun(run, events) && w in run[0].queue && NoAbort(events, w.id)
    ensures Replied(run[|events|].replies + [Aborted(w)], w.id)
         == if exists t :: 0 <= t < |events| && ServedAt(run, events, t, w.id) then 2 else 1
  {
    var k :| 0 <= k < |run[0].queue| && run[0].queue[k] == w;
    RunKeeps(run, events, 0);
    WaitingRemoved(run[0].queue, k, w.id);
    assert Waiting(run[0].queue, w.id) + Replied(run[0].replies, w.id) <= 1;
    hide *;
    RepliedByTicks(run, events, w.id, |events|);
    RepliedMore(run[|events|].replies, Aborted(w), w.id);
  }

  /** An instance: a request for no time at all, its abort, and a tick in between. */
  lemma AbortCanReplyTwice() returns (run: seq<State>, events: seq<Event>)
    ensures |run| == 2 && events == [Tick(Time(0, 10000))] && IsRun(run, events)
    ensures |run[0].queue| == 1 && Replied(run[1].replies + [Aborted(run[0].queue[0])], run[0].queue[0].id) == 2
  {
    var s0 := State(Time(0, 0), [], [], 0);
    InitiallySound(Time(0, 0));
    AddInFront(s0, 0, 0);
    NextKeeps(s0, Add(Time(0, 0)));
    hide Inv, Enabled, Next, Replied;
    var s1 := Next(s0, Add(Time(0, 0)));
    OnlyOneIsServed(s1, 0, 10000);
    events := [Tick(Time(0, 10000))];
    run := [s1, Next(s1, events[0])];
    assert ServedAt(run, events, 0, s1.queue[0].id);
    LateAbortRepliesTwice(run, events, s1.queue[0]);
  }

  lemma OnlyOneIsServed(s: State, x: nat, y: nat)
    requires x + y < MICROS && s.elapsed == Time(0, x) && |s.queue| == 1
    requires s.queue[0].due.secs == 0 && s.queue[0].due.micro < x + y
    ensures Enabled(s, Tick(Time(0, y)))
    ensures Serves(s, Next(s, Tick(Time(0, y))).elapsed, s.queue[0].id)
  {
    SmallSum(y, x);
    hide Sum, SumFits;
    assert FirstExpired(s.queue, Time(0, x + y)) == 0;
  }
}
