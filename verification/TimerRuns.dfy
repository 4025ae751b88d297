/** What a request to timer.device gets, in terms of the request and the ticks. */
module TimerRuns {
  import opened TimeVals
  import opened Lists
  import opened TimerModel
  import opened TimerProofs

  // ----- Elapsed

  /** How many microseconds the ticks among events `i` to `j - 1` count. */
  ghost function Ticked(events: seq<Event>, i: nat, j: nat): nat
    requires i <= j <= |events|
  {
    if i == j then 0
    else Ticked(events, i, j - 1) + if events[j - 1].Tick? then Micros(events[j - 1].vblank) else 0
  }

  /** Elapsed is the sum of all ticks, to the microsecond. */
  lemma {:induction false} ElapsedCounts(run: seq<State>, events: seq<Event>, i: nat, j: nat)
    requires IsRun(run, events) && i <= j <= |events|
    ensures Micros(run[j].elapsed) == Micros(run[i].elapsed) + Ticked(events, i, j)
    decreases j
  {
    if i < j {
      ElapsedCounts(run, events, i, j - 1);
      assert Enabled(run[j - 1], events[j - 1]) && run[j] == Next(run[j - 1], events[j - 1]);
      hide IsRun, Enabled, Next, Micros;
      ElapsedStep(run[j - 1], events[j - 1]);
    }
  }

  lemma ElapsedStep(s: State, e: Event)
    requires Enabled(s, e)
    ensures Micros(Next(s, e).elapsed) == Micros(s.elapsed) + if e.Tick? then Micros(e.vblank) else 0
  {
    if e.Tick? { SumExact(e.vblank, s.elapsed); }
    hide Sum, Micros;
  }

  // ----- replies

  /** There is a reply at most; to an expired request only by a tick, with the time that this tick made
      it, and otherwise by AbortIO to the very request it names. */
  lemma ReplyStep(s: State, e: Event)
    ensures var n := Next(s, e);
            n.replies != s.replies ==>
              && |n.replies| == |s.replies| + 1 && n.replies[..|s.replies|] == s.replies
              && var r := n.replies[|s.replies|];
                 && r.w in s.queue
                 && (r.Expired? ==> e.Tick? && r.at == n.elapsed && Before(r.w.due, r.at))
                 && (r.Aborted? ==> e == Abort(r.w.id))
  {
  }

  lemma {:induction false} RepliedCounts(replies: seq<Reply>, i: nat)
    requires i < |replies|
    ensures Replied(replies, replies[i].w.id) > 0
    decreases |replies|
  {
    if i < |replies| - 1 { RepliedCounts(replies[..|replies| - 1], i); }
  }

  /** Nothing else than `w` carries this number. */
  ghost predicate Is(s: State, id: nat, w: Waiter) {
    && id < s.count
    && (forall v <- s.queue :: v.id == id ==> v == w)
    && (forall r <- s.replies :: r.w.id == id ==> r.w == w)
  }

  lemma AddedIs(s: State, interval: Time)
    requires Inv(s) && Enabled(s, Add(interval))
    ensures var w := Waiter(s.count, s.elapsed, interval, Sum(s.elapsed, interval));
            Is(Next(s, Add(interval)), s.count, w) && w in Next(s, Add(interval)).queue
  {
    var w := Waiter(s.count, s.elapsed, interval, Sum(s.elapsed, interval));
    var k := WaiterIndex(s.queue, w.due);
    forall i | 0 <= i < |s.replies| ensures s.replies[i].w.id < s.count {
      RepliedCounts(s.replies, i);
      assert Waiting(s.queue, s.replies[i].w.id) + Replied(s.replies, s.replies[i].w.id) > 0;
    }
    assert InsertedAt(s.queue, k, w)[k] == w;
    forall v | v in InsertedAt(s.queue, k, w) ensures v == w || v.id < s.count {
      assert v == w || v in s.queue;
    }
  }

  lemma QueueStep(s: State, e: Event)
    ensures var n := Next(s, e);
            forall v <- n.queue ::
              v in s.queue || (e.Add? && v == Waiter(s.count, s.elapsed, e.interval, Sum(s.elapsed, e.interval)))
  {
  }

  lemma IsStep(s: State, e: Event, id: nat, w: Waiter)
    requires Is(s, id, w)
    ensures Is(Next(s, e), id, w)
  {
    QueueStep(s, e);
    ReplyStep(s, e);
    var n := Next(s, e);
    assert n.count >= s.count;
    hide Next, Sum;
    if n.replies != s.replies {
      assert n.replies == n.replies[..|s.replies|] + [n.replies[|s.replies|]];
    }
  }

  lemma {:induction false} IsKept(run: seq<State>, events: seq<Event>, id: nat, w: Waiter, i: nat, j: nat)
    requires IsRun(run, events) && i <= j <= |events| && Is(run[i], id, w)
    ensures Is(run[j], id, w)
    decreases j
  {
    if i < j {
      IsKept(run, events, id, w, i, j - 1);
      assert run[j] == Next(run[j - 1], events[j - 1]);
      hide *;
      IsStep(run[j - 1], events[j - 1], id, w);
    }
  }

  /** The tick that gave a reply. */
  lemma {:induction false} ReplyTick(run: seq<State>, events: seq<Event>, i: nat, j: nat, k: nat) returns (t: nat)
    requires |run| == |events| + 1 && IsRun(run, events) && i <= j <= |events|
    requires |run[i].replies| <= k < |run[j].replies| && run[j].replies[k].Expired?
    ensures i <= t < j && events[t].Tick? && run[j].replies[k].at == run[t + 1].elapsed
    decreases j
  {
    hide *;
    assert i < j;
    RunStep(run, events, j - 1);
    ReplyAt(run[j - 1], events[j - 1], k);
    t := j - 1;
    if k < |run[j - 1].replies| { t := ReplyTick(run, events, i, j - 1, k); }
  }

  lemma ReplyAt(s: State, e: Event, k: nat)
    requires k < |Next(s, e).replies|
    ensures var r := Next(s, e).replies[k];
            if k < |s.replies| then r == s.replies[k] else r.Expired? ==> e.Tick? && r.at == Next(s, e).elapsed
    ensures |s.replies| <= |Next(s, e).replies|
  {
    ReplyStep(s, e);
    hide Next;
    if Next(s, e).replies != s.replies && k < |s.replies| {
      assert Next(s, e).replies[k] == Next(s, e).replies[..|s.replies|][k];
    }
  }

  /** In every run: a request for an interval is replied to as expired by a tick only, and not before
      the ticks since the request have counted more than that interval, to the microsecond. */
  lemma NotBeforeItsTime(run: seq<State>, events: seq<Event>, i: nat, j: nat, k: nat) returns (t: nat)
    requires |run| == |events| + 1 && IsRun(run, events) && i < j <= |events| && events[i].Add?
    requires k < |run[j].replies| && run[j].replies[k].w.id == run[i].count && run[j].replies[k].Expired?
    ensures i < t < j && events[t].Tick? && Ticked(events, i, t + 1) > Micros(events[i].interval)
  {
    hide *;
    var w := RequestAt(run, events, i, j);
    RunStep(run, events, i);
    RunKeeps(run, events, j);
    ItsReply(run[j], run[i].count, w, k);
    if k < |run[i + 1].replies| {
      NotYetReplied(run[i], events[i], k);
      RepliesKept(run, events, i + 1, j, k);
    }
    t := ReplyTick(run, events, i + 1, j, k);
    ElapsedCounts(run, events, i, t + 1);
  }

  lemma RequestAt(run: seq<State>, events: seq<Event>, i: nat, j: nat) returns (w: Waiter)
    requires |run| == |events| + 1 && IsRun(run, events) && i < j <= |events| && events[i].Add?
    ensures w.submitted == run[i].elapsed && w.interval == events[i].interval && Is(run[j], run[i].count, w)
  {
    hide *;
    RunStep(run, events, i);
    AddedIs(run[i], events[i].interval);
    w := Waiter(run[i].count, run[i].elapsed, events[i].interval, Sum(run[i].elapsed, events[i].interval));
    IsKept(run, events, run[i].count, w, i + 1, j);
  }

  lemma RunStep(run: seq<State>, events: seq<Event>, i: nat)
    requires IsRun(run, events) && i < |events|
    ensures |run| == |events| + 1 && Inv(run[i]) && Enabled(run[i], events[i]) && run[i + 1] == Next(run[i], events[i])
  {
    RunKeeps(run, events, i);
  }

  lemma ItsReply(s: State, id: nat, w: Waiter, k: nat)
    requires Inv(s) && Is(s, id, w) && k < |s.replies| && s.replies[k].w.id == id && s.replies[k].Expired?
    ensures Micros(s.replies[k].at) > Micros(w.submitted) + Micros(w.interval)
  {
    hide Micros;
  }

  lemma NotYetReplied(s: State, e: Event, k: nat)
    requires Inv(s) && e.Add? && k < |Next(s, e).replies|
    ensures Next(s, e).replies[k].w.id < s.count
  {
    RepliedCounts(s.replies, k);
    assert Waiting(s.queue, s.replies[k].w.id) + Replied(s.replies, s.replies[k].w.id) > 0;
  }

  lemma StillReplied(s: State, e: Event, k: nat)
    requires k < |s.replies|
    ensures k < |Next(s, e).replies| && Next(s, e).replies[k] == s.replies[k]
  {
  }

  lemma {:induction false} RepliesKept(run: seq<State>, events: seq<Event>, i: nat, j: nat, k: nat)
    requires |run| == |events| + 1 && IsRun(run, events) && i <= j <= |events| && k < |run[i].replies|
    ensures k < |run[j].replies| && run[j].replies[k] == run[i].replies[k]
    decreases j
  {
    hide *;
    if i < j {
      RepliesKept(run, events, i, j - 1, k);
      RunStep(run, events, j - 1);
      StillReplied(run[j - 1], events[j - 1], k);
    }
  }
}
