/** TDNestCnt across task switches, and what becomes of a Wait that cannot switch. */
module NestCounts {
  import opened Options
  import opened TaskModel
  import opened TaskProofs

  /** The nest count of a task: TDNestCnt itself while it runs, the saved copy otherwise. */
  function NestOf<T(==)>(s: State<T>, t: T): Int8
    requires t in s.tcb
  {
    if s.thisTask == Some(t) then s.tdNest else ToI8(s.tcb[t].tdNest)
  }

  lemma NestAfterRetire<T>(s: State<T>, t: T)
    requires Inv(s) && s.tdNest < 0 && t in s.tcb && t in Retire(s).tcb
    ensures Retire(s).thisTask == None && NestOf(Retire(s), t) == NestOf(s, t)
  {
    RetireKeeps(s);
    hide Ordered, NoneLost, Switchable, Enqueued;
  }

  lemma NestAfterLaunch<T>(s: State<T>, t: T)
    requires s.thisTask == None && s.ready != [] && s.ready[0] in s.tcb && t in s.tcb
    ensures t in Launch(s).tcb && NestOf(Launch(s), t) == NestOf(s, t)
  {
  }

  lemma NestAfterScheduled<T>(s: State<T>, t: T)
    requires Inv(s) && t in s.tcb && t in Scheduled(s).tcb
    ensures NestOf(Scheduled(s), t) == NestOf(s, t)
  {
    if s.tdNest < 0 && s.ready != [] {
      var m := Retire(s);
      RetireKeeps(s);
      assert Scheduled(s) == Launch(m) && m.ready != [] && m.ready[0] in m.tcb && m.thisTask == None;
      RecordsAfterLaunch(m, t);
      hide Inv, Scheduled, Retire, Launch, NestOf;
      NestAfterRetire(s, t);
      NestAfterLaunch(m, t);
    }
  }

  /** The calls of `t` that change its nest count. */
  function Change<T(==)>(s: State<T>, e: Event<T>, t: T): int {
    if s.thisTask != Some(t) then 0 else if e.Forbid? then 1 else if e.Permit? then -1 else 0
  }

  /** The value of a signed byte that has been counted up or down to `x`. */
  function Wrapped(x: int): Int8 { (x + 128) % 256 - 128 }

  lemma Wrap8IsWrapped(x: Int8)
    ensures Wrapped(x) == x && Wrapped(x + 1) == Wrap8(x + 1) && Wrapped(x - 1) == Wrap8(x - 1)
  {
  }

  /** The calls that do not switch. */
  lemma NestOfCall<T>(s: State<T>, e: Event<T>, t: T)
    requires Inv(s) && Enabled(s, e) && t in s.tcb && t in Next(s, e).tcb
    requires !e.Schedule? && !e.Sleep? && !e.Exit?
    ensures var c := Change(s, e, t);
            NestOf(Next(s, e), t) == if c == 0 then NestOf(s, t) else Wrap8(NestOf(s, t) + c)
  {
    hide Ordered, NoneLost, Switchable, Enqueued, Wrapped, FreeBelow, AfterSet;
  }

  lemma NestOfSwitch<T>(s: State<T>, e: Event<T>, t: T)
    requires Inv(s) && Enabled(s, e) && t in s.tcb && t in Next(s, e).tcb
    requires e.Schedule? || e.Sleep? || e.Exit?
    ensures Change(s, e, t) == 0 && NestOf(Next(s, e), t) == NestOf(s, t)
  {
    match e
    case Schedule => NestAfterScheduled(s, t);
    case Sleep(sigs) =>
      FellAsleep(s, sigs);
      assert NestOf(Parked(s, sigs), t) == NestOf(s, t);
      NestAfterScheduled(Parked(s, sigs), t);
    case Exit =>
      var u := s.thisTask.value;
      var r := s.tcb[u].(state := REMOVED);
      RecordKeeps(s, u, r);
      NestAfterScheduled(UpdateThis(s, r), t);
  }

  /** Only its own Forbid and Permit change the nest count of a task, whoever runs in between. */
  lemma NestStep<T>(s: State<T>, e: Event<T>, t: T)
    requires Inv(s) && Enabled(s, e) && t in s.tcb && t in Next(s, e).tcb
    ensures NestOf(Next(s, e), t) == Wrapped(NestOf(s, t) + Change(s, e, t))
  {
    hide Inv, Enabled, Next, NestOf, Wrapped;
    Wrap8IsWrapped(NestOf(s, t));
    if e.Schedule? || e.Sleep? || e.Exit? { NestOfSwitch(s, e, t); } else { NestOfCall(s, e, t); }
  }

  lemma NewTaskNest<T>(s: State<T>, e: Event<T>, t: T)
    requires Inv(s) && Enabled(s, e) && t !in s.tcb && t in Next(s, e).tcb
    ensures NestOf(Next(s, e), t) == -1
  {
    if e.Schedule? || e.Exit? || e.Sleep? { NewTaskHasNothing(s, e, t); }
  }

  ghost predicate Lives<T>(ss: seq<State<T>>, t: T, i: nat, j: nat) {
    i <= j < |ss| && forall k :: i <= k <= j ==> t in ss[k].tcb
  }

  /** By how much the Forbids of `t` between states `i` and `j` exceed its Permits. */
  ghost function Balance<T>(ss: seq<State<T>>, es: seq<Event<T>>, t: T, i: nat, j: nat): int
    requires i <= j <= |es| < |ss|
    decreases j
  {
    if i == j then 0 else Balance(ss, es, t, i, j - 1) + Change(ss[j - 1], es[j - 1], t)
  }

  lemma WrappedAgain(x: int, y: int)
    ensures Wrapped(Wrapped(x) + y) == Wrapped(x + y)
  {
  }

  lemma BalanceStep<T>(ss: seq<State<T>>, es: seq<Event<T>>, t: T, i: nat, j: nat)
    requires i <= j <= |es| < |ss| && Lives(ss, t, i, j)
    ensures t in ss[i].tcb && t in ss[j].tcb
    ensures i == j ==> Balance(ss, es, t, i, j) == 0
    ensures i < j ==> Lives(ss, t, i, j - 1) && t in ss[j - 1].tcb
    ensures i < j ==> Balance(ss, es, t, i, j) == Balance(ss, es, t, i, j - 1) + Change(ss[j - 1], es[j - 1], t)
  {
  }

  /** In every run, while a task lives its nest count is what it was and what its own Forbids and
      Permits have made of it since, in 8-bit arithmetic, however often it was switched away from. */
  lemma {:induction false} NestCountKept<T>(ss: seq<State<T>>, es: seq<Event<T>>, t: T, i: nat, j: nat)
    requires |ss| == |es| + 1 && i <= j <= |es| && IsRun(ss, es) && Lives(ss, t, i, j)
    ensures NestOf(ss[j], t) == Wrapped(NestOf(ss[i], t) + Balance(ss, es, t, i, j))
    decreases j
  {
    hide *;
    BalanceStep(ss, es, t, i, j);
    if i < j {
      var b, c := Balance(ss, es, t, i, j - 1), Change(ss[j - 1], es[j - 1], t);
      RunKeeps(ss, es, j - 1);
      NestCountKept(ss, es, t, i, j - 1);
      NestStep(ss[j - 1], es[j - 1], t);
      WrappedAgain(NestOf(ss[i], t) + b, c);
    } else {
      Wrap8IsWrapped(NestOf(ss[i], t));
    }
  }

  /** So a task that is switched away from resumes with the TDNestCnt that it had. */
  lemma ResumesWithItsCount<T>(ss: seq<State<T>>, es: seq<Event<T>>, t: T, i: nat, j: nat)
    requires |ss| == |es| + 1 && i < j <= |es| && IsRun(ss, es) && Lives(ss, t, i, j)
    requires ss[i].thisTask == Some(t) && !es[i].Forbid? && !es[i].Permit?
    requires (forall k :: i < k < j ==> ss[k].thisTask != Some(t)) && ss[j].thisTask == Some(t)
    ensures ss[j].tdNest == ss[i].tdNest
  {
    NestCountKept(ss, es, t, i, j);
    NoChange(ss, es, t, i, j);
    Wrap8IsWrapped(ss[i].tdNest);
  }

  lemma {:induction false} NoChange<T>(ss: seq<State<T>>, es: seq<Event<T>>, t: T, i: nat, j: nat)
    requires i <= j <= |es| < |ss| && (i < j ==> !es[i].Forbid? && !es[i].Permit?)
    requires forall k :: i < k < j ==> ss[k].thisTask != Some(t)
    ensures Balance(ss, es, t, i, j) == 0
    decreases j
  {
    if i < j { NoChange(ss, es, t, i, j - 1); }
  }

  // ----- a Wait that cannot switch

  /** WaitTask relies on its Schedule to switch away; here it returns to the task that is to sleep. */
  ghost predicate ComesBack<T>(s: State<T>, sigs: Mask) {
    Inv(s) && Running(s) && AfterSleep(s, sigs) == Parked(s, sigs)
  }

  lemma ComesBackIff<T>(s: State<T>, sigs: Mask)
    requires Inv(s) && Running(s)
    ensures ComesBack(s, sigs) <==> s.tdNest >= 0 || s.ready == []
  {
    var p := Parked(s, sigs);
    assert p.thisTask == None && (s.ready != [] ==> Launch(p).thisTask.Some?);
  }

  /** lib_Wait then finds no signal again and puts the task on TaskWait once more: the queue holds
      it twice. */
  lemma ParkedTwice<T>(s: State<T>, sigs: Mask)
    requires Inv(s) && Running(s)
    ensures var t, p := s.thisTask.value, Parked(s, sigs);
            p.wait != [] && p.wait[0] == t && !Placed(p.(wait := [t] + p.wait))
  {
    var t, p := s.thisTask.value, Parked(s, sigs);
    var w := [t] + p.wait;
    assert w[0] == w[1] == t;
  }

  /** A contended Obtain calls Forbid before it waits. */
  lemma ObtainComesBackIff<T>(s: State<T>, sigs: Mask)
    requires Inv(s) && Running(s)
    ensures ComesBack(Next(s, Event<T>.Forbid), sigs) <==> Wrap8(s.tdNest + 1) >= 0 || s.ready == []
    ensures Wrap8(s.tdNest + 1) >= 0 <==> -1 <= s.tdNest < 127
  {
    NextKeeps(s, Event<T>.Forbid);
    var f := Next(s, Event<T>.Forbid);
    assert f == s.(tdNest := Wrap8(s.tdNest + 1));
    hide Inv, ComesBack;
    ComesBackIff(f, sigs);
  }

  lemma NestSinceAdded<T>(ss: seq<State<T>>, es: seq<Event<T>>, t: T, i: nat, j: nat)
    requires |ss| == |es| + 1 && i < j <= |es| && IsRun(ss, es) && Lives(ss, t, i + 1, j) && t !in ss[i].tcb
    requires ss[j].thisTask == Some(t) && 0 <= Balance(ss, es, t, i + 1, j) <= 127
    ensures -1 <= ss[j].tdNest < 127
  {
    hide *;
    BalanceStep(ss, es, t, i + 1, j);
    RunKeeps(ss, es, i);
    NewTaskNest(ss[i], es[i], t);
    NestCountKept(ss, es, t, i + 1, j);
    WhileRunning(ss[j], t);
    AboveMinusOne(Balance(ss, es, t, i + 1, j));
  }

  lemma WhileRunning<T>(s: State<T>, t: T)
    requires t in s.tcb && s.thisTask == Some(t)
    ensures NestOf(s, t) == s.tdNest
  {
  }

  lemma AboveMinusOne(b: int)
    requires 0 <= b <= 127
    ensures Wrapped(-1 + b) == b - 1
  {
  }

  /** In every run: no contended Obtain can sleep in a task that has called Forbid as often as
      Permit since it was added, or up to 127 times more often. */
  lemma ObtainComesBack<T>(ss: seq<State<T>>, es: seq<Event<T>>, t: T, sigs: Mask, i: nat, j: nat)
    requires |ss| == |es| + 1 && i < j <= |es| && IsRun(ss, es) && Lives(ss, t, i + 1, j) && t !in ss[i].tcb
    requires ss[j].thisTask == Some(t) && Running(ss[j]) && 0 <= Balance(ss, es, t, i + 1, j) <= 127
    ensures Inv(ss[j]) && ComesBack(Next(ss[j], Event<T>.Forbid), sigs)
  {
    hide *;
    NestSinceAdded(ss, es, t, i, j);
    RunKeeps(ss, es, j);
    ObtainComesBackIff(ss[j], sigs);
  }

  /** An instance: a task with the nest count -1 of its start, another one ready. */
  lemma ObtainCanComeBack() returns (s: State<nat>)
    ensures TakingTurns(s, 1, 2) && ComesBack(Next(s, Event<nat>.Forbid), {4})
  {
    s := TurnsTaken();
    ObtainComesBackIff(s, {4});
  }
}
