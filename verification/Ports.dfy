/** Message ports: PutMsg, ReplyMsg and GetMsg on one port (messages.c), with the signals that
    tell its task about messages, on top of the kernel machine.

    The port is one that signals: it has a task, `mp_SigTask`, and its flags are PA_SIGNAL or
    PA_SOFTINT, which the code treats alike.  PutMsg, and ReplyMsg to a reply port, is two events:
    `Put` links the message in with interrupts disabled, and `Notify`, after interrupts have been
    enabled again, sends the signal.  Anything may happen in between. */
module Ports {
  import opened Options
  import opened Lists
  import T = TaskModel
  import TaskProofs

  type Kernel = T.State<nat>

  /** A message, by its address. */
  type Message = nat

  /** `task` and `bit` are mp_SigTask and mp_SigBit. */
  datatype Port = Port(task: nat, bit: T.SigNum)

  /** `puts` and `gets` are all messages put and got so far, `owed` the Signals that are still to
      come, and `seenEmpty` says that since it last took or cleared its bit the task has found the
      port empty. */
  datatype State = State(kernel: Kernel, queue: seq<Message>, puts: seq<Message>, gets: seq<Message>,
                         owed: nat, seenEmpty: bool)

  /** `Get` is GetMsg by the task of the port; on an empty port it stands for the test of WaitPort,
      too.  `Call` is any other kernel call, or a tick. */
  datatype Event = Call(c: T.Event<nat>) | Put(m: Message) | Notify | Get

  // ----- in place

  datatype NodeType = NT_MESSAGE | NT_REPLYMSG | NT_FREEMSG

  /** What follows the links of a message's node: its type, and which message it is. */
  datatype Body = Body(nodeType: NodeType, message: Message)

  function Messages(nodes: seq<Node<Body>>): (ms: seq<Message>)
    reads nodes
    ensures |ms| == |nodes| && forall i :: 0 <= i < |ms| ==> ms[i] == nodes[i].rest.message
  {
    seq(|nodes|, i requires 0 <= i < |nodes| reads nodes => nodes[i].rest.message)
  }

  /** mp_MsgList. */
  class MsgPort {
    const list: List<Body>

    ghost predicate Valid()
      reads list, list.Chain()
    {
      list.Valid()
    }

    constructor ()
      ensures Valid() && list.nodes == [] && fresh(list) && fresh(list.Chain())
    {
      list := new List(Body(NT_FREEMSG, 0));
    }

    /** The disabled region of PutMsg, and with NT_REPLYMSG that of ReplyMsg. */
    method Link(msg: Node<Body>, nodeType: NodeType)
      requires Valid() && msg !in list.Chain()
      modifies list`nodes, msg, list.Chain()`succ, list.Chain()`pred
      ensures Valid() && list.nodes == old(list.nodes) + [msg]
      ensures msg.rest == Body(nodeType, old(msg.rest.message))
      ensures Messages(list.nodes) == old(Messages(list.nodes)) + [msg.rest.message]
    {
      TailLinked(list);
      hide Linked;
      msg.rest := msg.rest.(nodeType := nodeType);
      list.AddTail(msg);
    }

    /** GetMsg. */
    method GetMsg() returns (msg: Node?<Body>)
      requires Valid()
      modifies list`nodes, list.Chain()`succ, list.Chain()`pred
      ensures Valid() && (msg == null <==> old(list.nodes) == [])
      ensures msg == null ==> list.nodes == []
      ensures msg != null ==>
                && old(Messages(list.nodes)) == [msg.rest.message] + Messages(list.nodes)
                && list.nodes == old(list.nodes)[1..] && msg == old(list.nodes)[0]
    {
      assert list.head == list.Chain()[0];
      assert list.nodes != [] ==> list.head.succ == list.nodes[0];
      hide Linked;
      msg := list.RemHead();
    }
  }

  // ----- the steps

  /** The task takes its bit from Wait, or clears it. */
  ghost predicate Taken(s: State, e: Event, p: Port) {
    && e.Call?
    && (TaskProofs.Returned(s.kernel, e.c, p.task, p.bit) || TaskProofs.Cleared(s.kernel, e.c, p.task, p.bit))
  }

  ghost predicate Enabled(s: State, e: Event, p: Port) {
    && T.Inv(s.kernel)
    && match e
       case Call(c) =>
         && T.Enabled(s.kernel, c)
         && (s.kernel.thisTask == Some(p.task) ==> !c.Exit? && (c.Sleep? && p.bit in c.sigs ==> s.seenEmpty))
       case Put(m) => m !in s.queue  // a message is on one list at a time
       case Notify => s.owed > 0 && p.task in s.kernel.tcb
       case Get => s.kernel.thisTask == Some(p.task)
  }

  ghost function Next(s: State, e: Event, p: Port): State
    requires Enabled(s, e, p)
  {
    match e
    case Call(c) => s.(kernel := T.Next(s.kernel, c), seenEmpty := s.seenEmpty && !Taken(s, e, p))
    case Put(m) => s.(queue := s.queue + [m], puts := s.puts + [m], owed := s.owed + 1)
    case Notify => s.(kernel := T.Next(s.kernel, T.Signal(p.task, {p.bit})), owed := s.owed - 1)
    case Get =>
      if s.queue == [] then s.(seenEmpty := true)
      else s.(queue := s.queue[1..], gets := s.gets + [s.queue[0]])
  }

  // ----- the invariant

  ghost predicate Pending(s: State, p: Port) { TaskProofs.Pending(s.kernel, p.task, p.bit) }

  /** Since the task has found the port empty, either nothing has come, or its bit is pending or
      about to be. */
  ghost predicate Alert(s: State, p: Port) {
    s.seenEmpty ==> s.queue == [] || s.owed > 0 || Pending(s, p)
  }

  /** The task of the port lives, and sleeps on its bit only after it has found the port empty. */
  ghost predicate Careful(s: State, p: Port) {
    && p.task in s.kernel.tcb && s.kernel.tcb[p.task].state != T.REMOVED
    && (s.kernel.tcb[p.task].state == T.WAIT && p.bit in s.kernel.tcb[p.task].sigWait ==> s.seenEmpty)
  }

  ghost predicate Inv(s: State, p: Port) {
    T.Inv(s.kernel) && s.puts == s.gets + s.queue && Alert(s, p) && Careful(s, p)
  }

  lemma CallKeeps(s: State, c: T.Event<nat>, p: Port)
    requires Inv(s, p) && Enabled(s, Call(c), p)
    ensures Inv(Next(s, Call(c), p), p)
  {
    TaskProofs.NextKeeps(s.kernel, c);
    TaskProofs.StaysAlive(s.kernel, c, p.task);
    TaskProofs.PendingStep(s.kernel, c, p.task, p.bit);
    NoneTakenAsleep(s, c, p);
    hide T.Inv, T.Enabled, T.Next, TaskProofs.Posted, TaskProofs.Returned, TaskProofs.Cleared;
  }

  /** Who sleeps takes no bit. */
  lemma NoneTakenAsleep(s: State, c: T.Event<nat>, p: Port)
    requires Inv(s, p) && Enabled(s, Call(c), p)
    ensures s.kernel.tcb[p.task].state == T.WAIT ==> !Taken(s, Call(c), p)
    ensures c.Sleep? ==> !Taken(s, Call(c), p)
  {
    hide T.Ordered, T.NoneLost, T.Switchable;
  }

  lemma NotifyKeeps(s: State, p: Port)
    requires Inv(s, p) && Enabled(s, Notify, p)
    ensures Inv(Next(s, Notify, p), p) && Pending(Next(s, Notify, p), p)
  {
    var c := T.Signal(p.task, {p.bit});
    TaskProofs.NextKeeps(s.kernel, c);
    TaskProofs.StaysAlive(s.kernel, c, p.task);
    TaskProofs.PendingStep(s.kernel, c, p.task, p.bit);
    assert TaskProofs.Posted(s.kernel, c, p.task, p.bit);
    hide T.Inv, T.Enabled, T.Next, TaskProofs.Posted, TaskProofs.Returned, TaskProofs.Cleared;
  }

  lemma NextKeeps(s: State, e: Event, p: Port)
    requires Inv(s, p) && Enabled(s, e, p)
    ensures Inv(Next(s, e, p), p)
  {
    match e
    case Call(c) => CallKeeps(s, c, p);
    case Notify => NotifyKeeps(s, p);
    case _ => hide T.Inv;
  }

  // ----- whole runs

  /** A run starts with a port that has just been made. */
  ghost predicate IsRun(ss: seq<State>, es: seq<Event>, p: Port) {
    && |ss| == |es| + 1
    && T.Inv(ss[0].kernel) && Careful(ss[0], p) && ss[0] == State(ss[0].kernel, [], [], [], 0, false)
    && (forall i {:trigger es[i]} :: 0 <= i < |es| && Inv(ss[i], p) ==>
          Enabled(ss[i], es[i], p) && ss[i + 1] == Next(ss[i], es[i], p))
  }

  lemma {:induction false} RunKeeps(ss: seq<State>, es: seq<Event>, p: Port, i: nat)
    requires IsRun(ss, es, p) && i < |ss|
    ensures Inv(ss[i], p)
    ensures i < |es| ==> Enabled(ss[i], es[i], p) && ss[i + 1] == Next(ss[i], es[i], p)
  {
    if i > 0 {
      RunKeeps(ss, es, p, i - 1);
      NextKeeps(ss[i - 1], es[i - 1], p);
    }
    assert i < |es| ==> es[i] == es[i];
  }

  /** Every message put is got once, in the order of the puts, or still waits in that order. */
  lemma OnceInOrder(ss: seq<State>, es: seq<Event>, p: Port, i: nat)
    requires IsRun(ss, es, p) && i < |ss|
    ensures ss[i].puts == ss[i].gets + ss[i].queue
  {
    RunKeeps(ss, es, p, i);
  }

  /** Nobody sleeps on a port with messages: if the task of the port waits for its bit, the port is
      empty, or a Signal is still to come. */
  lemma NoSleepOnMessages(ss: seq<State>, es: seq<Event>, p: Port, i: nat)
    requires IsRun(ss, es, p) && i < |ss|
    ensures var k := ss[i].kernel;
            && p.task in k.tcb
            && (k.tcb[p.task].state == T.WAIT && p.bit in k.tcb[p.task].sigWait ==>
                  ss[i].queue == [] || ss[i].owed > 0)
  {
    RunKeeps(ss, es, p, i);
    var r := ss[i].kernel.tcb[p.task];
    assert p.bit in r.sigRecvd && p.bit in r.sigWait ==> p.bit in r.sigRecvd * r.sigWait;
  }

  /** `e` is one of the events from `i` to `j` at which the bit is taken. */
  ghost predicate TakenBetween(ss: seq<State>, es: seq<Event>, p: Port, i: nat, j: nat)
    requires j <= |es| < |ss|
  {
    exists k :: i <= k < j && Taken(ss[k], es[k], p)
  }

  lemma NoticedStep(s: State, e: Event, p: Port)
    requires Inv(s, p) && Enabled(s, e, p)
    ensures var n := Next(s, e, p);
            && (e.Put? ==> n.owed > 0)
            && ((s.owed > 0 || Pending(s, p)) ==> n.owed > 0 || Pending(n, p) || Taken(s, e, p))
  {
    match e
    case Call(c) =>
      TaskProofs.StaysAlive(s.kernel, c, p.task);
      TaskProofs.PendingStep(s.kernel, c, p.task, p.bit);
      hide T.Inv, T.Enabled, T.Next;
    case Notify => NotifyKeeps(s, p);
    case _ =>
  }

  /** No message goes unnoticed: after every put its Signal is still to come, or the bit is pending,
      or the task has taken the bit since. */
  lemma {:induction false} Noticed(ss: seq<State>, es: seq<Event>, p: Port, i: nat, j: nat)
    requires IsRun(ss, es, p) && i < j <= |es| < |ss| && es[i].Put?
    ensures ss[j].owed > 0 || Pending(ss[j], p) || TakenBetween(ss, es, p, i, j)
    decreases j
  {
    RunKeeps(ss, es, p, j - 1);
    NoticedStep(ss[j - 1], es[j - 1], p);
    hide IsRun, Inv, Enabled, Next, Pending, Taken;
    if i + 1 < j {
      Noticed(ss, es, p, i, j - 1);
    }
  }
}
