# Verification of a small AmigaOS-style kernel

A Dafny model of five components of the kernel in `src/kickstart`, and proofs about them.

- **Lists, tasks, signals, semaphores** (lib.exec). `Lists` has the intrusive doubly linked
  lists at pointer level; the C header's overlapping sentinels are two sentinel nodes.
  `TaskModel` is the scheduler and the signal mechanism as a state machine, `Kernel` the same
  steps in place on linked nodes, `TaskProofs` what all runs keep. `SemaphoreModel`, `Semaphore`
  and `SemaphoreProofs` do this for signal semaphores with exclusive and shared holds;
  `SemaphoreTasks` puts semaphores and scheduler together, and `SemaphoreRun` is a run of the two;
  `NestCounts` is about TDNestCnt, `TaskLife` about the life of a task, `SignalAlloc` about AllocSignal
  and FreeSignal, `Ports` about message ports.
- **Memory allocator** (lib.exec). `Arena` is the free list as a sequence of chunks, `Memory` the
  ring of headers that lies in the memory it manages.
- **Arithmetic, printing, parsing** (lib.exec). `Divide` and `Div64` have the division routines,
  `Digits` the three ways of printing digits, `Format` the function `number`, `Parse` the strtoul
  family. `FieldShape` says what a field looks like, `Reading` what is read, `RoundTrip` what parses
  back.
- **Timer device** (dev.timer). `TimeVal.dfy` is the time arithmetic, `TimerModel`, `Timer` and
  `TimerProofs` the request queue, `TimerRuns` what becomes of a request.
- **Copying, filling, tag lists** (lib.exec, lib.util). `Memcpy` and `Memset` are the assembly
  routines on byte memory; `Tags` and `TagCycles` give tag lists their flat meaning.

Where the source works in place, a method works in place and is proved to take the step of a
specification function; the properties are lemmas about that function and about whole runs.
`dafny verify dfyconfig.toml` verifies everything.

## Assumptions

- Tasks: one event is one kernel call or one tick. `lib_Wait` is a test and a sleep in one event,
  or a collect and clear in one; SetSignal is one event. What happens when signals arrive inside
  these is stated separately, over runs (`WakeupLostIffSignalInWindow`, `StaleSetSignalIff`,
  `CollectWindowIff`). A task is the node it is queued by.
- In runs a task sleeps only while `TDNestCnt < 0` and TaskReady is not empty. An idle task that
  never waits gives the second; the first is often not so, see below (`ComesBackIff`,
  `ObtainComesBackIff`).
- Semaphores: `SemaphoreModel` lets a contended Obtain wait, as it is meant to. `SemaphoreTasks` has
  its kernel calls, in two versions: as written, with Forbid in force during the Wait, and with
  `suspends`, where the Wait suspends Forbid until it returns, as it is meant to. Only
  ReleaseSemaphore sends SIGF_SEMAPHORE, a task releases only what it holds, and fewer than 2^32 - 2
  requests are outstanding, since the counters have 32 bits.
- Ports: one port with a task that signals it; GetMsg is called by this task only, which does not
  end, and a message is on one list at a time.
- Allocator: one MemHeader, addresses and sizes in units of 8 bytes from `mh_Start` on. The initial
  chunk takes the area's size less one MemChunk, as the code computes it. Deallocate gets NULL or a
  live block.
- Numbers: `unsigned long` has 32 bits, `long long` 64. ADDCH stores unconditionally, as without
  CONFIG_SYS_VSNPRINTF; the buffer is large enough. Field width and precision are integers far
  enough from the limits of `int` that their difference does not overflow.
- Strings are sequences of characters that a NUL follows.
- asm_memcpy: the ranges do not overlap and memory is a whole number of words, since the misaligned
  loops read whole words. Registers are four bytes each; every shift is by whole bytes.
- Timer: all times that occur are below 2^31 seconds; requests have a reply port; AbortIO gets a
  request that was submitted, and its test and removal are one event, although it leaves interrupts
  enabled; ticks in between are the subject of `LateAbortRepliesTwice`, where Remove is still one
  event, and of `RemoveStale` and `AbortTorn`, where it is not. A resubmitted request is a new one.
- Tag lists: a pointer is an index into an array of items and 0 is null. AllocVec hands out
  memory that no list uses.

## What the code does not do

Each of these is proved with the exact condition under which the promise is kept, and with an
input or a run that breaks it.

- `__umodsi3` is wrong for 22 inputs, all with a divisor below 4 (`Umodsi3`, `AllOverCorrected`).
- Allocate's payload is smaller than promised for requests above 2^32 - 16 bytes
  (`PayloadSuffices`).
- The arena extends past `mh_Upper` by the size of the MemHeader, and blocks are cut from its high
  end: the first block never lies wholly inside the area given to AddMemList
  (`FirstBlockAboveUpper`, `LiveBelowUpper`).
- A waiter that has been handed a semaphore increments ss_NestCount a second time. Exclusion
  survives; but the semaphore is never handed over again (`HandsOverIff`, `FreeButWaitedFor`).
- A Wait under Forbid, or with no other task ready, does not sleep: Schedule returns to the task,
  which parks itself again, unless a signal has arrived, and destroys TaskWait (`ComesBackIff`,
  `WaitTwice`). This is so for every contended ObtainSemaphore of a task that has called Forbid as
  often as Permit, or up to 127 times more often (`ObtainComesBackIff`, `ObtainComesBack`,
  `ObtainCanComeBack`): it is the end of all progress (`StuckForEver`). If Wait suspended Forbid,
  semaphores would work with the scheduler as meant (`ResumedAfterHandOver`, `ForbidRestored`,
  `HandOverRun`).
- The Schedule at the end of a task returns under Forbid, and the ended task keeps the processor
  (`EndedUnderForbid`).
- A shared request overtakes a waiting exclusive one while shared holders leave ss_Owner NULL
  (`OvertakesIff`, `SharedOvertakes`).
- A signal between the test and the sleep of `lib_Wait` can be lost, by an interrupt or after a
  preemption (`WakeupLostIffSignalInWindow`, `WakeupLostByPreemption`); so can one between the read
  and the write of SetSignal, which reads before it disables interrupts (`StaleSetSignalIff`,
  `SignalsCanBeLost`, `SignalsCanGoUnseen`), and one between the last two statements of `lib_Wait`
  (`CollectWindowIff`).
- The timer queue is sorted latest first, against the comment at src/kickstart/dev.timer/io.c:31,
  and a tick replies to the first expired request in it. So n expired requests need not be
  drained by n ticks: later requests that expire meanwhile go first (`DrainIff`, `DrainCanFail`).
- A timer request that a tick serves inside its AbortIO is replied to twice
  (`LateAbortRepliesTwice`), and a tick that serves a neighbour of the request between the two
  assignments of its Remove leaves a damaged list (`AbortTorn`).
- A number printed with the prefix "0X" does not parse back, nor one with leading blanks or a
  plus sign (`HexRoundTrip`, `SignedRoundTrip`); with base 0, nor does a decimal number with zeros in
  front, which is taken for octal (`DecimalRoundTrip`).
- asm_memset stops early for 2^31 bytes and more that begin off a 32-byte boundary (`FillsAll`).

Two things differ from the C library, and the model follows the code: "0x" overrides an explicit
base (src/kickstart/lib.exec/vsprintf.c:204-209), and the `0` flag pads with zeros even when a
precision is given.

## Model

| member | source | states |
|---|---|---|
| Lists.List.constructor | src/kickstart/lib.exec/list.c:80-85 | a new list is well linked and empty |
| Lists.List.AddHead | src/kickstart/lib.exec/list.c:27-34 | on the linked nodes: the node comes to stand first, the list stays well linked, no other node is written |
| Lists.List.AddTail | src/kickstart/lib.exec/list.c:36-43 | the same at the end, the empty list included |
| Lists.List.Enqueue | src/kickstart/lib.exec/list.c:45-65 | the node is put in at the index of EnqueueIndex among the nodes, on empty lists and at both ends too; only the links of this chain and of the node are written |
| Lists.List.Insert | src/kickstart/lib.exec/list.c:67-76 | insertion behind a member, a sentinel or null is sequence insertion at the index that this stands for |
| Lists.List.LinkBehind | src/kickstart/lib.exec/list.c:72-75 | the four assignments of the middle case |
| Lists.List.LinkBefore | src/kickstart/lib.exec/list.c:60-63 | the four assignments at the end of Enqueue |
| Lists.List.RemHead | src/kickstart/lib.exec/list.c:123-145 | returns and removes the first node; null exactly on the empty list |
| Lists.List.RemTail | src/kickstart/lib.exec/list.c:110-121 | returns and removes the last node, with its links cleared; null exactly on the empty list |
| Lists.Remove | src/kickstart/lib.exec/list.c:96-100 | given the node alone, the list it is on loses exactly this node |
| Lists.RemoveStale | src/kickstart/lib.exec/list.c:96-100 | a second Remove of a node that has left the list leaves the list intact if and only if its old neighbours, as far as they are on the list, are neighbours still |
| Lists.RemoveInterrupted | src/kickstart/lib.exec/list.c:96-100 | a Remove of another node between the two assignments leaves the chain without the two if and only if they were not neighbours; a successor comes back, a predecessor is still pointed to |
| Lists.TwoRemoves | src/kickstart/lib.exec/list.c:96-100 | the four assignments of two such Removes, interleaved: all links but those around the two nodes are as before, and unless these are neighbours both are bypassed |
| Lists.List.Undisturbed | src/kickstart/lib.exec/list.c:96-100 | a list whose own nodes were not written stays the list it was |
| Lists.EnqueueIsStable | src/kickstart/lib.exec/list.c:55-59 | the index Enqueue finds is the only one that keeps non-increasing priority order and puts the node behind all of equal priority |
| Lists.InsertedKeepsOrder | src/kickstart/lib.exec/list.c:55-63 | an insertion keeps the priority order if and only if both neighbours agree |
| Lists.SharedNodeSameChain | src/kickstart/lib.exec/list.c:96-100 | two well-linked chains with one node in common are the same chain, which is why Remove need not be told the list |
| Lists.List.LinkFirst | src/kickstart/lib.exec/list.c:27-34 | the four assignments, for any node |
| Lists.List.AddHeadAgain | src/kickstart/lib.exec/list.c:27-34 | given the node that is the first already, the assignments tie it to itself, in both directions |
| Lists.TiedToItself | src/kickstart/lib.exec/list.c:27-34 | after such an AddHead no well-linked chain begins with the head of the list |
| TaskProofs.NextKeeps | src/kickstart/lib.exec/schedule.c:72-107 | every kernel call and tick keeps: each live task in exactly one of running, TaskReady, TaskWait as its State says; TaskReady in priority order; no task asleep on a signal it has received; every task that is not running was switched away from while switching was allowed |
| TaskProofs.RunKeeps | src/kickstart/lib.exec/messages.c:116-168 | the same in every state of every run of AddTask, Schedule, Wait, Signal, signal calls, Forbid, Permit and task exit |
| TaskProofs.PendingStep | src/kickstart/lib.exec/messages.c:133-173 | one event changes a pending signal bit of a task exactly by posting, returning or the task's own clearing; SetSignal and the end of Wait count as one event each |
| TaskProofs.StaysAlive | src/kickstart/lib.exec/messages.c:116-173 | no kernel call ends or removes another task, and a task falls asleep only by its own Wait |
| TaskLife.LivingStep | src/kickstart/lib.exec/schedule.c:78-91 | no call creates a task but AddTask, and a dispatch destroys the task that ran if and only if it has ended, and no other |
| TaskLife.AsleepStep | src/kickstart/lib.exec/messages.c:151-168 | a task falls asleep only by its own Wait, and wakes if and only if somebody signals it, whatever it waits for; no call changes a priority |
| TaskLife.RunningStep | src/kickstart/lib.exec/schedule.c:103-124 | only a Schedule, Wait or task exit that dispatches gives the processor to another task, to one of maximal priority among the ready ones; otherwise the running task stays, and so does TDNestCnt but for Forbid and Permit |
| TaskLife.EndedTaskGoes | src/kickstart/lib.exec/tasks.c:33-46 | in every run, a task whose function has returned stays the running task until the first event that dispatches, and from then on it is on neither queue, not running and without a record, until somebody adds it again |
| TaskLife.GoneUntilAdded | src/kickstart/lib.exec/schedule.c:83-85 | a task that is gone stays gone until an AddTask of it |
| TaskLife.GoesOnlyByExit | src/kickstart/lib.exec/schedule.c:78-91 | in every run, a task that is gone has ended by itself |
| TaskLife.EndedUnderForbid | src/kickstart/lib.exec/tasks.c:43-45 | the Schedule behind the end of a task returns under Forbid, against the comment, and the ended task keeps the processor unless an interrupt changes TDNestCnt |
| TaskLife.EndsAndGoes | src/kickstart/lib.exec/tasks.c:43-44 | a state in which a task ends and is gone, and the other one runs |
| TaskLife.PriorityKept | src/kickstart/lib.exec/tasks.c:63-63 | in every run, a task has the priority that it was added with as long as it lives |
| SignalAlloc.SearchIsRight | src/kickstart/lib.exec/tasks.c:105-118 | AllocSignal returns the highest free signal not above the one asked for, or not above 31 for an argument outside 0..31, and -1 if and only if there is none |
| SignalAlloc.AllocFailsIff | src/kickstart/lib.exec/tasks.c:105-118 | for an argument outside 0..31 it fails if and only if all 32 signals are allocated; a free signal that is asked for is returned |
| SignalAlloc.AllocatedStep | src/kickstart/lib.exec/tasks.c:119-138 | a signal becomes allocated only by the AllocSignal that returns it, and was free before; it becomes free only by a FreeSignal of this signal |
| SignalAlloc.GrantedClean | src/kickstart/lib.exec/tasks.c:119-125 | a signal that is handed out is allocated, neither pending nor waited for, and no exception; the task's other signals are as before |
| SignalAlloc.AllocatedUntilFreed | src/kickstart/lib.exec/tasks.c:95-138 | in every run, an allocated signal stays allocated until its task frees it or is gone |
| SignalAlloc.GrantedOnce | src/kickstart/lib.exec/tasks.c:95-138 | in every run, between two AllocSignals of a task that return the same signal, the task has freed it, or it is gone and was added anew |
| SignalAlloc.FreeUntilGranted | src/kickstart/lib.exec/tasks.c:130-138 | in every run, a signal that was freed is free until an AllocSignal returns it again |
| SignalAlloc.FreedIsAvailable | src/kickstart/lib.exec/tasks.c:95-138 | and until then an AllocSignal that asks for it gets it |
| TaskProofs.SignalAccounted | src/kickstart/lib.exec/messages.c:133-173 | over whole runs of such events a delivered bit stays pending until Wait returns it, its task clears it, or the task ends; what can happen inside SetSignal and Wait is the subject of the rows StaleSetSignalIff and CollectWindowIff |
| TaskProofs.ReturnedAtMostOnce | src/kickstart/lib.exec/messages.c:146-148 | between two Waits that return the same bit it was posted again |
| TaskProofs.NotPendingUntilPosted | src/kickstart/lib.exec/messages.c:82-93 | a bit that is not pending stays so until somebody posts it |
| TaskProofs.SleepLosesPending | src/kickstart/lib.exec/messages.c:116-131 | going to sleep, whether or not it switches to another task, keeps the no-lost-wakeup property if and only if no awaited bit is pending |
| TaskProofs.WakeupLostIffSignalInWindow | src/kickstart/lib.exec/messages.c:139-147 | as written, the test lies outside the disabled region: in every run in which the task is possibly preempted and signalled by tasks and interrupts between its test and its sleep, the sleep loses a wakeup if and only if an awaited signal arrives in between |
| TaskProofs.WakeupLostIffInterrupted | src/kickstart/lib.exec/messages.c:139-147 | the special case of interrupts that signal the task and do not take the processor from it |
| TaskProofs.WakeupLostByPreemption | src/kickstart/lib.exec/messages.c:139-147 | a run of a tick, a Signal by another task and a tick after which the task falls asleep with the signal pending |
| TaskProofs.WakeupCanBeLost | src/kickstart/lib.exec/messages.c:139-147 | a concrete state in which that happens |
| TaskProofs.StaleSetSignalIff | src/kickstart/lib.exec/messages.c:82-93 | SetSignal reads SigRecvd before it disables interrupts: in every run, the value that it stores is right if and only if every signal outside signalSet that arrives in between was pending already, and the value that it returns, and with it the stored one, if and only if every signal at all that arrives in between was |
| TaskProofs.CollectWindowIff | src/kickstart/lib.exec/messages.c:146-147 | Wait returns exactly the bits that it clears if and only if every awaited signal that arrives between the two statements was pending already |
| TaskProofs.SignalsCanBeLost | src/kickstart/lib.exec/messages.c:82-93 | a run in which SetSignal erases a signal it should keep, and Wait one that it does not return |
| TaskProofs.SignalsCanGoUnseen | src/kickstart/lib.exec/messages.c:82-93 | a run in which a signal that SetSignal is to test and clear is neither pending afterwards nor returned |
| TaskProofs.DispatchPicksMaximal | src/kickstart/lib.exec/schedule.c:72-107 | a dispatch runs a task of maximal priority among the ready ones and the one that ran, and no third one |
| TaskProofs.RotationStep | src/kickstart/lib.exec/schedule.c:78-104 | a dispatch moves the running task behind the ready ones of its priority and runs the first of them |
| TaskProofs.RoundRobinRun | src/kickstart/lib.exec/schedule.c:78-104 | in every run in which no task is woken, added, put to sleep or ended, whatever else happens: after c dispatches the running task and the ready ones of its priority are the original ring turned by c, the lower ones untouched, and the running task is number c modulo the size of the ring |
| TaskProofs.EachRunsInTurn | src/kickstart/lib.exec/schedule.c:78-104 | in such a run the j-th task of the ring is running at some point by the j-th dispatch |
| TaskProofs.RoundRobin | src/kickstart/lib.exec/schedule.c:78-104 | the special case of a run of dispatches only: the j-th one runs the j-th task, and after as many as there are such tasks everything is as before |
| NestCounts.NestStep | src/kickstart/lib.exec/schedule.c:16-51 | only its own Forbid and Permit change the nest count of a task, TDNestCnt while it runs and the saved copy otherwise |
| NestCounts.NestCountKept | src/kickstart/lib.exec/schedule.c:16-51 | in every run, while a task lives its nest count is what it was plus its own Forbids minus its own Permits, in 8-bit arithmetic, whoever ran in between |
| NestCounts.ResumesWithItsCount | src/kickstart/lib.exec/messages.c:123-123 | so a task resumes with the TDNestCnt that it was switched away with |
| NestCounts.NewTaskNest | src/kickstart/lib.exec/tasks.c:80-80 | a new task starts with nest count -1 |
| NestCounts.ComesBackIff | src/kickstart/lib.exec/messages.c:116-131 | the Schedule in WaitTask returns to the task that is to sleep if and only if TDNestCnt is not negative or no task is ready |
| NestCounts.ParkedTwice | src/kickstart/lib.exec/messages.c:139-145 | the loop in lib_Wait then puts the task on TaskWait once more, and the queue holds it twice |
| NestCounts.ObtainComesBackIff | src/kickstart/lib.exec/semaphores.c:41-61 | a contended ObtainSemaphore, which calls Forbid before Wait, cannot sleep if and only if TDNestCnt was -1 to 126 before or no task is ready |
| NestCounts.ObtainComesBack | src/kickstart/lib.exec/semaphores.c:41-61 | in every run, no contended ObtainSemaphore can sleep in a task that has called Forbid as often as Permit since it was added, or up to 127 times more often |
| NestCounts.ObtainCanComeBack | src/kickstart/lib.exec/semaphores.c:41-61 | a state with a second ready task in which it cannot |
| Kernel.SysBase.constructor | src/kickstart/lib.exec/_functab.c:232-232 | two empty queues, no task, and dispatching forbidden by a nest count of 0 |
| Kernel.SysBase.AddTask | src/kickstart/lib.exec/tasks.c:67-93 | on the linked nodes, takes the AddTask step of the state machine and keeps the invariant |
| Kernel.SysBase.Dispatch | src/kickstart/lib.exec/schedule.c:72-107 | takes the dispatch step in place |
| Kernel.SysBase.Schedule | src/kickstart/lib.exec/schedule.c:109-129 | takes the Schedule step in place; nothing changes under Forbid or without a ready task, and then nothing is demanded of the state but well-linked queues |
| Kernel.SysBase.RetireThisTask | src/kickstart/lib.exec/schedule.c:78-100 | the running task goes back to TaskReady, or is destroyed: it loses its record if and only if it has ended, and no other task does |
| Kernel.SysBase.LaunchHead | src/kickstart/lib.exec/schedule.c:101-104 | the head of TaskReady becomes the running task |
| Kernel.SysBase.MakeTaskReady | src/kickstart/lib.exec/schedule.c:16-26 | state, saved nest count and place in the queue |
| Kernel.SysBase.MakeTaskRun | src/kickstart/lib.exec/schedule.c:39-51 | state and restored nest count, through the 8-bit conversions of the code |
| Kernel.SysBase.TaskExit | src/kickstart/lib.exec/tasks.c:33-46 | takes the Exit step: afterwards the task is gone, or, if Schedule did not switch, still the running task, ended |
| Kernel.SysBase.WaitTask | src/kickstart/lib.exec/messages.c:116-131 | with a ready task and TDNestCnt below 0 takes the Sleep step in place; otherwise comes back with the running task parked on TaskWait |
| Kernel.SysBase.WaitTwice | src/kickstart/lib.exec/messages.c:139-145 | if it comes back, the second pass of the loop in lib_Wait ties the task's node to itself, and TaskWait is no list any more |
| Kernel.SysBase.CollectSignals | src/kickstart/lib.exec/messages.c:146-148 | returns the awaited pending bits, at least one, and clears exactly these |
| Kernel.SysBase.SignalTask | src/kickstart/lib.exec/messages.c:151-173 | takes the Signal step in place: a waiting task leaves TaskWait, by its node alone, for its place in TaskReady |
| Kernel.SysBase.SetSignals | src/kickstart/lib.exec/messages.c:82-93 | when nothing comes between its two accesses to SigRecvd: takes the SetSignal step and returns the old bits |
| Kernel.SysBase.StoreSignals | src/kickstart/lib.exec/messages.c:89-91 | the disabled region, for any value read before it: stores what StaleSetSignalIff is about, and keeps the invariant |
| Kernel.SysBase.AllocateSignal | src/kickstart/lib.exec/tasks.c:95-128 | the descending loop finds the signal that SearchIsRight describes, and this signal is allocated afterwards |
| Kernel.SysBase.FreeSignals | src/kickstart/lib.exec/tasks.c:130-138 | takes the FreeSignal step |
| Kernel.SysBase.Forbid | src/kickstart/lib.exec/ables.c:45-51 | takes the Forbid step, in 8-bit arithmetic, before any task runs too |
| Kernel.SysBase.Permit | src/kickstart/lib.exec/ables.c:37-43 | takes the Permit step, in 8-bit arithmetic, before any task runs too |
| Ports.NextKeeps | src/kickstart/lib.exec/messages.c:11-80 | a message port on top of the kernel: after every put, Signal, get and kernel call, interrupts between PutMsg's AddTail and its Signal included, the messages are in order, and once its task has found the port empty, it stays so, or the bit is pending or about to be, until the task takes the bit |
| Ports.OnceInOrder | src/kickstart/lib.exec/messages.c:11-36 | in every run every message put has been got once, in the order of the puts, or waits in that order |
| Ports.Noticed | src/kickstart/lib.exec/messages.c:20-44 | in every run, after every put its Signal is still to come, or the bit of the port is pending, or its task has taken the bit since |
| Ports.NoSleepOnMessages | src/kickstart/lib.exec/ports.c:29-36 | in every run, a task that waits for the bit only when it has found the port empty since it last took it, as in WaitPort, sleeps only if the port is empty or a Signal is still to come |
| Ports.MsgPort.constructor | src/kickstart/lib.exec/ports.c:54-54 | an empty list |
| Ports.MsgPort.Link | src/kickstart/lib.exec/messages.c:24-26 | on the linked nodes, the message comes to stand last, with its new type |
| Ports.MsgPort.GetMsg | src/kickstart/lib.exec/messages.c:11-19 | on the linked nodes, the first message leaves; null exactly on an empty port |
| SemaphoreProofs.NextKeeps | src/kickstart/lib.exec/semaphores.c:37-186 | every semaphore call by any task keeps the counters, the owner and the queue consistent, with two increments of ss_NestCount per hand-off or with one |
| SemaphoreProofs.RunKeeps | src/kickstart/lib.exec/semaphores.c:37-186 | the same over all runs from InitSemaphore |
| SemaphoreProofs.Exclusion | src/kickstart/lib.exec/semaphores.c:37-125 | in every run, if a task holds the semaphore exclusively, no other task holds it in any mode; for the code as written and for the single increment |
| SemaphoreProofs.QueueCountExact | src/kickstart/lib.exec/semaphores.c:42-65 | ss_QueueCount + 1 is the number of holds, handed-over and waiting requests; when ss_NestCount drops to zero the wait queue is empty exactly if ss_QueueCount has come to -1, so the unsigned comparison decides nothing |
| SemaphoreProofs.FirstInFirstOut | src/kickstart/lib.exec/semaphores.c:106-113 | hand-offs happen in the order of the requests that had to queue, and who is not yet served is in the queue |
| SemaphoreProofs.GrantedIff | src/kickstart/lib.exec/semaphores.c:37-186 | in every run: a request is granted at once if and only if nothing is outstanding, the caller is the owner, or it is shared and ss_Owner is NULL; the caller then has one hold more, otherwise an Obtain waits and an Attempt changes nothing |
| SemaphoreProofs.SharersNeverWait | src/kickstart/lib.exec/semaphores.c:127-186 | in every run without requests for exclusive holds nobody waits |
| SemaphoreProofs.TypeSays | src/kickstart/lib.exec/semaphores.c:37-186 | in every run, while there are holds the type says whether they are shared, ss_Owner being NULL |
| SemaphoreProofs.OvertakesIff | src/kickstart/lib.exec/semaphores.c:44-53 | in every run, while somebody waits: an Obtain does not have to if and only if the caller is the owner, or it is shared and ss_Owner is NULL |
| SemaphoreProofs.SharedOvertakes | src/kickstart/lib.exec/semaphores.c:138-141 | a run in which a later shared request is granted while an exclusive one waits |
| SemaphoreProofs.NobodyWaitsForAFreeSemaphore | src/kickstart/lib.exec/semaphores.c:97-125 | with a single increment a non-empty wait queue implies a holder or a hand-off under way |
| SemaphoreProofs.HandsOverIff | src/kickstart/lib.exec/semaphores.c:104-113 | exactly when a release hands over: last hold, somebody waits, and, as written, no hand-off was completed before |
| SemaphoreProofs.AtMostOneHandOff | src/kickstart/lib.exec/semaphores.c:108-113 | as written, a semaphore is handed over at most once |
| SemaphoreProofs.WaitersStuckAfterResume | src/kickstart/lib.exec/semaphores.c:61-65 | as written, from the first resumed waiter on, whoever queues is never granted the semaphore |
| SemaphoreProofs.FreeButWaitedFor | src/kickstart/lib.exec/semaphores.c:61-125 | a concrete run of the code as written that ends with a free semaphore and a waiting task |
| Semaphore.WaitQueue.AddRequest | src/kickstart/lib.exec/semaphores.c:54-60 | on the linked request nodes, a new request comes to stand last |
| Semaphore.WaitQueue.RemHead | src/kickstart/lib.exec/semaphores.c:110-112 | the first request leaves, and its task is returned |
| Semaphore.SignalSemaphore.constructor | src/kickstart/lib.exec/semaphores.c:7-14 | the initial state of the state machine |
| Semaphore.SignalSemaphore.GrabExclusive | src/kickstart/lib.exec/semaphores.c:43-52 | the increment of ss_QueueCount and the two uncontended branches that ObtainSemaphore and AttemptSemaphore have in common |
| Semaphore.SignalSemaphore.GrabShared | src/kickstart/lib.exec/semaphores.c:133-142 | the same for the shared calls |
| Semaphore.SignalSemaphore.ObtainSemaphore | src/kickstart/lib.exec/semaphores.c:37-61 | takes the Obtain step in place; the caller has to wait exactly if it has joined the blocked ones |
| Semaphore.SignalSemaphore.ResumeExclusive | src/kickstart/lib.exec/semaphores.c:61-67 | takes the Resume step of an exclusive request, second increment included |
| Semaphore.SignalSemaphore.ObtainSemaphoreShared | src/kickstart/lib.exec/semaphores.c:127-151 | takes the shared Obtain step in place, with the same report |
| Semaphore.SignalSemaphore.ResumeShared | src/kickstart/lib.exec/semaphores.c:151-158 | takes the Resume step of a shared request |
| Semaphore.SignalSemaphore.AttemptSemaphore | src/kickstart/lib.exec/semaphores.c:70-95 | takes the Attempt step; a refusal leaves everything as it was |
| Semaphore.SignalSemaphore.AttemptSemaphoreShared | src/kickstart/lib.exec/semaphores.c:161-186 | the same for shared requests |
| Semaphore.SignalSemaphore.ReleaseSemaphore | src/kickstart/lib.exec/semaphores.c:97-125 | takes the Release step in place |
| SemaphoreTasks.NextKeeps | src/kickstart/lib.exec/semaphores.c:41-61 | semaphore and scheduler together, as written and with a Wait that suspends Forbid: after every event, semaphore call or kernel call of any task, a task inside a contended Obtain has SIGF_SEMAPHORE pending exactly if it has been handed the semaphore, and if asleep it sleeps on that signal |
| SemaphoreTasks.RunKeeps | src/kickstart/lib.exec/semaphores.c:37-158 | the same in every state of every run, for both; as written these runs are as short as StuckForEver says |
| SemaphoreTasks.ObtainSleepsIff | src/kickstart/lib.exec/semaphores.c:41-61 | behind a contended Obtain its caller can sleep if and only if another task is ready and, as written, TDNestCnt is negative in spite of the Forbid |
| SemaphoreTasks.BracketCancels | src/kickstart/lib.exec/semaphores.c:41-66 | where nobody waits in between, Forbid and Permit leave the kernel as it was |
| SemaphoreTasks.SignalCommutes | src/kickstart/lib.exec/semaphores.c:99-124 | the Signal of a release does the same under any nest count |
| SemaphoreTasks.ReturnsIffHandedOver | src/kickstart/lib.exec/semaphores.c:61-61 | the Wait of a contended Obtain returns if and only if its task has been handed the semaphore, which is when SemaphoreModel lets it resume; a task woken by another signal finds the bit clear |
| SemaphoreTasks.HandOverWakes | src/kickstart/lib.exec/semaphores.c:110-113 | for both: a hand-over makes its bit pending in the first waiter and, if that was asleep, puts it on TaskReady |
| SemaphoreTasks.ResumedAfterHandOver | src/kickstart/lib.exec/semaphores.c:54-64 | in every run, for both: between the contended Obtain of a task and the return of its Wait some ReleaseSemaphore has handed the semaphore to this very task, whatever other signals it received; with suspends this is about every waiter, as written only about those that StuckForEver leaves out |
| SemaphoreTasks.ForbidRestored | src/kickstart/lib.exec/semaphores.c:41-66 | with a Wait that suspends Forbid: when a contended Obtain is done, TDNestCnt is what it was before, whoever has run in between and however deep it was |
| SemaphoreRun.HandOverRun | src/kickstart/lib.exec/semaphores.c:37-125 | with a Wait that suspends Forbid: a run of seven events from an ordinary state, in which a task asks for a held semaphore, sleeps, is woken by its release and holds it |
| SemaphoreTasks.StuckForEver | src/kickstart/lib.exec/semaphores.c:41-61 | as written, in every run: after a contended Obtain with TDNestCnt from -1 to 126, that of every task that has called Forbid as often as Permit, its caller runs for ever after and is never handed the semaphore, which never changes again; nothing follows but signals, new tasks and ticks that do not switch |
| SemaphoreTasks.AsWritten | src/kickstart/lib.exec/ables.c:37-51 | as written, the nest count at the Wait and behind it is what Forbid and Permit make it |
| Arena.Canonical | src/kickstart/lib.exec/memory.c:119-131 | a coalesced free list is determined by the set of free units |
| Arena.LiveDeterminesFree | src/kickstart/lib.exec/memory.c:119-131 | two states of the arena with the same live blocks have the same free list |
| Arena.AllFreed | src/kickstart/lib.exec/memory.c:95-133 | without live blocks the free list is the single initial chunk, with the initial amount |
| Arena.AllocateKeeps | src/kickstart/lib.exec/memory.c:69-82 | carving a block keeps chunks in address order and apart from each other, and the tiling by free chunks and live blocks exact |
| Arena.CarvedSum | src/kickstart/lib.exec/memory.c:69-80 | and takes its size from the sum of the free sizes |
| Arena.AllocatesHighEnd | src/kickstart/lib.exec/memory.c:65-82 | a block is the high end of the lowest chunk that has enough units; without such a chunk nothing changes |
| Arena.DeallocateKeeps | src/kickstart/lib.exec/memory.c:104-131 | freeing any live block does too, and makes exactly its units free |
| Arena.FreeUndoesAllocate | src/kickstart/lib.exec/memory.c:48-133 | freeing a block just allocated restores the free list chunk by chunk |
| Arena.RunKeeps | src/kickstart/lib.exec/memory.c:48-133 | the tiling and the coalesced order hold in every state of every run |
| Arena.HistoryIsForgotten | src/kickstart/lib.exec/memory.c:95-133 | after any interleaving the free list depends on the live blocks only; when all are freed it is the initial chunk |
| Memory.PayloadSuffices | src/kickstart/lib.exec/memory.c:53-55 | the payload is at least nbytes + 8 if and only if nbytes <= 2^32 - 16, beyond which the unit arithmetic wraps |
| Memory.UnitsLeast | src/kickstart/lib.exec/memory.c:53-55 | up to there it is the least number of units with room for the header and nbytes + 8 bytes |
| Memory.UnitsWrapped | src/kickstart/lib.exec/memory.c:53-55 | beyond, the block is one or two units |
| Memory.PayloadCanBeMissing | src/kickstart/lib.exec/memory.c:54-55 | a concrete request whose block has no payload |
| Arena.BlockBelowUpper | src/kickstart/lib.exec/memory.c:22-34 | a block, whatever its size, lies below mh_Upper if and only if the chunk it is cut from ends five units, the size of the MemHeader, before the end of the arena |
| Arena.FirstBlockAboveUpper | src/kickstart/lib.exec/memory.c:22-34 | the first block of a new arena ends above mh_Upper |
| Arena.LiveBelowUpper | src/kickstart/lib.exec/memory.c:22-34 | in every state of every run, all live blocks lie below mh_Upper if and only if the last five units of the arena are free |
| Memory.MemHeader.constructor | src/kickstart/lib.exec/memory.c:22-35 | the initial ring: the dummy chunk and one free chunk |
| Memory.MemHeader.Allocate | src/kickstart/lib.exec/memory.c:48-93 | terminates; takes the first-fit step on the headers in memory; returns NULL exactly if nbytes is 0 or no free chunk has enough units, that is, for requests up to 2^32 - 16 bytes, room for a header and nbytes + 8 bytes; the block is new |
| Memory.MemHeader.AllocateUnits | src/kickstart/lib.exec/memory.c:63-92 | the same for a number of units: the search and the two ways of taking the block |
| Memory.MemHeader.TakeWhole | src/kickstart/lib.exec/memory.c:70-73 | an exact fit leaves the ring |
| Memory.MemHeader.TakeTail | src/kickstart/lib.exec/memory.c:75-78 | otherwise the block is the high end of the chunk |
| Memory.MemHeader.Deallocate | src/kickstart/lib.exec/memory.c:95-133 | terminates; takes the Deallocate step on the headers in memory for any live block, and nothing for NULL |
| Memory.MemHeader.LinkBlock | src/kickstart/lib.exec/memory.c:115-116 | the block's header is linked into the ring in address order |
| Memory.MemHeader.Merge | src/kickstart/lib.exec/memory.c:122-131 | a chunk swallows its successor exactly if that begins where it ends |
| Memory.MemHeader.Relink | src/kickstart/lib.exec/memory.c:115-131 | linking and both merges turn the ring into that of the freed list |
| Memory.MemHeader.UserWrite | src/kickstart/lib.exec/memory.c:82-82 | whatever a user writes behind the header of a live block leaves the allocator's state intact |
| Divide.Normalise | src/kickstart/lib.exec/_udivsi3.s:26-43 | the shifted divisor is d times the bit in curbit without overflow, and reaches the dividend or its top bit |
| Divide.Udivsi3 | src/kickstart/lib.exec/_udivsi3.s:18-67 | the quotient is n / d for all n and d > 0, although the last pass may subtract too often |
| Divide.Uidivmod | src/kickstart/lib.exec/_udivsi3.s:75-83 | the wrapping multiplication and subtraction give the matching remainder |
| Divide.Umodsi3 | src/kickstart/lib.exec/_umodsi3.s:17-76 | the result is n mod d if and only if the input is not one of the over-corrected ones, and always for d >= 4 |
| Divide.AllOverCorrected | src/kickstart/lib.exec/_umodsi3.s:62-76 | the over-corrected inputs one by one: 12 dividends for divisor 1, seven for 2 and three for 3, in all 22 |
| Divide.OverCorrectionHappens | src/kickstart/lib.exec/_umodsi3.s:62-76 | an over-corrected input |
| Div64.ReduceHigh | src/kickstart/lib.exec/div64.c:10-16 | dividing the high word first keeps n = res * base + rem, and high * base does not overflow 32 bits |
| Div64.Div64By32 | src/kickstart/lib.exec/div64.c:3-34 | n / base and n mod base for every 64-bit n and 32-bit base > 0; no intermediate value overflows 64 bits |
| Div64.DoDiv | src/kickstart/lib.exec/vsprintf.c:103-113 | the 32-bit fast path agrees with it |
| Digits.DigitsAreExact | src/kickstart/lib.exec/vsprintf.c:331-418 | the digits of a number determine the number |
| Digits.LeadingDigit | src/kickstart/lib.exec/vsprintf.c:331-418 | a positive number's leading digit is not zero |
| Digits.MagicTenths | src/kickstart/lib.exec/vsprintf.c:339-359 | the multiply-and-shift steps are exact division by ten on the ranges they are used on |
| Digits.NibbleDigits | src/kickstart/lib.exec/vsprintf.c:331-365 | the sums over hexadecimal digits give the five decimal digits one by one, and the tests of put_dec_trunc stop exactly behind the leading one |
| Digits.PutDecTrunc | src/kickstart/lib.exec/vsprintf.c:331-365 | writes the reversed decimal digits of a number below 100000, no superfluous zero, and nothing else |
| Digits.PutDecFull | src/kickstart/lib.exec/vsprintf.c:367-407 | writes its five lowest decimal digits |
| Digits.PutDec | src/kickstart/lib.exec/vsprintf.c:409-418 | writes exactly the reversed decimal digits of every 64-bit number |
| Digits.SimpleItoa | src/kickstart/lib.exec/vsprintf.c:964-976 | the string that starts at the returned index is the decimal notation of i and fits the buffer |
| Digits.RawDoFmtNumber | src/kickstart/lib.exec/rawdoformat.c:5-19 | the characters sent are the digits of ul in the base, most significant first, in lower case; no store outside the buffer, for every base and number whose digits fit it |
| Digits.DigitCase | src/kickstart/lib.exec/vsprintf.c:446-456 | with SMALL the letters among the digits are in lower case, without it in upper case |
| Digits.RawBufferSuffices | src/kickstart/lib.exec/rawdoformat.c:7-8 | 11 characters hold every 32-bit number if and only if the base is at least 8 |
| Digits.ThreeWays | src/kickstart/lib.exec/vsprintf.c:409-418 | put_dec, simple_itoa and RawDoFmt print the same text of 1 to 10 digits, with no leading zero for a positive number |
| Format.FieldLength | src/kickstart/lib.exec/vsprintf.c:442-535 | the text is exactly max(width, sign + prefix + max(digits, precision)) characters long for all flags |
| FieldShape.SignIff | src/kickstart/lib.exec/vsprintf.c:459-509 | behind the leading blanks that the flags ask for, the first character is a minus if and only if the number is signed and negative, a plus if and only if it is signed, not negative and PLUS is set, a blank if and only if it is signed, not negative and SPACE is set without PLUS; otherwise it is a digit |
| FieldShape.PrefixAndDigits | src/kickstart/lib.exec/vsprintf.c:510-535 | behind the sign come the prefix 0x, 0X or 0, then as many digits of the base as precision and zero padding ask for, in the case that the flags ask for, then blanks, and these only with LEFT |
| FieldShape.WidthOnlyPads | src/kickstart/lib.exec/vsprintf.c:500-533 | a field width only adds blanks behind, blanks in front, or zeros in front of the digits to the text without one |
| Format.Number | src/kickstart/lib.exec/vsprintf.c:442-535 | writes exactly the field: sign, prefix, padding, zeros and digits, whatever the flags, and no other character of the buffer |
| Format.Convert | src/kickstart/lib.exec/vsprintf.c:479-498 | tmp[] receives the reversed digits of any 64-bit number in base 8, 10 or 16 without overflowing |
| Format.MaskDigits | src/kickstart/lib.exec/vsprintf.c:488-495 | masking the low byte and shifting yields the digits in base 8 and 16 |
| Format.Pad | src/kickstart/lib.exec/vsprintf.c:506-507 | a padding loop writes as many characters as are left, none for a negative count, and leaves the count negative |
| Parse.Strto | src/kickstart/lib.exec/vsprintf.c:200-224 | the digit loop yields the value of the longest digit sequence modulo the width of the result, and the end pointer behind it |
| Reading.ReadsMaximalRun | src/kickstart/lib.exec/vsprintf.c:200-224 | the end pointer stands behind a maximal run of digits, and the result is the value of this run: in base 16 behind 0x and a hexadecimal digit, in the base asked for otherwise, and for base 0 in base 8 or 10 as the text begins with a zero or not |
| Parse.SimpleStrtoul | src/kickstart/lib.exec/vsprintf.c:200-224 | the value modulo 2^32 |
| Parse.SimpleStrtoull | src/kickstart/lib.exec/vsprintf.c:281-305 | the value modulo 2^64 |
| Parse.SimpleStrtol | src/kickstart/lib.exec/vsprintf.c:251-256 | the negated or plain value as a signed 32-bit number, and the end pointer, behind the sign too |
| RoundTrip.BareRoundTrip | src/kickstart/lib.exec/vsprintf.c:442-535 | a number printed unsigned without prefix reads back in its base, by strtoul or strtoull, if and only if it is 0 or no leading blanks were written |
| RoundTrip.HexRoundTrip | src/kickstart/lib.exec/vsprintf.c:513-517 | prefixed hexadecimal reads back, whatever base is asked for, if and only if it is 0, or in lower case without leading blanks |
| RoundTrip.CapitalPrefixFails | src/kickstart/lib.exec/vsprintf.c:204-209 | a number whose upper-case notation does not read back |
| RoundTrip.OctalRoundTrip | src/kickstart/lib.exec/vsprintf.c:200-224 | prefixed octal reads back with base 0 if and only if it is 0 or has no leading blanks |
| RoundTrip.SignedRoundTrip | src/kickstart/lib.exec/vsprintf.c:251-256 | every 32-bit signed number printed in decimal reads back with strtol if and only if it is 0, or the text starts neither with a blank nor with a plus sign |
| Reading.DecimalRoundTrip | src/kickstart/lib.exec/vsprintf.c:214-216 | unsigned decimal reads back with base 0 if and only if it is 0, or has no blanks in front, and no zeros in front either unless it is below 8 |
| Reading.SignedDecimalRoundTrip | src/kickstart/lib.exec/vsprintf.c:251-256 | signed decimal reads back by strtol with base 0 if and only if it is 0, or the text begins with neither a blank nor a plus sign, nor with superfluous zeros unless the number is between -7 and 7 |
| Reading.OctalIsLess | src/kickstart/lib.exec/vsprintf.c:204-213 | decimal digits read in base 8 mean less than the number, unless it is below 8 |
| Memcpy.AsmMemcpy | src/kickstart/lib.exec/_memory.s:112-428 | for every length and every alignment of two ranges that do not overlap, the n bytes at dest become those of the source and nothing else changes; for counts below 2^31, which the int of the plain byte loop can hold, that is what the loop makes of memory |
| Memcpy.ByteLoopCopies | src/kickstart/lib.exec/util.c:43-46 | the plain loop copies exactly n bytes and changes no other |
| Memcpy.ByteAtATime | src/kickstart/lib.exec/_memory.s:275-283 | the descending byte loop for short copies is such a copy |
| Memcpy.Realign | src/kickstart/lib.exec/_memory.s:153-165 | one to three bytes bring the destination to a word boundary |
| Memcpy.AlignUp | src/kickstart/lib.exec/_memory.s:180-192 | words bring it to a 32-byte boundary, with at least one byte left over at each step |
| Memcpy.CopyAligned | src/kickstart/lib.exec/_memory.s:221-273 | the eight-word loop and its tails copy the rest |
| Memcpy.MergeBytes | src/kickstart/lib.exec/_memory.s:316-323 | a word shifted right merged with the next one shifted left is the four source bytes in between |
| Memcpy.MergePass | src/kickstart/lib.exec/_memory.s:308-326 | one pass of the misaligned loop copies 32 bytes, whatever the misalignment |
| Memcpy.MergeLoop | src/kickstart/lib.exec/_memory.s:297-326 | the loop stops with fewer than 32 bytes to go and the last word in r11; it reads only words that hold source bytes |
| Memcpy.PostMisalignment | src/kickstart/lib.exec/_memory.s:328-344 | the bytes left in r11 and the following words complete the copy |
| Memset.AsmMemset | src/kickstart/lib.exec/_memory.s:19-108 | exactly FillCount bytes are set |
| Memset.FillsAll | src/kickstart/lib.exec/_memory.s:45-47 | all n bytes are set if and only if fewer than 2^31 of them follow the first word boundary or that is a 32-byte boundary; so for all n below 2^31 |
| Memset.FillCanStopEarly | src/kickstart/lib.exec/_memory.s:45-47 | an input for which it stops after one byte |
| TimeVals.CompareExact | src/kickstart/dev.timer/timerfuncs.c:3-13 | CmpTime orders normalised times rightly if and only if the difference of their seconds fits a signed 32-bit number |
| TimeVals.SumExact | src/kickstart/dev.timer/timerfuncs.c:15-24 | AddTime preserves the total of microseconds if and only if neither microseconds nor seconds run over 32 bits |
| TimeVals.SubtractUndoesAdd | src/kickstart/dev.timer/timerfuncs.c:26-46 | SubTime undoes AddTime on normalised times, wrapped seconds included |
| TimeVals.AddTime | src/kickstart/dev.timer/timerfuncs.c:15-24 | the loop leaves the normalised sum |
| TimeVals.SubTime | src/kickstart/dev.timer/timerfuncs.c:26-46 | both loops and the borrow leave the difference, and a normalised source |
| TimeVals.FastAddTime | src/kickstart/dev.timer/_timerirq.c:8-14 | on normalised times the single carry agrees with AddTime |
| TimeVals.TimeVal.Normalise | src/kickstart/dev.timer/timerfuncs.c:19-23 | carries all surplus microseconds into the wrapping seconds |
| TimerProofs.NextKeeps | src/kickstart/dev.timer/io.c:22-74 | adding, ticking and aborting, each as one event, keep the queue latest first, no reply early, and every request waiting or replied to exactly once |
| TimerProofs.RunKeeps | src/kickstart/dev.timer/_timerirq.c:19-37 | the same in every state of every run |
| TimerRuns.ElapsedCounts | src/kickstart/dev.timer/_timerirq.c:21-22 | in every run Elapsed is the sum of all ticks, to the microsecond |
| TimerRuns.NotBeforeItsTime | src/kickstart/dev.timer/_timerirq.c:24-37 | in every run, a request for an interval is replied to as expired by a tick only, and not before the ticks since have counted more than the interval |
| TimerRuns.RequestAt | src/kickstart/dev.timer/io.c:74-84 | in every run, whatever bears the number of a request is this request, with the interval that was asked for |
| TimerRuns.ReplyStep | src/kickstart/dev.timer/_timerirq.c:24-37 | an event gives one reply at most: a tick to an expired request, AbortIO to the one it names |
| TimerProofs.LateAbortRepliesTwice | src/kickstart/dev.timer/io.c:122-129 | AbortIO tests and removes with interrupts enabled: if other things happen between its test and its Remove of a waiting request, the request is replied to twice if one of them is a tick that serves it, and once if not; Remove counts as one event here |
| TimerProofs.AbortCanReplyTwice | src/kickstart/dev.timer/io.c:122-129 | a request that is replied to twice |
| Timer.TimerBase.AbortTorn | src/kickstart/dev.timer/io.c:122-129 | a tick between the two assignments of AbortIO's Remove that finds an expired request leaves the list without the two if and only if the request it serves is no neighbour of the aborted one; a served successor is back in the list |
| TimerProofs.RepliedByTicks | src/kickstart/dev.timer/_timerirq.c:24-37 | while nobody aborts it, a request has been replied to exactly if a tick has served it, and then once |
| TimerProofs.SortedByCmpTime | src/kickstart/dev.timer/io.c:32-35 | the queue is sorted by CmpTime itself |
| TimerProofs.DrainIff | src/kickstart/dev.timer/_timerirq.c:24-37 | n requests expired at the first of n ticks are all replied to by these ticks if and only if no other request has expired at the last one |
| TimerProofs.ServedWithin | src/kickstart/dev.timer/_timerirq.c:24-37 | an expired request with i others in front is replied to within i + 1 ticks |
| TimerProofs.DrainRun | src/kickstart/dev.timer/_timerirq.c:24-37 | both statements for runs of the device |
| TimerProofs.DrainCanFail | src/kickstart/dev.timer/_timerirq.c:24-37 | a run from the start, with ticks 10 ms apart, in which a request that has expired is not replied to by the next tick |
| Timer.TimerBase.AddWaiter | src/kickstart/dev.timer/io.c:22-45 | on the linked nodes, the walk and Insert put the request behind all that are due later or at the same time |
| Timer.TimerBase.AddRequest | src/kickstart/dev.timer/io.c:74-84 | takes the Add step in place: the request is due at Elapsed plus its interval, and stands in order |
| Timer.TimerBase.Timer3IRQServer | src/kickstart/dev.timer/_timerirq.c:19-37 | takes the Tick step in place: at most one request leaves, as a reply with its time zeroed |
| Timer.TimerBase.AbortIO | src/kickstart/dev.timer/io.c:122-129 | takes the Abort step in place, as one event, unlinking the request by its node alone; a reply is left alone |
| Tags.WalkDistinct | src/kickstart/lib.util/tags.c:7-31 | the way to the end of a list never passes an item twice |
| Tags.MeaningOf | src/kickstart/lib.util/tags.c:7-31 | what a list means by its first item: TAG_SKIP with data d at p passes to p + d + 1, TAG_MORE to its data, TAG_IGNORE to the next item, TAG_DONE and null end it, any other item comes first |
| Tags.NextTagItem | src/kickstart/lib.util/tags.c:7-31 | terminates on every list with an end; returns its first ordinary item and leaves the rest, or null at the end |
| TagCycles.AcyclicIffEnds | src/kickstart/lib.util/tags.c:7-31 | a list has an end if and only if following it never leaves memory and never returns to an item |
| Tags.FindTagItem | src/kickstart/lib.util/tags.c:33-45 | the address of the first ordinary item with this tag on the way through the list, or null if there is none; it is the first such item of the flattened list |
| Tags.GetTagData | src/kickstart/lib.util/tags.c:47-51 | its data, or the default |
| Tags.PackBoolTags | src/kickstart/lib.util/tags.c:53-67 | the flags after all items of the flattened list, by the flattened map |
| Tags.LastOneDecides | src/kickstart/lib.util/tags.c:57-64 | each flag is what the last item says that the map relates to it, and unchanged without one |
| Tags.OneBitsExact | src/kickstart/lib.util/tags.c:57-64 | the flags of a map entry are the one bits of its data |
| Tags.CloneTagItems | src/kickstart/lib.util/tags.c:69-83 | null exactly without room; otherwise a list with the same flattening, and no other memory changed |
| Tags.RefreshTagItemClones | src/kickstart/lib.util/tags.c:97-114 | the items of the flattened original are stored one after the other, without a terminator |
| Tags.RefreshedMeansSame | src/kickstart/lib.util/tags.c:97-114 | a refreshed clone flattens to the original if and only if the list behind the copies is empty, as the cleared extra item makes it |
| Tags.AllocateTagItems | src/kickstart/lib.util/tags.c:85-90 | cleared memory, or null without room or for no items |
| Tags.FilterTagItems | src/kickstart/lib.util/tags.c:116-137 | leaves in place exactly the selected subsequence of the flattened list and returns its length, in the two filter modes; for any other mode all items stay and it returns 0; 0 and no change for null arguments |
| Tags.SievedList | src/kickstart/lib.util/tags.c:116-137 | marking items TAG_IGNORE keeps the way through the list and removes exactly the rejected ones |
| Tags.FiltersSplit | src/kickstart/lib.util/tags.c:123-134 | the two filter modes share out the items: the one leaves exactly those whose tag is in the array, the other exactly the rest |
| Tags.TagInArray | src/kickstart/lib.util/tags.c:139-147 | whether the tag occurs in front of the terminator |

## Left out

- Kernel.SysBase: context switching and stacks are left out, a task resumes behind its Wait or Schedule call; so are IDNestCnt, CPU_Usage and the Switch and Launch hooks.
- Semaphore.SignalSemaphore.ObtainSemaphore: ends at the Wait of the contended branch; ResumeExclusive is the rest of it, and between the two any other calls may happen.
- TimerProofs.LateAbortRepliesTwice: counts the replies, with Remove as one event; RemoveStale and AbortTorn say when a late or interrupted Remove damages the list, but what later calls do on a damaged list is not modelled.
- SemaphoreTasks.NextKeeps: an uncontended call, and a release with its signal, is one event, as under Forbid; as written, what happens on the TaskWait that a Wait destroys is not modelled.
- Kernel.SysBase.WaitTwice: leaves out the stores of the second pass that repeat those of the first.
- Timer.TimerBase: CurrentTime, which only UNIT_WAITUNTIL compares with, and the list of that unit are left out.
- Memcpy.MergeLoop: one method with the misalignment as a parameter stands for the three copies of the loop, which differ only in their shift counts; prefetching has no effect and is left out.
- Parse.Strto: one method with the modulus as a parameter stands for the two functions with the same body.
- Format.Number: the generic conversion for other bases is commented out in the source; the format string parser of vsnprintf and the conversion of strings are left out, they only select calls and copy characters.
- Divide.Udivsi3: requires a divisor above 0, as do Uidivmod and Umodsi3; for 0 the code calls __div0, which prints a message and loops forever (src/kickstart/lib.exec/util.c:12-16).
- Ports: a port with PA_IGNORE or without a task, ReplyMsg without a reply port, several ports of one task with one bit, and AddPort, FindPort and RemPort are left out.
- lib_SetTaskPri: assigns NULL where it should compare, so its body acts on a null task.
- AllocVec and FreeVec: choose a header by comparing units with bytes and stop at the first candidate; the model has one header.
- Timer units WAITUNTIL and E-clock: the comparison of the first is inverted for CmpTime's sign, the code of the second is commented out.
- __divsi3, __modsi3 and __aeabi_uldivmod: the former are assembled without the preprocessor they need, the latter shifts a 32-bit value by 32.
- Libraries, residents, interrupt dispatch, hardware access, boot: no specification in the source beyond the code itself.
- FindName and FindTask by name, AddSemaphore and RemSemaphore: list searches and insertions that add nothing to `Lists`.
