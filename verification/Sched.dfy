/** Tasks, the scheduler's ring, wait queues and sleep timers, as a system of steps. A
    step is what runs between two entries into the kernel's scheduler, or an interrupt. */
module Sched {
  import opened Common

  type Tid = nat
  type Qid = nat

  datatype TaskState = Running | Sleeping | Zombie

  /** Where a task's own code stands: in user mode or freely in the kernel, or inside one
      of the three calls that give the processor away. */
  datatype Phase = Free | InWait | InSleep | InSuspend

  /** `on` is the queue the task's wait link is in, `timer` whether its sleep timer is queued. */
  datatype Task = Task(state: TaskState, on: Option<Qid>, timer: bool, phase: Phase)

  /** The task ring, starting at the current task; task 0 is the idle task. */
  datatype Sys = Sys(ring: seq<Tid>, tasks: map<Tid, Task>, queues: map<Qid, seq<Tid>>)

  function Queue(s: Sys, q: Qid): seq<Tid> {
    if q in s.queues then s.queues[q] else []
  }

  // ------------------------------------------------------------------------ operations

  /** First position at or after `k` of a runnable task. */
  function FirstRunning(s: Sys, k: nat): (r: nat)
    requires forall t :: t in s.ring ==> t in s.tasks
    ensures k <= r
    ensures r < |s.ring| ==> s.tasks[s.ring[r]].state == Running
    ensures forall j :: k <= j < r && j < |s.ring| ==> s.tasks[s.ring[j]].state != Running
    decreases |s.ring| - k
  {
    if k >= |s.ring| || s.tasks[s.ring[k]].state == Running then k else FirstRunning(s, k + 1)
  }

  function IndexOf(q: seq<Tid>, t: Tid): (i: nat)
    requires t in q
    ensures i < |q| && q[i] == t && forall j :: 0 <= j < i ==> q[j] != t
  {
    if q[0] == t then 0 else 1 + IndexOf(q[1..], t)
  }

  /** The ring seen from position `k`. */
  function Rotate(ring: seq<Tid>, k: nat): seq<Tid>
    requires k <= |ring|
  {
    ring[k..] + ring[..k]
  }

  /** The next runnable task after the current one becomes current; if there is none, the
      idle task does, even when the current task could go on. */
  function Schedule(s: Sys): Sys
    requires s.ring != [] && 0 in s.ring && forall t :: t in s.ring ==> t in s.tasks
  {
    var k := FirstRunning(s, 1);
    if k < |s.ring| then s.(ring := Rotate(s.ring, k))
    else s.(ring := Rotate(s.ring, IndexOf(s.ring, 0)), tasks := s.tasks[0 := s.tasks[0].(state := Running)])
  }

  function CondSignal(s: Sys, q: Qid): Sys {
    var w := Queue(s, q);
    if w == [] || w[0] !in s.tasks then s
    else s.(queues := s.queues[q := w[1..]],
            tasks := s.tasks[w[0] := s.tasks[w[0]].(state := Running, on := None)])
  }

  function Broadcast(s: Sys, q: Qid): Sys
    decreases |Queue(s, q)|
  {
    if Queue(s, q) == [] || Queue(s, q)[0] !in s.tasks then s else Broadcast(CondSignal(s, q), q)
  }

  /** Delivers a signal to task `t`: if it is not masked, a sleeping task leaves its queue and runs. */
  function TaskSignal(s: Sys, t: Tid, masked: bool): Sys
    requires t in s.tasks
  {
    if masked || s.tasks[t].state != Sleeping then s
    else
      var queues := if s.tasks[t].on.Some?
                    then s.queues[s.tasks[t].on.value := Remove(Queue(s, s.tasks[t].on.value), t)]
                    else s.queues;
      s.(queues := queues, tasks := s.tasks[t := s.tasks[t].(state := Running, on := None)])
  }

  function SetTask(s: Sys, t: Tid, k: Task): Sys {
    s.(tasks := s.tasks[t := k])
  }

  /** `cond_wait` up to the scheduler. */
  function Enqueue(s: Sys, t: Tid, q: Qid): Sys
    requires t in s.tasks
  {
    s.(queues := s.queues[q := Queue(s, q) + [t]],
       tasks := s.tasks[t := s.tasks[t].(state := Sleeping, on := Some(q), phase := InWait)])
  }

  /** `sys_exit` up to the wake-up of a waiting parent: the parent is signalled and the
      current task becomes a zombie. */
  function Dying(s: Sys, parent: Tid, masked: bool): Sys
    requires s.ring != [] && s.ring[0] in s.tasks && parent in s.tasks
  {
    var s1 := TaskSignal(s, parent, masked);
    SetTask(s1, s.ring[0], s1.tasks[s.ring[0]].(state := Zombie))
  }

  datatype Step = WaitOn(q: Qid) | FinishWait
                | SignalQueue(q: Qid) | BroadcastQueue(q: Qid) | Kill(t: Tid, masked: bool)
                | Sleep | FinishSleep | TimerFire(t: Tid)
                | Suspend | FinishSuspend
                | Exit(parent: Tid, masked: bool, q: Qid)
                | Fork(child: Tid) | Reap(t: Tid)
                | Preempt | Idle

  /** What the code allows: blocking calls are made by a task that is in none, the calls
      end in the task that made them, the idle task only idles and forks. */
  predicate Enabled(s: Sys, a: Step) {
    && s.ring != [] && 0 in s.ring && (forall t :: t in s.ring ==> t in s.tasks)
    && var cur := s.ring[0];
       var k := s.tasks[cur];
       match a
       case WaitOn(_) => cur != 0 && k.phase == Free
       case FinishWait => k.phase == InWait
       case SignalQueue(_) => true
       case BroadcastQueue(_) => true
       case Kill(t, _) => t in s.tasks
       case Sleep => cur != 0 && k.phase == Free
       case FinishSleep => k.phase == InSleep
       case TimerFire(t) => t in s.tasks && s.tasks[t].timer
       case Suspend => cur != 0 && (k.phase == Free || k.phase == InSuspend)
       case FinishSuspend => k.phase == InSuspend
       case Exit(parent, _, _) => cur != 0 && (k.phase == Free || k.phase == InSuspend) && parent in s.tasks
       case Fork(child) => k.phase == Free && child !in s.tasks
       case Reap(t) => t in s.tasks && t != cur && s.tasks[t].state == Zombie
       case Preempt => true
       case Idle => cur == 0
  }

  function Next(s: Sys, a: Step): Sys
    requires Enabled(s, a)
  {
    var cur := s.ring[0];
    var k := s.tasks[cur];
    match a
    case WaitOn(q) => Schedule(Enqueue(s, cur, q))
    case FinishWait => SetTask(s, cur, k.(phase := Free))
    case SignalQueue(q) => CondSignal(s, q)
    case BroadcastQueue(q) => Broadcast(s, q)
    case Kill(t, masked) => TaskSignal(s, t, masked)
    case Sleep => Schedule(SetTask(s, cur, k.(state := Sleeping, timer := true, phase := InSleep)))
    case FinishSleep => SetTask(s, cur, k.(timer := false, phase := Free))
    case TimerFire(t) => SetTask(s, t, s.tasks[t].(state := Running, timer := false))
    case Suspend => Schedule(SetTask(s, cur, k.(state := Sleeping, phase := InSuspend)))
    case FinishSuspend => SetTask(s, cur, k.(phase := Free))
    case Exit(parent, masked, q) =>
      ExitDomain(Dying(s, parent, masked), q);
      Schedule(CondSignal(Dying(s, parent, masked), q))
    case Fork(child) => s.(ring := s.ring + [child], tasks := s.tasks[child := Task(Running, None, false, Free)])
    case Reap(t) => s.(ring := Remove(s.ring, t), tasks := s.tasks - {t})
    case Preempt => Schedule(s)
    case Idle => Schedule(SetTask(s, 0, s.tasks[0].(state := Sleeping)))
  }

  lemma ExitDomain(s: Sys, q: Qid)
    ensures CondSignal(s, q).tasks.Keys == s.tasks.Keys && CondSignal(s, q).ring == s.ring
  {
  }
}
