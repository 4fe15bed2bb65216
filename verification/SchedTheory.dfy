/** What every run of the task system keeps: wait queues, task states, fairness. */
module SchedTheory {
  import opened Common
  import opened Sched

  /** A task on a wait queue sleeps in a wait call; a pending sleep timer belongs to a task
      in a sleep call; a zombie is on no queue and has no timer. */
  ghost predicate TaskOk(s: Sys, t: Tid)
    requires t in s.tasks
  {
    var k := s.tasks[t];
    && (k.on.Some? ==> k.state == Sleeping && k.phase == InWait && t in Queue(s, k.on.value))
    && (k.timer ==> k.phase == InSleep)
    && (k.state == Zombie ==> k.on.None? && !k.timer && k.phase != InWait)
    && (t == 0 ==> k.state != Zombie && k.on.None? && !k.timer && k.phase == Free)
  }

  /** A queue holds tasks whose link is in it, each once. */
  ghost predicate QueueOk(s: Sys, q: Qid) {
    && NoDup(Queue(s, q))
    && forall t :: t in Queue(s, q) ==> t in s.tasks && s.tasks[t].on == Some(q)
  }

  ghost predicate RingOk(s: Sys) {
    && s.ring != [] && NoDup(s.ring) && 0 in s.ring
    && forall t :: t in s.ring <==> t in s.tasks
  }

  ghost predicate Core(s: Sys) {
    && RingOk(s)
    && (forall t {:trigger TaskOk(s, t)} :: t in s.tasks ==> TaskOk(s, t))
    && (forall q: Qid {:trigger QueueOk(s, q)} :: QueueOk(s, q))
  }

  /** Between steps the current task is runnable. */
  ghost predicate Inv(s: Sys) {
    Core(s) && s.tasks[s.ring[0]].state == Running
  }

  // ------------------------------------------------------------------------ scheduling

  lemma RotateOk(ring: seq<Tid>, k: nat)
    requires NoDup(ring) && k <= |ring|
    ensures NoDup(Rotate(ring, k)) && |Rotate(ring, k)| == |ring|
    ensures forall t :: t in Rotate(ring, k) <==> t in ring
    ensures forall j :: k <= j < |ring| ==> Rotate(ring, k)[j - k] == ring[j]
  {
    assert ring == ring[..k] + ring[k..];
  }

  /** Turning the ring changes nothing but who is current. */
  lemma TurnKeeps(s: Sys, k: nat)
    requires Core(s) && k <= |s.ring|
    ensures Core(s.(ring := Rotate(s.ring, k)))
  {
    var s' := s.(ring := Rotate(s.ring, k));
    RotateOk(s.ring, k);
    forall t | t in s'.tasks ensures TaskOk(s', t) { assert TaskOk(s, t); }
    forall q: Qid ensures QueueOk(s', q) { assert QueueOk(s, q); }
  }

  // ------------------------------------------------------------------- single changes

  /** A task that is on no queue changes, and stays on none. */
  lemma SetKeeps(s: Sys, t: Tid, k: Task)
    requires Core(s) && t in s.tasks && s.tasks[t].on.None? && k.on.None?
    requires (k.timer ==> k.phase == InSleep) && (k.state == Zombie ==> !k.timer && k.phase != InWait)
    requires t == 0 ==> k.state != Zombie && !k.timer && k.phase == Free
    ensures Core(SetTask(s, t, k))
  {
    var s' := SetTask(s, t, k);
    forall u | u in s'.tasks ensures TaskOk(s', u) { if u != t { assert TaskOk(s, u); } }
    forall q: Qid ensures QueueOk(s', q) {
      assert QueueOk(s, q);
      assert t !in Queue(s, q);
    }
  }

  lemma ScheduleKeeps(s: Sys)
    requires Core(s)
    ensures Inv(Schedule(s))
  {
    var k := FirstRunning(s, 1);
    if k < |s.ring| {
      TurnKeeps(s, k);
    } else {
      assert TaskOk(s, 0);
      SetKeeps(s, 0, s.tasks[0].(state := Running));
      TurnKeeps(SetTask(s, 0, s.tasks[0].(state := Running)), IndexOf(s.ring, 0));
    }
  }

  lemma EnqueueKeeps(s: Sys, t: Tid, q: Qid)
    requires Core(s) && t in s.tasks && t != 0 && s.tasks[t].on.None? && !s.tasks[t].timer
    ensures Core(Enqueue(s, t, q))
  {
    var s' := Enqueue(s, t, q);
    assert QueueOk(s, q) && t !in Queue(s, q);
    forall u | u in s'.tasks ensures TaskOk(s', u) { assert TaskOk(s, u); }
    forall p: Qid ensures QueueOk(s', p) {
      assert QueueOk(s, p);
      assert t !in Queue(s, p);
    }
  }

  lemma CondSignalKeeps(s: Sys, q: Qid)
    requires Core(s)
    ensures Core(CondSignal(s, q))
    ensures Queue(s, q) != [] ==> Queue(s, q)[0] in s.tasks
    ensures CondSignal(s, q).ring == s.ring && CondSignal(s, q).tasks.Keys == s.tasks.Keys
    ensures forall t :: t in s.tasks && s.tasks[t].on.None? ==> CondSignal(s, q).tasks[t] == s.tasks[t]
  {
    var w, s' := Queue(s, q), CondSignal(s, q);
    assert QueueOk(s, q);
    if w != [] {
      var t := w[0];
      assert t in w && w == [t] + w[1..];
      assert TaskOk(s, t);
      forall u | u in s'.tasks ensures TaskOk(s', u) {
        assert TaskOk(s, u);
        if u != t && s.tasks[u].on == Some(q) { assert u in w[1..]; }
      }
      forall p: Qid ensures QueueOk(s', p) {
        assert QueueOk(s, p);
        if p != q { assert t !in Queue(s, p); } else { assert t !in w[1..]; }
      }
    }
  }

  lemma {:induction false} BroadcastKeeps(s: Sys, q: Qid)
    requires Core(s)
    ensures Core(Broadcast(s, q)) && Queue(Broadcast(s, q), q) == []
    ensures Broadcast(s, q).ring == s.ring && Broadcast(s, q).tasks.Keys == s.tasks.Keys
    ensures forall t :: t in s.tasks && s.tasks[t].on.None? ==> Broadcast(s, q).tasks[t] == s.tasks[t]
    ensures forall t :: t in Queue(s, q) ==> t in Broadcast(s, q).tasks && Broadcast(s, q).tasks[t].state == Running
    decreases |Queue(s, q)|
  {
    var w := Queue(s, q);
    CondSignalKeeps(s, q);
    if w != [] {
      var s1 := CondSignal(s, q);
      assert w == [w[0]] + w[1..];
      BroadcastKeeps(s1, q);
      assert s1.tasks[w[0]].on.None?;
    }
  }

  lemma TaskSignalKeeps(s: Sys, t: Tid, masked: bool)
    requires Core(s) && t in s.tasks
    ensures Core(TaskSignal(s, t, masked))
    ensures TaskSignal(s, t, masked).ring == s.ring && TaskSignal(s, t, masked).tasks.Keys == s.tasks.Keys
    ensures forall u :: u in s.tasks && s.tasks[u].state != Sleeping ==> TaskSignal(s, t, masked).tasks[u] == s.tasks[u]
  {
    var s' := TaskSignal(s, t, masked);
    if !masked && s.tasks[t].state == Sleeping {
      assert TaskOk(s, t);
      var on := s.tasks[t].on;
      if on.Some? {
        assert QueueOk(s, on.value);
        RemoveOk(Queue(s, on.value), t);
      }
      forall u | u in s'.tasks ensures TaskOk(s', u) { assert TaskOk(s, u); }
      forall q: Qid ensures QueueOk(s', q) {
        assert QueueOk(s, q);
        if on != Some(q) { assert t !in Queue(s, q); }
      }
    }
  }

  lemma ForkKeeps(s: Sys, child: Tid)
    requires Core(s) && child !in s.tasks
    ensures Core(s.(ring := s.ring + [child], tasks := s.tasks[child := Task(Running, None, false, Free)]))
  {
    var s' := s.(ring := s.ring + [child], tasks := s.tasks[child := Task(Running, None, false, Free)]);
    assert child !in s.ring;
    forall u | u in s'.tasks ensures TaskOk(s', u) { if u != child { assert TaskOk(s, u); } }
    forall q: Qid ensures QueueOk(s', q) { assert QueueOk(s, q); }
  }

  lemma ReapKeeps(s: Sys, t: Tid)
    requires Core(s) && t in s.tasks && s.tasks[t].state == Zombie && s.ring[0] != t
    ensures Core(s.(ring := Remove(s.ring, t), tasks := s.tasks - {t})) && Remove(s.ring, t)[0] == s.ring[0]
  {
    var s' := s.(ring := Remove(s.ring, t), tasks := s.tasks - {t});
    RemoveOk(s.ring, t);
    assert TaskOk(s, t) && TaskOk(s, 0);
    assert s.ring[0] in s.ring;
    forall u | u in s'.tasks ensures TaskOk(s', u) { assert TaskOk(s, u); }
    forall q: Qid ensures QueueOk(s', q) {
      assert QueueOk(s, q);
      assert t !in Queue(s, q);
    }
  }

  // -------------------------------------------------------------------------- every step

  lemma DyingKeeps(s: Sys, parent: Tid, masked: bool)
    requires Inv(s) && parent in s.tasks && s.ring[0] != 0
    requires s.tasks[s.ring[0]].phase == Free || s.tasks[s.ring[0]].phase == InSuspend
    ensures var s' := Dying(s, parent, masked);
            && Core(s') && s'.ring == s.ring && s'.tasks.Keys == s.tasks.Keys
            && s'.tasks[s.ring[0]].state == Zombie
            && (forall u :: u in s.tasks && u != s.ring[0] && s.tasks[u].state != Sleeping ==>
                  s'.tasks[u] == s.tasks[u])
            && s'.queues == TaskSignal(s, parent, masked).queues
  {
    var cur := s.ring[0];
    assert TaskOk(s, cur);
    TaskSignalKeeps(s, parent, masked);
    var s1 := TaskSignal(s, parent, masked);
    SetKeeps(s1, cur, s1.tasks[cur].(state := Zombie));
  }

  lemma ExitKeeps(s: Sys, parent: Tid, masked: bool, q: Qid)
    requires Inv(s) && Enabled(s, Exit(parent, masked, q))
    ensures Inv(Next(s, Exit(parent, masked, q)))
    ensures var s' := Next(s, Exit(parent, masked, q)); s.ring[0] in s'.tasks && s'.tasks[s.ring[0]].state == Zombie
  {
    DyingKeeps(s, parent, masked);
    var s2 := Dying(s, parent, masked);
    assert TaskOk(s2, s.ring[0]);
    CondSignalKeeps(s2, q);
    ScheduleKeeps(CondSignal(s2, q));
  }

  lemma NextKeeps(s: Sys, a: Step)
    requires Inv(s) && Enabled(s, a)
    ensures Inv(Next(s, a))
  {
    var cur := s.ring[0];
    var k := s.tasks[cur];
    assert TaskOk(s, cur) && TaskOk(s, 0);
    match a
    case WaitOn(q) => EnqueueKeeps(s, cur, q); ScheduleKeeps(Enqueue(s, cur, q));
    case FinishWait => SetKeeps(s, cur, k.(phase := Free));
    case SignalQueue(q) => CondSignalKeeps(s, q);
    case BroadcastQueue(q) => BroadcastKeeps(s, q);
    case Kill(t, masked) => TaskSignalKeeps(s, t, masked);
    case Sleep =>
      var k' := k.(state := Sleeping, timer := true, phase := InSleep);
      SetKeeps(s, cur, k');
      ScheduleKeeps(SetTask(s, cur, k'));
    case FinishSleep => SetKeeps(s, cur, k.(timer := false, phase := Free));
    case TimerFire(t) =>
      assert TaskOk(s, t);
      SetKeeps(s, t, s.tasks[t].(state := Running, timer := false));
    case Suspend =>
      var k' := k.(state := Sleeping, phase := InSuspend);
      SetKeeps(s, cur, k');
      ScheduleKeeps(SetTask(s, cur, k'));
    case FinishSuspend => SetKeeps(s, cur, k.(phase := Free));
    case Exit(parent, masked, q) => ExitKeeps(s, parent, masked, q);
    case Fork(child) => ForkKeeps(s, child);
    case Reap(t) => ReapKeeps(s, t);
    case Preempt => ScheduleKeeps(s);
    case Idle =>
      SetKeeps(s, 0, s.tasks[0].(state := Sleeping));
      ScheduleKeeps(SetTask(s, 0, s.tasks[0].(state := Sleeping)));
  }

  /** The system at boot: the idle task alone. */
  const Init: Sys := Sys([0], map[0 := Task(Running, None, false, Free)], map[])

  ghost predicate Follows(r: Sys, a: Step, s: Sys) {
    Enabled(r, a) && s == Next(r, a)
  }

  ghost predicate Reaches(run: seq<Step>, s: Sys) {
    if run == [] then s == Init
    else exists r :: Reaches(Front(run), r) && Follows(r, Last(run), s)
  }

  lemma {:induction false} RunInv(run: seq<Step>, s: Sys)
    requires Reaches(run, s)
    ensures Inv(s)
    decreases |run|
  {
    if run == [] {
      forall t | t in s.tasks ensures TaskOk(s, t) {}
      forall q: Qid ensures QueueOk(s, q) {}
    } else {
      var r :| Reaches(Front(run), r) && Follows(r, Last(run), s);
      RunInv(Front(run), r);
      NextKeeps(r, Last(run));
    }
  }

  /** In every reachable state a task is on at most one wait queue, once, and then sleeps. */
  lemma RunQueues(run: seq<Step>, s: Sys, t: Tid, q: Qid, p: Qid)
    requires Reaches(run, s) && t in Queue(s, q)
    ensures t in s.tasks && s.tasks[t].state == Sleeping && s.ring != [] && t != s.ring[0]
    ensures t in Queue(s, p) ==> p == q
    ensures forall i, j :: 0 <= i < j < |Queue(s, q)| ==> Queue(s, q)[i] != Queue(s, q)[j]
  {
    RunInv(run, s);
    assert QueueOk(s, q) && QueueOk(s, p);
    assert TaskOk(s, t);
  }

  // ----------------------------------------------------------------------------- zombies

  lemma ScheduleTasks(s: Sys, t: Tid)
    requires Core(s) && t in s.tasks
    ensures t in Schedule(s).tasks && (t != 0 ==> Schedule(s).tasks[t] == s.tasks[t])
  {
  }

  lemma {:induction false} BroadcastZombie(s: Sys, q: Qid, t: Tid)
    requires Core(s) && t in s.tasks && s.tasks[t].state == Zombie
    ensures t in Broadcast(s, q).tasks && Broadcast(s, q).tasks[t].state == Zombie
  {
    assert TaskOk(s, t);
    BroadcastKeeps(s, q);
  }

  ghost predicate StillZombie(s: Sys, t: Tid) {
    t in s.tasks && s.tasks[t].state == Zombie
  }

  lemma ExitZombie(s: Sys, parent: Tid, masked: bool, q: Qid, t: Tid)
    requires Inv(s) && Enabled(s, Exit(parent, masked, q)) && StillZombie(s, t)
    ensures StillZombie(Next(s, Exit(parent, masked, q)), t)
  {
    DyingKeeps(s, parent, masked);
    var s2 := Dying(s, parent, masked);
    assert TaskOk(s2, t);
    CondSignalKeeps(s2, q);
    ScheduleTasks(CondSignal(s2, q), t);
  }

  lemma StepZombie(s: Sys, a: Step, t: Tid)
    requires Inv(s) && Enabled(s, a) && StillZombie(s, t) && a != Reap(t)
    ensures StillZombie(Next(s, a), t)
  {
    var cur := s.ring[0];
    assert TaskOk(s, t) && TaskOk(s, 0);
    match a
    case SignalQueue(q) => CondSignalKeeps(s, q);
    case BroadcastQueue(q) => BroadcastZombie(s, q, t);
    case Kill(u, masked) => TaskSignalKeeps(s, u, masked);
    case Exit(parent, masked, q) => ExitZombie(s, parent, masked, q, t);
    case _ =>
  }

  /** A zombie stays one until it is reaped, and is never current again: the panic after
      the last scheduler call of `sys_exit` cannot be reached. */
  lemma ZombieStays(run: seq<Step>, s: Sys, a: Step, t: Tid)
    requires Reaches(run, s) && Enabled(s, a) && StillZombie(s, t)
    ensures Next(s, a).ring != [] && Next(s, a).ring[0] != t
    ensures if a == Reap(t) then t !in Next(s, a).tasks else StillZombie(Next(s, a), t)
  {
    RunInv(run, s);
    NextKeeps(s, a);
    if a != Reap(t) { StepZombie(s, a, t); }
  }

  // ------------------------------------------------------------------------ bounded waiting

  /** How many places task `t` is behind the current one. */
  function Distance(s: Sys, t: Tid): nat
    requires t in s.ring
  {
    IndexOf(s.ring, t)
  }

  lemma IndexIs(q: seq<Tid>, t: Tid, i: nat)
    requires NoDup(q) && i < |q| && q[i] == t
    ensures t in q && IndexOf(q, t) == i
  {
  }

  /** A runnable task that is not current is chosen by the scheduler, or comes closer. */
  lemma ScheduleNears(s: Sys, t: Tid)
    requires Core(s) && t in s.tasks && s.tasks[t].state == Running && t != s.ring[0]
    ensures t in Schedule(s).ring && Distance(Schedule(s), t) < Distance(s, t)
  {
    var d := Distance(s, t);
    var k := FirstRunning(s, 1);
    assert k <= d;
    RotateOk(s.ring, k);
    IndexIs(Rotate(s.ring, k), t, d - k);
  }

  lemma {:induction false} RemoveIndex(q: seq<Tid>, x: Tid, t: Tid)
    requires NoDup(q) && t in q && t != x
    ensures t in Remove(q, x) && IndexOf(Remove(q, x), t) <= IndexOf(q, t)
  {
    assert q == [q[0]] + q[1..];
    if q[0] == x {
      assert t in q[1..];
    } else if q[0] != t {
      assert t in q[1..];
      RemoveIndex(q[1..], x, t);
    }
  }

  /** Does the step enter the scheduler? */
  predicate Schedules(a: Step) {
    a.WaitOn? || a.Sleep? || a.Suspend? || a.Exit? || a.Preempt? || a.Idle?
  }

  lemma ExitNears(s: Sys, parent: Tid, masked: bool, q: Qid, t: Tid)
    requires Inv(s) && Enabled(s, Exit(parent, masked, q)) && t in s.tasks && s.tasks[t].state == Running
    requires t != s.ring[0]
    ensures t in Next(s, Exit(parent, masked, q)).ring && Distance(Next(s, Exit(parent, masked, q)), t) < Distance(s, t)
  {
    DyingKeeps(s, parent, masked);
    assert TaskOk(s, t) && TaskOk(Dying(s, parent, masked), t);
    CondSignalKeeps(Dying(s, parent, masked), q);
    ScheduleNears(CondSignal(Dying(s, parent, masked), q), t);
  }

  lemma SleepNears(s: Sys, k: Task, t: Tid)
    requires Core(s) && s.tasks[s.ring[0]].on.None? && k.on.None?
    requires (k.timer ==> k.phase == InSleep) && k.state != Zombie
    requires s.ring[0] == 0 ==> !k.timer && k.phase == Free
    requires t in s.tasks && s.tasks[t].state == Running && t != s.ring[0]
    ensures var s' := Schedule(SetTask(s, s.ring[0], k)); t in s'.ring && Distance(s', t) < Distance(s, t)
  {
    SetKeeps(s, s.ring[0], k);
    ScheduleNears(SetTask(s, s.ring[0], k), t);
  }

  /** Steps that give up the processor. */
  lemma YieldNears(s: Sys, a: Step, t: Tid)
    requires Inv(s) && Enabled(s, a) && t in s.tasks && s.tasks[t].state == Running && t != s.ring[0] && Schedules(a)
    ensures t in Next(s, a).ring && Distance(Next(s, a), t) <= Distance(s, t) - 1
  {
    var cur := s.ring[0];
    assert TaskOk(s, cur);
    match a
    case WaitOn(q) => EnqueueKeeps(s, cur, q); ScheduleNears(Enqueue(s, cur, q), t);
    case Sleep => SleepNears(s, s.tasks[cur].(state := Sleeping, timer := true, phase := InSleep), t);
    case Suspend => SleepNears(s, s.tasks[cur].(state := Sleeping, phase := InSuspend), t);
    case Exit(parent, masked, q) => ExitNears(s, parent, masked, q, t);
    case Preempt => ScheduleNears(s, t);
    case Idle => SleepNears(s, s.tasks[0].(state := Sleeping), t);
  }

  lemma StepNears(s: Sys, a: Step, t: Tid)
    requires Inv(s) && Enabled(s, a) && t in s.tasks && s.tasks[t].state == Running && t != s.ring[0]
    ensures t in Next(s, a).ring
    ensures Distance(Next(s, a), t) <= Distance(s, t) - (if Schedules(a) then 1 else 0)
  {
    if Schedules(a) {
      YieldNears(s, a, t);
    } else {
      match a
      case Fork(child) => ForkKeeps(s, child); IndexIs(s.ring + [child], t, IndexOf(s.ring, t));
      case Reap(u) => RemoveIndex(s.ring, u, t);
      case BroadcastQueue(q) => BroadcastKeeps(s, q);
      case _ =>
    }
  }

  /** A run from `s` to `s'` in which `t` is runnable and not current at every stop; `n`
      counts the entries into the scheduler. */
  ghost predicate WaitsThrough(s: Sys, run: seq<Step>, t: Tid, n: nat, s': Sys) {
    && t in s'.tasks && s'.tasks[t].state == Running && s'.ring != [] && t != s'.ring[0]
    && if run == [] then n == 0 && s' == s
       else exists r, m: nat ::
              && WaitsThrough(s, Front(run), t, m, r)
              && Follows(r, Last(run), s')
              && n == m + if Schedules(Last(run)) then 1 else 0
  }

  /** Bounded waiting: while a runnable task waits, the scheduler is entered fewer times
      than the task was places behind, whatever forks, reaps and wake-ups happen. */
  lemma {:induction false} BoundedWaiting(s: Sys, run: seq<Step>, t: Tid, n: nat, s': Sys)
    requires Inv(s) && WaitsThrough(s, run, t, n, s')
    ensures Inv(s') && t in s.ring && t in s'.ring && n + Distance(s', t) <= Distance(s, t)
    ensures n < Distance(s, t) < |s.ring|
    decreases |run|
  {
    if run == [] {
      assert t in s.ring;
    } else {
      var r, m: nat :| WaitsThrough(s, Front(run), t, m, r) && Follows(r, Last(run), s')
                       && n == m + if Schedules(Last(run)) then 1 else 0;
      BoundedWaiting(s, Front(run), t, m, r);
      NextKeeps(r, Last(run));
      StepNears(r, Last(run), t);
    }
  }

  // --------------------------------------------------------------------- order of wake-ups

  ghost predicate Precedes(q: seq<Tid>, t: Tid, u: Tid) {
    exists i, j :: 0 <= i < j < |q| && q[i] == t && q[j] == u
  }

  lemma ConsPrecedes(x: Tid, q: seq<Tid>, t: Tid, u: Tid)
    ensures Precedes(q, t, u) ==> Precedes([x] + q, t, u)
    ensures u in q ==> Precedes([t] + q, t, u)
  {
    if Precedes(q, t, u) {
      var i, j :| 0 <= i < j < |q| && q[i] == t && q[j] == u;
      assert ([x] + q)[i + 1] == t && ([x] + q)[j + 1] == u;
    }
    if u in q {
      var j :| 0 <= j < |q| && q[j] == u;
      assert ([t] + q)[0] == t && ([t] + q)[j + 1] == u;
    }
  }

  /** Either `t` is first and `u` comes later, or both come later. */
  lemma UnconsPrecedes(q: seq<Tid>, t: Tid, u: Tid)
    requires Precedes(q, t, u)
    ensures q != [] && ((q[0] == t && u in q[1..]) || Precedes(q[1..], t, u))
  {
    var i, j :| 0 <= i < j < |q| && q[i] == t && q[j] == u;
    assert q[1..][j - 1] == u;
    if i > 0 { assert q[1..][i - 1] == t; }
  }

  lemma {:induction false} RemovePrecedes(q: seq<Tid>, x: Tid, t: Tid, u: Tid)
    requires Precedes(q, t, u) && NoDup(q) && x != t && x != u
    ensures Precedes(Remove(q, x), t, u)
  {
    UnconsPrecedes(q, t, u);
    var r := q[1..];
    if q[0] != x {
      RemoveOk(r, x);
      ConsPrecedes(q[0], Remove(r, x), t, u);
      if Precedes(r, t, u) { RemovePrecedes(r, x, t, u); }
    }
  }

  lemma TailPrecedes(q: seq<Tid>, t: Tid, u: Tid)
    requires Precedes(q, t, u) && NoDup(q) && t in q[1..]
    ensures Precedes(q[1..], t, u)
  {
    var i, j :| 0 <= i < j < |q| && q[i] == t && q[j] == u;
    var k :| 0 <= k < |q[1..]| && q[1..][k] == t;
    assert q[k + 1] == t && i == k + 1;
    assert q[1..][i - 1] == t && q[1..][j - 1] == u;
  }

  lemma AppendPrecedes(q: seq<Tid>, x: Tid, t: Tid, u: Tid)
    requires Precedes(q, t, u)
    ensures Precedes(q + [x], t, u)
  {
    var i, j :| 0 <= i < j < |q| && q[i] == t && q[j] == u;
    assert (q + [x])[i] == t && (q + [x])[j] == u;
  }

  lemma SignalOrder(s: Sys, q: Qid, p: Qid, t: Tid, u: Tid)
    requires Core(s) && Precedes(Queue(s, q), t, u) && t in Queue(CondSignal(s, p), q)
    ensures Precedes(Queue(CondSignal(s, p), q), t, u)
  {
    CondSignalKeeps(s, p);
    assert QueueOk(s, q);
    if p == q { TailPrecedes(Queue(s, q), t, u); }
  }

  lemma TaskSignalOrder(s: Sys, x: Tid, masked: bool, q: Qid, t: Tid, u: Tid)
    requires Core(s) && x in s.tasks && Precedes(Queue(s, q), t, u)
    requires t in Queue(TaskSignal(s, x, masked), q) && u in Queue(TaskSignal(s, x, masked), q)
    ensures Precedes(Queue(TaskSignal(s, x, masked), q), t, u)
  {
    assert QueueOk(s, q);
    if !masked && s.tasks[x].state == Sleeping && s.tasks[x].on == Some(q) {
      RemoveOk(Queue(s, q), x);
      RemovePrecedes(Queue(s, q), x, t, u);
    }
  }

  lemma {:induction false} BroadcastOrder(s: Sys, q: Qid, p: Qid)
    requires Core(s) && p != q
    ensures Queue(Broadcast(s, p), q) == Queue(s, q)
    decreases |Queue(s, p)|
  {
    CondSignalKeeps(s, p);
    if Queue(s, p) != [] { BroadcastOrder(CondSignal(s, p), q, p); }
  }

  lemma SignalShrinks(s: Sys, p: Qid, q: Qid, x: Tid)
    requires x in Queue(CondSignal(s, p), q)
    ensures x in Queue(s, q)
  {
  }

  lemma ExitOrder(s: Sys, s2: Sys, parent: Tid, masked: bool, p: Qid, q: Qid, t: Tid, u: Tid)
    requires Core(s) && Core(s2) && parent in s.tasks && Precedes(Queue(s, q), t, u)
    requires s2.queues == TaskSignal(s, parent, masked).queues
    requires t in Queue(CondSignal(s2, p), q) && u in Queue(CondSignal(s2, p), q)
    ensures Precedes(Queue(CondSignal(s2, p), q), t, u)
  {
    SignalShrinks(s2, p, q, t);
    SignalShrinks(s2, p, q, u);
    TaskSignalOrder(s, parent, masked, q, t, u);
    SignalOrder(s2, q, p, t, u);
  }

  ghost predicate OrderKept(s: Sys, s': Sys, q: Qid, t: Tid, u: Tid) {
    Precedes(Queue(s, q), t, u) && t in Queue(s', q) && u in Queue(s', q) ==> Precedes(Queue(s', q), t, u)
  }

  lemma ExitKeepsOrder(s: Sys, parent: Tid, masked: bool, p: Qid, q: Qid, t: Tid, u: Tid)
    requires Inv(s) && Enabled(s, Exit(parent, masked, p))
    ensures OrderKept(s, Next(s, Exit(parent, masked, p)), q, t, u)
  {
    DyingKeeps(s, parent, masked);
    var s2 := Dying(s, parent, masked);
    ExitDomain(s2, p);
    if Precedes(Queue(s, q), t, u) && t in Queue(CondSignal(s2, p), q) && u in Queue(CondSignal(s2, p), q) {
      ExitOrder(s, s2, parent, masked, p, q, t, u);
    }
  }

  lemma StepOrder(s: Sys, a: Step, q: Qid, t: Tid, u: Tid)
    requires Inv(s) && Enabled(s, a) && !a.Exit? && Precedes(Queue(s, q), t, u)
    requires t in Queue(Next(s, a), q) && u in Queue(Next(s, a), q)
    ensures Precedes(Queue(Next(s, a), q), t, u)
  {
    match a
    case WaitOn(p) => if p == q { AppendPrecedes(Queue(s, q), s.ring[0], t, u); }
    case SignalQueue(p) => SignalOrder(s, q, p, t, u);
    case BroadcastQueue(p) => BroadcastKeeps(s, p); if p != q { BroadcastOrder(s, q, p); }
    case Kill(x, masked) => TaskSignalOrder(s, x, masked, q, t, u);
    case _ =>
  }

  /** Tasks on a queue keep their order of arrival through every step. */
  lemma ArrivalOrder(run: seq<Step>, s: Sys, a: Step, q: Qid, t: Tid, u: Tid)
    requires Reaches(run, s) && Enabled(s, a)
    ensures OrderKept(s, Next(s, a), q, t, u)
  {
    RunInv(run, s);
    if a.Exit? {
      ExitKeepsOrder(s, a.parent, a.masked, a.q, q, t, u);
    } else if Precedes(Queue(s, q), t, u) && t in Queue(Next(s, a), q) && u in Queue(Next(s, a), q) {
      StepOrder(s, a, q, t, u);
    }
  }

  /** A new waiter comes after all others; a wake-up takes the first and leaves the rest. */
  lemma FirstComeFirstWoken(run: seq<Step>, s: Sys, q: Qid, t: Tid)
    requires Reaches(run, s) && t in Queue(s, q)
    ensures Enabled(s, WaitOn(q)) ==> Precedes(Queue(Next(s, WaitOn(q)), q), t, s.ring[0])
    ensures Enabled(s, SignalQueue(q)) ==>
              var s' := Next(s, SignalQueue(q));
              t in s'.tasks && (s'.tasks[t].state == Running <==> t == Queue(s, q)[0])
              && (t != Queue(s, q)[0] ==> t in Queue(s', q))
  {
    RunInv(run, s);
    var w := Queue(s, q);
    assert QueueOk(s, q) && TaskOk(s, t);
    var i :| 0 <= i < |w| && w[i] == t;
    if Enabled(s, WaitOn(q)) {
      var w' := Queue(Next(s, WaitOn(q)), q);
      assert w'[i] == t && w'[|w|] == s.ring[0];
    }
    CondSignalKeeps(s, q);
    if i > 0 { assert w[1..][i - 1] == t; }
  }
}
