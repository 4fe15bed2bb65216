/** What each step does to tasks, queues and ring, said without the functions that compute it:
    who sleeps, who is woken, which queue loses or gains whom, and who runs next. */
module SchedEffects {
  import opened Common
  import opened Sched
  import opened SchedTheory

  /** The same tasks, and no change but to the tasks `ts` and the queues `qs`. */
  ghost predicate Only(s: Sys, s': Sys, ts: set<Tid>, qs: set<Qid>) {
    && s'.tasks.Keys == s.tasks.Keys
    && (forall t {:trigger SameTask(s, s', t)} :: t in s.tasks && t !in ts ==> SameTask(s, s', t))
    && (forall q: Qid {:trigger SameQueue(s, s', q)} :: q !in qs ==> SameQueue(s, s', q))
  }

  ghost predicate SameTask(s: Sys, s': Sys, t: Tid) {
    t in s.tasks && t in s'.tasks && s'.tasks[t] == s.tasks[t]
  }

  ghost predicate SameQueue(s: Sys, s': Sys, q: Qid) {
    Queue(s', q) == Queue(s, q)
  }

  /** `t` is made runnable, off any queue, and nothing else about it changes. */
  ghost predicate Woken(s: Sys, s': Sys, t: Tid) {
    && t in s.tasks && t in s'.tasks
    && s'.tasks[t] == Task(Running, None, s.tasks[t].timer, s.tasks[t].phase)
  }

  /** `w'` is `w` with one occurrence of `t` taken out. */
  ghost predicate Lost(w: seq<Tid>, w': seq<Tid>, t: Tid) {
    exists i: nat :: LostAt(w, w', t, i)
  }

  ghost predicate LostAt(w: seq<Tid>, w': seq<Tid>, t: Tid, i: nat) {
    i <= |w'| && w == w'[..i] + [t] + w'[i..]
  }

  // ------------------------------------------------------------------------- wake-ups

  /** A signal to `t`: unless it is masked, a sleeper wakes up and leaves the queue it was on. */
  ghost predicate Signalled(s: Sys, s': Sys, t: Tid, masked: bool)
    requires t in s.tasks
  {
    if masked || s.tasks[t].state != Sleeping then s' == s
    else
      && s'.ring == s.ring && Woken(s, s', t)
      && (forall q: Qid :: t !in Queue(s', q))
      && match s.tasks[t].on
         case None => Only(s, s', {t}, {})
         case Some(q) => Only(s, s', {t}, {q}) && Lost(Queue(s, q), Queue(s', q), t)
  }

  lemma {:induction false} RemoveLost(w: seq<Tid>, t: Tid)
    requires t in w
    ensures Lost(w, Remove(w, t), t)
  {
    var r := Remove(w, t);
    if w[0] == t {
      assert w == r[..0] + [t] + r[0..];
      assert LostAt(w, r, t, 0);
    } else {
      RemoveLost(w[1..], t);
      var r' := Remove(w[1..], t);
      var i: nat :| LostAt(w[1..], r', t, i);
      LostLater(w, w[0], w[1..], r', t, i);
    }
  }

  lemma LostLater(w: seq<Tid>, x: Tid, v: seq<Tid>, v': seq<Tid>, t: Tid, i: nat)
    requires w == [x] + v && LostAt(v, v', t, i)
    ensures LostAt(w, [x] + v', t, i + 1)
  {
    var w' := [x] + v';
    assert w'[..i + 1] == [x] + v'[..i] && w'[i + 1..] == v'[i..];
    Grouped([x], v'[..i] + [t], v'[i..]);
    Grouped([x], v'[..i], [t]);
  }

  lemma SignalEffect(s: Sys, t: Tid, masked: bool)
    requires Core(s) && t in s.tasks
    ensures Signalled(s, TaskSignal(s, t, masked), t, masked)
  {
    var s' := TaskSignal(s, t, masked);
    if s'.tasks[t] != s.tasks[t] {
      assert TaskOk(s, t);
      var on := s.tasks[t].on;
      if on.Some? {
        assert QueueOk(s, on.value);
        RemoveOk(Queue(s, on.value), t);
        RemoveLost(Queue(s, on.value), t);
      }
      forall q: Qid ensures t !in Queue(s', q) { assert QueueOk(s, q); }
    }
  }

  /** A wake-up on `q`: the task that has waited longest runs, and the others stay in line. */
  ghost predicate FirstWoken(s: Sys, s': Sys, q: Qid) {
    var w := Queue(s, q);
    if w == [] then s' == s
    else
      && s'.ring == s.ring && Woken(s, s', w[0])
      && Only(s, s', {w[0]}, {q}) && Queue(s, q) == [w[0]] + Queue(s', q)
  }

  lemma CondEffect(s: Sys, q: Qid)
    requires Core(s)
    ensures FirstWoken(s, CondSignal(s, q), q)
  {
    CondSignalKeeps(s, q);
    var w := Queue(s, q);
    if w != [] { assert w == [w[0]] + w[1..]; }
  }

  /** Everybody on `q` is woken. */
  ghost predicate AllWoken(s: Sys, s': Sys, q: Qid) {
    && s'.ring == s.ring && Queue(s', q) == []
    && (forall t :: t in Queue(s, q) ==> Woken(s, s', t))
    && Only(s, s', set t | t in Queue(s, q), {q})
  }

  lemma {:induction false} BroadcastEffect(s: Sys, q: Qid)
    requires Core(s)
    ensures AllWoken(s, Broadcast(s, q), q)
    decreases |Queue(s, q)|
  {
    CondSignalKeeps(s, q);
    CondEffect(s, q);
    var w := Queue(s, q);
    if w != [] {
      var m := CondSignal(s, q);
      BroadcastEffect(m, q);
      assert QueueOk(s, q) && QueueOk(m, q);
      AlsoWoken(s, m, Broadcast(s, q), q);
    }
  }

  /** The first waiter and then all the others. */
  lemma AlsoWoken(s: Sys, m: Sys, s': Sys, q: Qid)
    requires Queue(s, q) != [] && FirstWoken(s, m, q) && AllWoken(m, s', q) && NoDup(Queue(s, q))
    ensures AllWoken(s, s', q)
  {
    var w, v := Queue(s, q), Queue(m, q);
    assert w == [w[0]] + v;
    assert forall i :: 0 <= i < |v| ==> w[i + 1] == v[i];
    forall t | t in w ensures Woken(s, s', t) {
      if t == w[0] { assert SameTask(m, s', t); } else { assert t in v && SameTask(s, m, t); }
    }
    forall t | t in s.tasks && t !in w ensures SameTask(s, s', t) {
      assert SameTask(s, m, t) && SameTask(m, s', t);
    }
    forall p: Qid | p != q ensures SameQueue(s, s', p) { assert SameQueue(s, m, p) && SameQueue(m, s', p); }
  }

  // ----------------------------------------------------------------------- who runs next

  ghost predicate Runnable(s: Sys, j: nat) {
    j < |s.ring| && s.ring[j] in s.tasks && s.tasks[s.ring[j]].state == Running
  }

  /** The turn goes to the first runnable task behind the current one, or, if there is none, to
      the idle task; the order of the ring stays. */
  ghost predicate Turned(s: Sys, s': Sys) {
    && s'.queues == s.queues
    && exists k: nat :: TurnedTo(s, s', k)
  }

  ghost predicate TurnedTo(s: Sys, s': Sys, k: nat) {
    && k < |s.ring| && 0 in s.tasks && s'.ring == s.ring[k..] + s.ring[..k]
    && if exists j: nat :: 1 <= j && Runnable(s, j) then
         && 1 <= k && Runnable(s, k) && s'.tasks == s.tasks
         && (forall j: nat :: 1 <= j < k ==> !Runnable(s, j))
       else s.ring[k] == 0 && s'.tasks == s.tasks[0 := s.tasks[0].(state := Running)]
  }

  lemma TurnEffect(s: Sys)
    requires Core(s)
    ensures Turned(s, Schedule(s))
  {
    var k := FirstRunning(s, 1);
    if k < |s.ring| {
      assert Runnable(s, k);
      assert TurnedTo(s, Schedule(s), k);
    } else {
      assert TurnedTo(s, Schedule(s), IndexOf(s.ring, 0));
    }
  }

  // --------------------------------------------------------------------------- all steps

  /** `cur` goes to sleep at the end of `q`. */
  ghost predicate Joined(s: Sys, s': Sys, cur: Tid, q: Qid) {
    && cur in s.tasks && cur in s'.tasks && s'.ring == s.ring && Only(s, s', {cur}, {q})
    && s'.tasks[cur] == Task(Sleeping, Some(q), s.tasks[cur].timer, InWait)
    && Queue(s', q) == Queue(s, q) + [cur]
  }

  /** Only task `t` changes, and it becomes `k`. */
  ghost predicate Becomes(s: Sys, s': Sys, t: Tid, k: Task) {
    t in s'.tasks && s'.ring == s.ring && Only(s, s', {t}, {}) && s'.tasks[t] == k
  }

  /** What `sys_exit` does: the parent gets a signal, the task becomes a zombie, and one waiter
      on the parent's queue is woken. */
  ghost predicate Exited(s: Sys, s': Sys, cur: Tid, parent: Tid, masked: bool, q: Qid, m1: Sys, m2: Sys)
    requires cur in s.tasks && parent in s.tasks
  {
    && Signalled(s, m1, parent, masked)
    && Becomes(m1, m2, cur, s.tasks[cur].(state := Zombie))
    && FirstWoken(m2, s', q)
  }

  /** The current task becomes `k`, and then the turn passes on. */
  ghost predicate Yielded(s: Sys, k: Task, s': Sys)
    requires s.ring != []
  {
    exists m :: Becomes(s, m, s.ring[0], k) && Turned(m, s')
  }

  ghost predicate Waits(s: Sys, q: Qid, s': Sys)
    requires s.ring != []
  {
    exists m :: Joined(s, m, s.ring[0], q) && Turned(m, s')
  }

  ghost predicate Leaves(s: Sys, parent: Tid, masked: bool, q: Qid, s': Sys)
    requires s.ring != [] && s.ring[0] in s.tasks && parent in s.tasks
  {
    exists m, m1, m2 :: Exited(s, m, s.ring[0], parent, masked, q, m1, m2) && Turned(m, s')
  }

  ghost predicate Effect(s: Sys, a: Step, s': Sys)
    requires Enabled(s, a)
  {
    var cur := s.ring[0];
    var k := s.tasks[cur];
    match a
    case WaitOn(q) => Waits(s, q, s')
    case FinishWait => Becomes(s, s', cur, k.(phase := Free))
    case SignalQueue(q) => FirstWoken(s, s', q)
    case BroadcastQueue(q) => AllWoken(s, s', q)
    case Kill(t, masked) => Signalled(s, s', t, masked)
    case Sleep => Yielded(s, Task(Sleeping, k.on, true, InSleep), s')
    case FinishSleep => Becomes(s, s', cur, Task(k.state, k.on, false, Free))
    case TimerFire(t) => Becomes(s, s', t, Task(Running, s.tasks[t].on, false, s.tasks[t].phase))
    case Suspend => Yielded(s, Task(Sleeping, k.on, k.timer, InSuspend), s')
    case FinishSuspend => Becomes(s, s', cur, k.(phase := Free))
    case Exit(parent, masked, q) => Leaves(s, parent, masked, q, s')
    case Fork(child) =>
      && s'.ring == s.ring + [child] && s'.queues == s.queues
      && s'.tasks == s.tasks[child := Task(Running, None, false, Free)]
    case Reap(t) => s'.tasks == s.tasks - {t} && s'.queues == s.queues && Lost(s.ring, s'.ring, t)
    case Preempt => Turned(s, s')
    case Idle => Yielded(s, s.tasks[0].(state := Sleeping), s')
  }

  lemma ExitEffect(s: Sys, parent: Tid, masked: bool, q: Qid) returns (m: Sys, m1: Sys, m2: Sys)
    requires Inv(s) && Enabled(s, Exit(parent, masked, q))
    ensures Exited(s, m, s.ring[0], parent, masked, q, m1, m2) && Turned(m, Next(s, Exit(parent, masked, q)))
  {
    m1, m2 := TaskSignal(s, parent, masked), Dying(s, parent, masked);
    m := CondSignal(m2, q);
    ZombieEffect(s, parent, masked);
    DyingKeeps(s, parent, masked);
    CondSignalKeeps(m2, q);
    CondEffect(m2, q);
    TurnEffect(m);
  }

  lemma ZombieEffect(s: Sys, parent: Tid, masked: bool)
    requires Inv(s) && parent in s.tasks
    ensures var m1, m2 := TaskSignal(s, parent, masked), Dying(s, parent, masked);
      && Signalled(s, m1, parent, masked)
      && Becomes(m1, m2, s.ring[0], s.tasks[s.ring[0]].(state := Zombie))
  {
    TaskSignalKeeps(s, parent, masked);
    SignalEffect(s, parent, masked);
  }

  lemma YieldEffect(s: Sys, k: Task, s': Sys)
    requires Core(s) && s.tasks[s.ring[0]].on.None? && k.on.None? && k.state != Zombie
    requires k.timer ==> k.phase == InSleep
    requires s.ring[0] == 0 ==> !k.timer && k.phase == Free
    requires s' == Schedule(SetTask(s, s.ring[0], k))
    ensures Yielded(s, k, s')
  {
    var m := SetTask(s, s.ring[0], k);
    SetKeeps(s, s.ring[0], k);
    SetEffect(s, s.ring[0], k);
    TurnEffect(m);
  }

  lemma SetEffect(s: Sys, t: Tid, k: Task)
    requires t in s.tasks
    ensures Becomes(s, SetTask(s, t, k), t, k)
  {
  }

  lemma WaitEffect(s: Sys, q: Qid)
    requires Inv(s) && Enabled(s, WaitOn(q))
    ensures Waits(s, q, Next(s, WaitOn(q)))
  {
    var cur := s.ring[0];
    var m := Enqueue(s, cur, q);
    assert TaskOk(s, cur);
    EnqueueKeeps(s, cur, q);
    assert Joined(s, m, cur, q);
    TurnEffect(m);
  }

  /** Steps that give up the processor. */
  lemma ScheduledEffect(s: Sys, a: Step)
    requires Inv(s) && Enabled(s, a) && Schedules(a)
    ensures Effect(s, a, Next(s, a))
  {
    var cur := s.ring[0];
    var k := s.tasks[cur];
    assert TaskOk(s, cur) && TaskOk(s, 0);
    match a
    case WaitOn(q) => WaitEffect(s, q);
    case Sleep => YieldEffect(s, Task(Sleeping, k.on, true, InSleep), Next(s, a));
    case Suspend => YieldEffect(s, Task(Sleeping, k.on, k.timer, InSuspend), Next(s, a));
    case Exit(parent, masked, q) =>
      var m, m1, m2 := ExitEffect(s, parent, masked, q);
    case Preempt => TurnEffect(s);
    case Idle => YieldEffect(s, s.tasks[0].(state := Sleeping), Next(s, a));
  }

  /** Every step has its effect, and no other. */
  lemma StepEffect(s: Sys, a: Step)
    requires Inv(s) && Enabled(s, a)
    ensures Effect(s, a, Next(s, a))
  {
    if Schedules(a) {
      ScheduledEffect(s, a);
    } else {
      match a
      case SignalQueue(q) => CondEffect(s, q);
      case BroadcastQueue(q) => BroadcastEffect(s, q);
      case Kill(t, masked) => SignalEffect(s, t, masked);
      case Reap(t) => RemoveLost(s.ring, t);
      case TimerFire(t) => SetEffect(s, t, Task(Running, s.tasks[t].on, false, s.tasks[t].phase));
      case _ =>
    }
  }

  /** An exit wakes a parent that waits for it: at once if the signal is not masked, and through
      the parent's queue if the parent is first in it. */
  lemma ExitWakesParent(s: Sys, parent: Tid, masked: bool, q: Qid)
    requires Inv(s) && Enabled(s, Exit(parent, masked, q)) && s.tasks[parent].state == Sleeping
    requires !masked || (Queue(s, q) != [] && Queue(s, q)[0] == parent)
    ensures var s' := Next(s, Exit(parent, masked, q)); parent in s'.tasks && s'.tasks[parent].state == Running
  {
    var cur, s' := s.ring[0], Next(s, Exit(parent, masked, q));
    var m, m1, m2 := ExitEffect(s, parent, masked, q);
    assert parent != cur;
    if masked {
      assert SameQueue(m1, m2, q) && SameTask(m1, m2, parent);
    } else {
      assert SameTask(m1, m2, parent);
      StaysRunning(m2, m, q, parent);
    }
    var k: nat :| TurnedTo(m, s', k);
  }

  /** A wake-up leaves a runnable task runnable. */
  lemma StaysRunning(s: Sys, s': Sys, q: Qid, t: Tid)
    requires FirstWoken(s, s', q) && t in s.tasks && s.tasks[t].state == Running
    ensures t in s'.tasks && s'.tasks[t].state == Running
  {
    if Queue(s, q) != [] && t != Queue(s, q)[0] { assert SameTask(s, s', t); }
  }
}
