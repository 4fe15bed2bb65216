/** The scheduler and the wait queues as they run. */
module SchedOps {
  import opened Common
  import opened Sched
  import opened SchedTheory

  class Kernel {
    var ring: seq<Tid>
    var tasks: map<Tid, Task>
    var queues: map<Qid, seq<Tid>>

    function State(): Sys
      reads this
    {
      Sys(ring, tasks, queues)
    }

    constructor ()
      ensures State() == SchedTheory.Init && Inv(State())
    {
      ring, tasks, queues := [0], map[0 := Task(Running, None, false, Free)], map[];
      new;
      assert Reaches([], State());
      RunInv([], State());
    }

    /** Scans the ring for the next runnable task, falling back on the idle task. */
    method Scheduler()
      requires ring != [] && 0 in ring && forall t :: t in ring ==> t in tasks
      modifies this
      ensures State() == Schedule(old(State()))
    {
      var next := 1;
      while next < |ring| && tasks[ring[next]].state != Running
        invariant 1 <= next && FirstRunning(State(), next) == FirstRunning(State(), 1)
        invariant State() == old(State())
      {
        next := next + 1;
      }
      if next >= |ring| {
        tasks := tasks[0 := tasks[0].(state := Running)];
        next := IndexOf(ring, 0);
      }
      ring := ring[next..] + ring[..next];
    }

    method Wait(q: Qid)
      requires Enabled(State(), WaitOn(q))
      modifies this
      ensures State() == Next(old(State()), WaitOn(q))
    {
      var cur := ring[0];
      queues := queues[q := (if q in queues then queues[q] else []) + [cur]];
      tasks := tasks[cur := tasks[cur].(state := Sleeping, on := Some(q), phase := InWait)];
      Scheduler();
    }

    method Signal(q: Qid)
      requires Core(State())
      modifies this
      ensures State() == CondSignal(old(State()), q)
    {
      CondSignalKeeps(State(), q);
      if q !in queues || queues[q] == [] {
        return;
      }
      var t := queues[q][0];
      queues := queues[q := queues[q][1..]];
      tasks := tasks[t := tasks[t].(state := Running, on := None)];
    }

    method BroadcastAll(q: Qid)
      requires Core(State())
      modifies this
      ensures State() == Broadcast(old(State()), q) && Core(State())
    {
      while q in queues && queues[q] != []
        invariant Core(State()) && Broadcast(State(), q) == Broadcast(old(State()), q)
        decreases |Queue(State(), q)|
      {
        CondSignalKeeps(State(), q);
        Signal(q);
      }
    }

    method Deliver(t: Tid, masked: bool)
      requires t in tasks
      modifies this
      ensures State() == TaskSignal(old(State()), t, masked)
    {
      if !masked {
        if tasks[t].state == Sleeping {
          if tasks[t].on.Some? {
            var q := tasks[t].on.value;
            queues := queues[q := Remove(Queue(State(), q), t)];
          }
          tasks := tasks[t := tasks[t].(state := Running, on := None)];
        }
      }
    }

    /** Tells the parent, becomes a zombie, wakes a waiting parent, and gives the processor away. */
    method ExitTask(parent: Tid, masked: bool, q: Qid)
      requires Inv(State()) && Enabled(State(), Exit(parent, masked, q))
      modifies this
      ensures State() == Next(old(State()), Exit(parent, masked, q))
      ensures Inv(State()) && ring[0] != old(ring[0])
    {
      ExitKeeps(State(), parent, masked, q);
      DyingKeeps(State(), parent, masked);
      var cur := ring[0];
      Deliver(parent, masked);
      tasks := tasks[cur := tasks[cur].(state := Zombie)];
      CondSignalKeeps(State(), q);
      Signal(q);
      Scheduler();
    }

    method AddTask(child: Tid)
      requires Enabled(State(), Fork(child))
      modifies this
      ensures State() == Next(old(State()), Fork(child))
    {
      ring := ring + [child];
      tasks := tasks[child := Task(Running, None, false, Free)];
    }
  }
}
