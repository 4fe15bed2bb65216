/** Pipes: any number of readers and writers share a 513-slot ring and sleep on
    one condition. A step of the system is what a task does between two calls of
    the scheduler. */
module Pipe {
  import opened Common

  type Tid = nat

  /** Bytes the ring can hold. */
  const PIPE_SIZE: nat := 512

  // ----------------------------------------------------- one task's step on the pipe

  /** What the pipe looks like from outside: queued bytes, the numbers of readers and
      writers inside a blocking call, and the tasks asleep, oldest first. */
  datatype View = View(ring: string, readers: int, writers: int, queue: seq<Tid>)

  /** Result of a step: the call has returned, or its task has gone to sleep. */
  datatype Outcome = Returned | Asleep

  function Broadcast(v: View): View {
    v.(queue := [])
  }

  /** A call that cannot go on sleeps; the other side is woken if it has callers. */
  function ReaderSleeps(v: View, t: Tid): View {
    v.(readers := v.readers + 1, queue := (if v.writers > 0 then [] else v.queue) + [t])
  }

  function WriterSleeps(v: View, t: Tid): View {
    v.(writers := v.writers + 1, queue := (if v.readers > 0 then [] else v.queue) + [t])
  }

  /** `pipe_read` from the head of its loop: `got` is what the call has so far. */
  function ReadRun(v: View, t: Tid, count: nat, got: string): (View, string, Outcome)
    requires |got| <= count
  {
    var n := Min(count - |got|, |v.ring|);
    var got' := got + v.ring[..n];
    var v' := v.(ring := v.ring[n..]);
    if |got'| == count || (|got'| > 0 && v.writers == 0) then
      (if |got'| > 0 then Broadcast(v') else v', got', Returned)
    else (ReaderSleeps(v', t), got', Asleep)
  }

  function Room(v: View): nat {
    if |v.ring| < PIPE_SIZE then PIPE_SIZE - |v.ring| else 0
  }

  /** `pipe_write` from the head of its loop: `sent` bytes of `src` are queued so far. */
  function WriteRun(v: View, t: Tid, src: string, sent: nat): (View, nat, Outcome)
    requires sent <= |src|
  {
    var n := Min(|src| - sent, Room(v));
    var sent' := sent + n;
    var v' := v.(ring := v.ring + src[sent..sent']);
    if sent' == |src| then
      (if sent' > 0 then Broadcast(v') else v', sent', Returned)
    else (WriterSleeps(v', t), sent', Asleep)
  }

  // ------------------------------------------------------------------ the whole system

  /** A call that has slept at least once and has not returned: it still wants bytes. */
  datatype CallState = ReadCall(count: nat, got: string) | WriteCall(src: string, sent: nat) {
    predicate Unfinished() {
      match this
      case ReadCall(count, got) => |got| < count
      case WriteCall(src, sent) => sent < |src|
    }
  }

  type Call = c: CallState | c.Unfinished() witness ReadCall(1, "")

  /** What a call returned to its task. */
  datatype Return = ReadReturn(t: Tid, count: nat, text: string) | WriteReturn(t: Tid, src: string, sent: nat)

  /** The pipe, the calls in progress, the history of all bytes that calls have received and
      handed over, and what calls have returned. */
  datatype Sys = Sys(v: View, calls: map<Tid, Call>, taken: string, put: string, done: seq<Return>)

  datatype Step = Read(t: Tid, count: nat) | Write(t: Tid, src: string) | Resume(t: Tid) | Signal(t: Tid)

  predicate Enabled(s: Sys, a: Step) {
    match a
    case Read(t, _) => t !in s.calls
    case Write(t, _) => t !in s.calls
    case Resume(t) => t in s.calls && t !in s.v.queue
    case Signal(t) => t in s.v.queue
  }

  function DoRead(s: Sys, v: View, t: Tid, count: nat, got: string): Sys
    requires |got| <= count
  {
    var (v', got', out) := ReadRun(v, t, count, got);
    Sys(v', if out == Asleep then s.calls[t := ReadCall(count, got')] else s.calls - {t},
        s.taken + got'[|got|..], s.put, if out == Asleep then s.done else s.done + [ReadReturn(t, count, got')])
  }

  function DoWrite(s: Sys, v: View, t: Tid, src: string, sent: nat): Sys
    requires sent <= |src|
  {
    var (v', sent', out) := WriteRun(v, t, src, sent);
    Sys(v', if out == Asleep then s.calls[t := WriteCall(src, sent')] else s.calls - {t},
        s.taken, s.put + src[sent..sent'], if out == Asleep then s.done else s.done + [WriteReturn(t, src, sent')])
  }

  ghost predicate CallOk(s: Sys, t: Tid)
    requires t in s.calls
  {
    match s.calls[t]
    case ReadCall(_, _) => t in s.v.queue ==> s.v.ring == []
    case WriteCall(_, _) => t in s.v.queue ==> |s.v.ring| == PIPE_SIZE
  }

  function Readers(calls: map<Tid, Call>): set<Tid> {
    set t | t in calls && calls[t].ReadCall?
  }

  function Writers(calls: map<Tid, Call>): set<Tid> {
    set t | t in calls && calls[t].WriteCall?
  }

  /** What every reachable state satisfies. */
  ghost predicate Inv(s: Sys) {
    && |s.v.ring| <= PIPE_SIZE
    && s.v.readers == |Readers(s.calls)| && s.v.writers == |Writers(s.calls)|
    && NoDup(s.v.queue)
    && (forall t :: t in s.v.queue ==> t in s.calls)
    && (forall t {:trigger CallOk(s, t)} :: t in s.calls ==> CallOk(s, t))
    && s.put == s.taken + s.v.ring
  }

  function Next(s: Sys, a: Step): Sys
    requires Enabled(s, a)
  {
    match a
    case Read(t, count) => DoRead(s, s.v, t, count, "")
    case Write(t, src) => DoWrite(s, s.v, t, src, 0)
    case Signal(t) => s.(v := s.v.(queue := Remove(s.v.queue, t)))
    case Resume(t) =>
      match s.calls[t]
      case ReadCall(count, got) => DoRead(s, s.v.(readers := s.v.readers - 1), t, count, got)
      case WriteCall(src, sent) => DoWrite(s, s.v.(writers := s.v.writers - 1), t, src, sent)
  }

  const Init: Sys := Sys(View("", 0, 0, []), map[], "", "", [])

  // --------------------------------------------------------------------------- proofs

  /** The state when task `t` runs: `s` without the call of `t`, which is awake. */
  ghost predicate Ready(s: Sys, t: Tid) {
    Inv(s) && t !in s.calls
  }

  lemma Regroup(a: string, b: string, n: nat)
    requires n <= |b|
    ensures (a + b[..n]) + b[n..] == a + b
  {
    assert b == b[..n] + b[n..];
  }

  lemma ReadFifo(s: Sys, t: Tid, count: nat, got: string)
    requires s.put == s.taken + s.v.ring && |s.v.ring| <= PIPE_SIZE && |got| <= count
    ensures var s' := DoRead(s, s.v, t, count, got);
            s'.put == s'.taken + s'.v.ring && |s'.v.ring| <= PIPE_SIZE
  {
    var n := Min(count - |got|, |s.v.ring|);
    assert (got + s.v.ring[..n])[|got|..] == s.v.ring[..n];
    Regroup(s.taken, s.v.ring, n);
  }

  lemma ReadFacts(v: View, t: Tid, count: nat, got: string)
    requires |got| <= count
    ensures var (v', got', out) := ReadRun(v, t, count, got);
      && (out == Asleep ==> |got'| < count && v' == ReaderSleeps(v.(ring := []), t))
      && (out == Returned ==> v'.readers == v.readers && v'.writers == v.writers && (v'.queue == [] || v' == v))
  {
    assert v.ring[0..] == v.ring && v.ring[|v.ring|..] == [];
  }

  lemma ReadKeeps(s: Sys, t: Tid, count: nat, got: string)
    requires Ready(s, t) && |got| <= count && (count > 0 ==> |got| < count)
    ensures Inv(DoRead(s, s.v, t, count, got))
  {
    ReadFacts(s.v, t, count, got);
    ReadFifo(s, t, count, got);
    var s' := DoRead(s, s.v, t, count, got);
    if ReadRun(s.v, t, count, got).2 == Asleep {
      ReaderJoins(s, t, s'.calls[t], s');
    } else {
      assert s.calls - {t} == s.calls;
      CallReturns(s, t, s');
    }
  }

  /** A task that finds the ring empty joins the readers asleep. */
  lemma ReaderJoins(s: Sys, t: Tid, c: Call, s': Sys)
    requires Ready(s, t) && c.ReadCall? && s'.calls == s.calls[t := c] && s'.v == ReaderSleeps(s.v.(ring := []), t)
    requires s'.put == s'.taken + s'.v.ring
    ensures Inv(s')
  {
    CountJoins(s.calls, t, c);
    QueueJoins(s.v.queue, t);
    NoneOf(s.calls);
    forall u | u in s'.calls ensures CallOk(s', u) {
      if u != t { assert CallOk(s, u); }
    }
  }

  lemma CountJoins(calls: map<Tid, Call>, t: Tid, c: Call)
    requires t !in calls
    ensures |Readers(calls[t := c])| == |Readers(calls)| + if c.ReadCall? then 1 else 0
    ensures |Writers(calls[t := c])| == |Writers(calls)| + if c.WriteCall? then 1 else 0
  {
    var calls' := calls[t := c];
    forall u ensures u in Readers(calls') <==> u in Readers(calls) || (u == t && c.ReadCall?) {}
    forall u ensures u in Writers(calls') <==> u in Writers(calls) || (u == t && c.WriteCall?) {}
    Grows(Readers(calls), Readers(calls'), t, c.ReadCall?);
    Grows(Writers(calls), Writers(calls'), t, c.WriteCall?);
  }

  lemma Grows(a: set<Tid>, b: set<Tid>, t: Tid, joins: bool)
    requires t !in a && forall u :: u in b <==> u in a || (u == t && joins)
    ensures |b| == |a| + if joins then 1 else 0
  {
    assert b == if joins then a + {t} else a;
  }

  lemma QueueJoins(q: seq<Tid>, t: Tid)
    requires NoDup(q)
    ensures NoDup([] + [t]) && (t !in q ==> NoDup(q + [t]))
  {
    if t !in q {
      forall i, j | 0 <= i < j < |q + [t]| ensures (q + [t])[i] != (q + [t])[j] { assert q[i] in q; }
    }
  }

  lemma CallReturns(s: Sys, t: Tid, s': Sys)
    requires Ready(s, t) && s'.calls == s.calls && s'.v.readers == s.v.readers && s'.v.writers == s.v.writers
    requires (s'.v.queue == [] || s'.v == s.v) && |s'.v.ring| <= PIPE_SIZE && s'.put == s'.taken + s'.v.ring
    ensures Inv(s')
  {
    forall u | u in s'.calls ensures CallOk(s', u) { assert CallOk(s, u); }
  }

  lemma NoneOf(calls: map<Tid, Call>)
    ensures |Writers(calls)| == 0 ==> forall t :: t in calls ==> calls[t].ReadCall?
    ensures |Readers(calls)| == 0 ==> forall t :: t in calls ==> calls[t].WriteCall?
  {
    if t :| t in calls && calls[t].WriteCall? { assert t in Writers(calls); }
    if t :| t in calls && calls[t].ReadCall? { assert t in Readers(calls); }
  }

  lemma WriteFacts(v: View, t: Tid, src: string, sent: nat)
    requires sent <= |src|
    ensures var (v', sent', out) := WriteRun(v, t, src, sent);
      && v'.ring == v.ring + src[sent..sent'] && (|v.ring| <= PIPE_SIZE ==> |v'.ring| <= PIPE_SIZE)
      && (out == Asleep ==> sent' < |src| && v' == WriterSleeps(v.(ring := v'.ring), t))
      && (out == Asleep && |v.ring| <= PIPE_SIZE ==> |v'.ring| == PIPE_SIZE)
      && (out == Returned ==> v'.readers == v.readers && v'.writers == v.writers && (v'.queue == [] || v' == v))
  {
    assert v.ring + src[sent..sent] == v.ring;
  }

  lemma WriteKeeps(s: Sys, t: Tid, src: string, sent: nat)
    requires Ready(s, t) && sent <= |src| && (|src| > 0 ==> sent < |src|)
    ensures Inv(DoWrite(s, s.v, t, src, sent))
  {
    WriteFacts(s.v, t, src, sent);
    var s' := DoWrite(s, s.v, t, src, sent);
    assert s'.put == s'.taken + s'.v.ring;
    if WriteRun(s.v, t, src, sent).2 == Asleep {
      WriterJoins(s, t, s'.calls[t], s');
    } else {
      assert s.calls - {t} == s.calls;
      CallReturns(s, t, s');
    }
  }

  /** A task that finds the ring full joins the writers asleep. */
  lemma WriterJoins(s: Sys, t: Tid, c: Call, s': Sys)
    requires Ready(s, t) && c.WriteCall? && s'.calls == s.calls[t := c]
    requires |s'.v.ring| == PIPE_SIZE && s'.v == WriterSleeps(s.v.(ring := s'.v.ring), t)
    requires s'.put == s'.taken + s'.v.ring
    ensures Inv(s')
  {
    CountJoins(s.calls, t, c);
    QueueJoins(s.v.queue, t);
    NoneOf(s.calls);
    forall u | u in s'.calls ensures CallOk(s', u) {
      if u != t { assert CallOk(s, u); }
    }
  }

  lemma WithdrawReader(s: Sys, t: Tid)
    requires Inv(s) && t in s.calls && t !in s.v.queue && s.calls[t].ReadCall?
    ensures Ready(s.(v := s.v.(readers := s.v.readers - 1), calls := s.calls - {t}), t)
  {
    var calls' := s.calls - {t};
    assert Readers(calls') == Readers(s.calls) - {t} && Writers(calls') == Writers(s.calls);
    var s' := s.(v := s.v.(readers := s.v.readers - 1), calls := calls');
    forall u | u in s'.calls ensures CallOk(s', u) { assert CallOk(s, u); }
  }

  lemma WithdrawWriter(s: Sys, t: Tid)
    requires Inv(s) && t in s.calls && t !in s.v.queue && s.calls[t].WriteCall?
    ensures Ready(s.(v := s.v.(writers := s.v.writers - 1), calls := s.calls - {t}), t)
  {
    var calls' := s.calls - {t};
    assert Writers(calls') == Writers(s.calls) - {t} && Readers(calls') == Readers(s.calls);
    var s' := s.(v := s.v.(writers := s.v.writers - 1), calls := calls');
    forall u | u in s'.calls ensures CallOk(s', u) { assert CallOk(s, u); }
  }

  /** Taking a woken call out of the system leaves a consistent state. */
  lemma Withdraw(s: Sys, t: Tid)
    requires Inv(s) && t in s.calls && t !in s.v.queue
    ensures s.calls[t].ReadCall? ==> Ready(s.(v := s.v.(readers := s.v.readers - 1), calls := s.calls - {t}), t)
    ensures s.calls[t].WriteCall? ==> Ready(s.(v := s.v.(writers := s.v.writers - 1), calls := s.calls - {t}), t)
  {
    if s.calls[t].ReadCall? { WithdrawReader(s, t); } else { WithdrawWriter(s, t); }
  }

  lemma SignalKeeps(s: Sys, t: Tid)
    requires Inv(s) && t in s.v.queue
    ensures Inv(Next(s, Signal(t)))
  {
    RemoveOk(s.v.queue, t);
    var s' := Next(s, Signal(t));
    forall u | u in s'.calls ensures CallOk(s', u) { assert CallOk(s, u); }
  }

  lemma ResumeKeeps(s: Sys, t: Tid)
    requires Inv(s) && t in s.calls && t !in s.v.queue
    ensures Inv(Next(s, Resume(t)))
  {
    assert CallOk(s, t);
    Withdraw(s, t);
    match s.calls[t]
    case ReadCall(count, got) =>
      var r := s.(v := s.v.(readers := s.v.readers - 1), calls := s.calls - {t});
      ReadKeeps(r, t, count, got);
      var c := ReadCall(count, ReadRun(r.v, t, count, got).1);
      if c.Unfinished() { assert (s.calls - {t})[t := c] == s.calls[t := c]; }
    case WriteCall(src, sent) =>
      var r := s.(v := s.v.(writers := s.v.writers - 1), calls := s.calls - {t});
      WriteKeeps(r, t, src, sent);
      var c := WriteCall(src, WriteRun(r.v, t, src, sent).1);
      if c.Unfinished() { assert (s.calls - {t})[t := c] == s.calls[t := c]; }
  }

  lemma NextKeeps(s: Sys, a: Step)
    requires Inv(s) && Enabled(s, a)
    ensures Inv(Next(s, a))
  {
    match a
    case Read(t, count) => ReadKeeps(s, t, count, "");
    case Write(t, src) => WriteKeeps(s, t, src, 0);
    case Resume(t) => ResumeKeeps(s, t);
    case Signal(t) => SignalKeeps(s, t);
  }

  // ----------------------------------------------------------------------------- runs

  /** Some interleaving `run` leads from a new pipe to `s`. */
  ghost predicate Reaches(run: seq<Step>, s: Sys) {
    if run == [] then s == Init
    else exists r :: Reaches(Front(run), r) && Follows(r, Last(run), s)
  }

  ghost predicate Follows(r: Sys, a: Step, s: Sys) {
    Enabled(r, a) && s == Next(r, a)
  }

  /** Every interleaving keeps the invariant. */
  lemma {:induction false} RunInv(run: seq<Step>, s: Sys)
    requires Reaches(run, s)
    ensures Inv(s)
    decreases |run|
  {
    if run != [] {
      var r :| Reaches(Front(run), r) && Follows(r, Last(run), s);
      RunInv(Front(run), r);
      NextKeeps(r, Last(run));
    }
  }

  /** The ring is a bounded first-in first-out queue over the whole run: what readers
      have received, then what is queued, is what writers have handed over. */
  lemma RunFifo(run: seq<Step>, s: Sys)
    requires Reaches(run, s)
    ensures s.put == s.taken + s.v.ring && |s.v.ring| <= PIPE_SIZE
    ensures s.taken <= s.put
  {
    RunInv(run, s);
  }

  predicate ReaderAsleep(s: Sys, t: Tid) {
    t in s.v.queue && t in s.calls && s.calls[t].ReadCall?
  }

  predicate WriterAsleep(s: Sys, t: Tid) {
    t in s.v.queue && t in s.calls && s.calls[t].WriteCall?
  }

  /** No wake-up is ever lost: a reader sleeps only on an empty ring, a writer only on
      a full one, so a reader and a writer are never both asleep. */
  lemma NoLostWakeup(run: seq<Step>, s: Sys, t: Tid, u: Tid)
    requires Reaches(run, s)
    ensures ReaderAsleep(s, t) ==> s.v.ring == []
    ensures WriterAsleep(s, u) ==> |s.v.ring| == PIPE_SIZE
    ensures !(ReaderAsleep(s, t) && WriterAsleep(s, u))
  {
    RunInv(run, s);
    if t in s.calls { assert CallOk(s, t); }
    if u in s.calls { assert CallOk(s, u); }
  }

  /** The system cannot get stuck while a reader and a writer are both waiting: one of
      them can be resumed, and then moves at least one byte or lets the other do so. */
  lemma NoDeadlock(run: seq<Step>, s: Sys, t: Tid, u: Tid)
    requires Reaches(run, s)
    requires t in s.calls && s.calls[t].ReadCall? && u in s.calls && s.calls[u].WriteCall?
    ensures Enabled(s, Resume(t)) || Enabled(s, Resume(u))
  {
    NoLostWakeup(run, s, t, u);
  }

  /** A resumed call makes progress whenever the ring allows any. */
  lemma ResumeProgress(run: seq<Step>, s: Sys, t: Tid)
    requires Reaches(run, s) && Enabled(s, Resume(t))
    ensures Inv(s)
    ensures s.calls[t].ReadCall? && s.v.ring != [] ==> |Next(s, Resume(t)).taken| > |s.taken|
    ensures s.calls[t].WriteCall? && |s.v.ring| < PIPE_SIZE ==> |Next(s, Resume(t)).put| > |s.put|
  {
    RunInv(run, s);
    assert CallOk(s, t);
  }
}
