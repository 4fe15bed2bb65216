/** What the calls on a pipe do for their callers. A log watches the ring alone: it notes for
    each call the bytes that left or entered the ring while the call ran, over all its sleeps. */
module PipeCalls {
  import opened Common
  import opened Pipe

  /** What a task asked for, and the bytes moved for it so far. */
  datatype Entry = Entry(ask: Step, moved: string)

  /** The calls in progress, and those that have returned, in the order of their returns. */
  datatype Log = Log(open: map<Tid, Entry>, closed: seq<Entry>)

  /** The bytes that left the ring, or entered it. */
  function Gone(ring: string, ring': string): string {
    if |ring'| <= |ring| then ring[..|ring| - |ring'|] else ""
  }

  function Come(ring: string, ring': string): string {
    if |ring| <= |ring'| then ring'[|ring|..] else ""
  }

  function Moved(ask: Step, s: Sys, s': Sys): string {
    if ask.Read? then Gone(s.v.ring, s'.v.ring) else Come(s.v.ring, s'.v.ring)
  }

  /** The log after a stretch of the call of `t`. */
  function Noted(log: Log, t: Tid, e: Entry, s': Sys): Log {
    if t in s'.calls then log.(open := log.open[t := e])
    else Log(log.open - {t}, log.closed + [e])
  }

  predicate Loggable(log: Log, a: Step) {
    a.Resume? ==> a.t in log.open
  }

  function Observe(log: Log, s: Sys, a: Step, s': Sys): Log
    requires Loggable(log, a)
  {
    match a
    case Read(t, _) => Noted(log, t, Entry(a, Moved(a, s, s')), s')
    case Write(t, _) => Noted(log, t, Entry(a, Moved(a, s, s')), s')
    case Resume(t) =>
      var e := log.open[t];
      Noted(log, t, Entry(e.ask, e.moved + Moved(e.ask, s, s')), s')
    case Signal(_) => log
  }

  /** `run` leads from a new pipe to `s`, and its log is `log`. */
  ghost predicate Traced(run: seq<Step>, s: Sys, log: Log) {
    if run == [] then s == Init && log == Log(map[], [])
    else exists r, l :: Traced(Front(run), r, l) && Extends(r, l, Last(run), s, log)
  }

  ghost predicate Extends(r: Sys, l: Log, a: Step, s: Sys, log: Log) {
    Follows(r, a, s) && Loggable(l, a) && log == Observe(l, r, a, s)
  }

  // ----------------------------------------------------------------- what the log shows

  /** A call in progress remembers exactly the bytes moved for it, and has not moved all. */
  ghost predicate PendingOk(e: Entry, t: Tid, c: Call) {
    match c
    case ReadCall(count, got) => e.ask == Read(t, count) && got == e.moved && |e.moved| < count
    case WriteCall(src, sent) => e.ask == Write(t, src) && sent < |src| && e.moved == src[..sent]
  }

  /** A read returns exactly the bytes moved for it, at least one and at most as many as it asked
      for; a write returns when all of its bytes have been moved, in order. */
  ghost predicate ReturnOk(e: Entry, d: Return) {
    match d
    case ReadReturn(t, count, text) =>
      && e.ask == Read(t, count) && text == e.moved && |text| <= count && (count > 0 ==> text != "")
    case WriteReturn(t, src, sent) => e.ask == Write(t, src) && e.moved == src && sent == |src|
  }

  ghost predicate Told(s: Sys, log: Log) {
    && log.open.Keys == s.calls.Keys && |log.closed| == |s.done|
    && (forall t {:trigger s.calls[t]} :: t in s.calls ==> PendingOk(log.open[t], t, s.calls[t]))
    && (forall i :: 0 <= i < |s.done| ==> ReturnOk(log.closed[i], s.done[i]))
  }

  /** Bytes of `got` after one more piece of the ring. */
  lemma ReadMoves(s: Sys, v: View, t: Tid, count: nat, got: string)
    requires |got| <= count && v.ring == s.v.ring
    ensures var (v', got', out) := ReadRun(v, t, count, got);
      && got' == got + Gone(s.v.ring, v'.ring) && |got'| <= count
      && (out == Asleep ==> |got'| < count) && (out == Returned && count > 0 ==> got' != "")
  {
    var n := Min(count - |got|, |v.ring|);
    assert |v.ring[n..]| == |v.ring| - n;
  }

  lemma WriteMoves(s: Sys, v: View, t: Tid, src: string, sent: nat)
    requires sent <= |src| && v.ring == s.v.ring
    ensures var (v', sent', out) := WriteRun(v, t, src, sent);
      && sent <= sent' <= |src| && src[..sent'] == src[..sent] + Come(s.v.ring, v'.ring)
      && (out == Asleep ==> sent' < |src|) && (out == Returned ==> sent' == |src|)
  {
    var n := Min(|src| - sent, Room(v));
    assert src[..sent + n] == src[..sent] + src[sent..sent + n];
    assert (v.ring + src[sent..sent + n])[|v.ring|..] == src[sent..sent + n];
  }

  /** A stretch of a read that has moved `got` before. */
  lemma ReadTold(s: Sys, log: Log, v: View, t: Tid, count: nat, got: string)
    requires Told(s.(calls := s.calls - {t}), log.(open := log.open - {t}))
    requires |got| <= count && v.ring == s.v.ring && (count > 0 ==> |got| < count)
    ensures var s' := DoRead(s, v, t, count, got);
      Told(s', Noted(log, t, Entry(Read(t, count), got + Gone(s.v.ring, s'.v.ring)), s'))
  {
    ReadMoves(s, v, t, count, got);
    var s' := DoRead(s, v, t, count, got);
    var e := Entry(Read(t, count), got + Gone(s.v.ring, s'.v.ring));
    NotedTold(s, log, t, e, s');
  }

  lemma WriteTold(s: Sys, log: Log, v: View, t: Tid, src: string, sent: nat)
    requires Told(s.(calls := s.calls - {t}), log.(open := log.open - {t}))
    requires sent <= |src| && v.ring == s.v.ring
    ensures var s' := DoWrite(s, v, t, src, sent);
      Told(s', Noted(log, t, Entry(Write(t, src), src[..sent] + Come(s.v.ring, s'.v.ring)), s'))
  {
    WriteMoves(s, v, t, src, sent);
    var s' := DoWrite(s, v, t, src, sent);
    assert src[..|src|] == src;
    var e := Entry(Write(t, src), src[..sent] + Come(s.v.ring, s'.v.ring));
    NotedTold(s, log, t, e, s');
  }

  /** The other calls and returns stay as they are. */
  lemma NotedTold(s: Sys, log: Log, t: Tid, e: Entry, s': Sys)
    requires Told(s.(calls := s.calls - {t}), log.(open := log.open - {t}))
    requires s'.calls - {t} == s.calls - {t}
    requires if t in s'.calls then PendingOk(e, t, s'.calls[t]) && s'.done == s.done
             else exists d :: s'.done == s.done + [d] && ReturnOk(e, d)
    ensures Told(s', Noted(log, t, e, s'))
  {
    var r, l := s.(calls := s.calls - {t}), log.(open := log.open - {t});
    var log' := Noted(log, t, e, s');
    forall u | u in s'.calls ensures u in log'.open && PendingOk(log'.open[u], u, s'.calls[u]) {
      if u != t {
        assert u in (s'.calls - {t}) && u in r.calls && (s'.calls - {t})[u] == r.calls[u];
        assert l.open[u] == log.open[u];
      }
    }
    forall u | u in log'.open ensures u in s'.calls {
      if u != t { assert u in l.open && u in r.calls && u in s'.calls - {t}; }
    }
  }

  lemma ToldWithout(s: Sys, log: Log, t: Tid)
    requires Told(s, log)
    ensures Told(s.(calls := s.calls - {t}), log.(open := log.open - {t}))
  {
  }

  lemma FirstReadTold(s: Sys, log: Log, t: Tid, count: nat)
    requires Told(s, log) && Enabled(s, Read(t, count))
    ensures var s' := Next(s, Read(t, count)); Told(s', Observe(log, s, Read(t, count), s'))
  {
    ToldWithout(s, log, t);
    ReadTold(s, log, s.v, t, count, "");
    var s' := Next(s, Read(t, count));
    assert "" + Gone(s.v.ring, s'.v.ring) == Gone(s.v.ring, s'.v.ring);
  }

  lemma FirstWriteTold(s: Sys, log: Log, t: Tid, src: string)
    requires Told(s, log) && Enabled(s, Write(t, src))
    ensures var s' := Next(s, Write(t, src)); Told(s', Observe(log, s, Write(t, src), s'))
  {
    ToldWithout(s, log, t);
    WriteTold(s, log, s.v, t, src, 0);
    var s' := Next(s, Write(t, src));
    assert src[..0] + Come(s.v.ring, s'.v.ring) == Come(s.v.ring, s'.v.ring);
  }

  /** What was noted of a sleeping call is what it remembers. */
  lemma PendingEntry(s: Sys, log: Log, t: Tid)
    requires Told(s, log) && t in s.calls
    ensures t in log.open && PendingOk(log.open[t], t, s.calls[t])
  {
  }

  lemma ResumedReadTold(s: Sys, log: Log, t: Tid, count: nat, got: string)
    requires Told(s, log) && t in s.calls && s.calls[t] == ReadCall(count, got) && t in log.open
    ensures var s' := DoRead(s, s.v.(readers := s.v.readers - 1), t, count, got);
      Told(s', Observe(log, s, Resume(t), s'))
  {
    ToldWithout(s, log, t);
    PendingEntry(s, log, t);
    ReadTold(s, log, s.v.(readers := s.v.readers - 1), t, count, got);
  }

  lemma ResumedWriteTold(s: Sys, log: Log, t: Tid, src: string, sent: nat)
    requires Told(s, log) && t in s.calls && s.calls[t] == WriteCall(src, sent) && t in log.open
    ensures var s' := DoWrite(s, s.v.(writers := s.v.writers - 1), t, src, sent);
      Told(s', Observe(log, s, Resume(t), s'))
  {
    ToldWithout(s, log, t);
    PendingEntry(s, log, t);
    WriteTold(s, log, s.v.(writers := s.v.writers - 1), t, src, sent);
  }

  lemma ResumeTold(s: Sys, log: Log, t: Tid)
    requires Told(s, log) && Enabled(s, Resume(t))
    ensures Loggable(log, Resume(t))
    ensures var s' := Next(s, Resume(t)); Told(s', Observe(log, s, Resume(t), s'))
  {
    PendingEntry(s, log, t);
    if s.calls[t].ReadCall? {
      ResumedReadTold(s, log, t, s.calls[t].count, s.calls[t].got);
    } else {
      ResumedWriteTold(s, log, t, s.calls[t].src, s.calls[t].sent);
    }
  }

  lemma SignalTold(s: Sys, log: Log, t: Tid)
    requires Told(s, log) && Enabled(s, Signal(t))
    ensures Told(Next(s, Signal(t)), log)
  {
  }

  lemma StepTold(s: Sys, log: Log, a: Step)
    requires Told(s, log) && Enabled(s, a)
    ensures Loggable(log, a) && Told(Next(s, a), Observe(log, s, a, Next(s, a)))
  {
    match a
    case Read(t, count) => FirstReadTold(s, log, t, count);
    case Write(t, src) => FirstWriteTold(s, log, t, src);
    case Signal(t) => SignalTold(s, log, t);
    case Resume(t) => ResumeTold(s, log, t);
  }

  /** In every run, whatever the interleaving: what a call remembers through its sleeps, and what
      it returns, are exactly the bytes that were moved for it. */
  lemma {:induction false} RunTold(run: seq<Step>, s: Sys, log: Log)
    requires Traced(run, s, log)
    ensures Told(s, log)
    decreases |run|
  {
    if run != [] {
      var r, l :| Traced(Front(run), r, l) && Extends(r, l, Last(run), s, log);
      RunTold(Front(run), r, l);
      StepTold(r, l, Last(run));
    }
  }

  /** Every run has a log. */
  lemma {:induction false} RunLogged(run: seq<Step>, s: Sys) returns (log: Log)
    requires Reaches(run, s)
    ensures Traced(run, s, log)
    decreases |run|
  {
    log := Log(map[], []);
    if run != [] {
      var r :| Reaches(Front(run), r) && Follows(r, Last(run), s);
      var l := RunLogged(Front(run), r);
      RunTold(Front(run), r, l);
      StepTold(r, l, Last(run));
      log := Observe(l, r, Last(run), s);
      assert Extends(r, l, Last(run), s, log);
    }
  }

  // ------------------------------------------------------ when calls return, sleep and wake

  /** The calls of the other tasks. */
  ghost function Others(s: Sys, t: Tid): map<Tid, Call> {
    s.calls - {t}
  }

  ghost predicate AnyReader(calls: map<Tid, Call>) {
    exists u :: u in calls && calls[u].ReadCall?
  }

  ghost predicate AnyWriter(calls: map<Tid, Call>) {
    exists u :: u in calls && calls[u].WriteCall?
  }

  /** A stretch of a read that has `got` so far: it takes the front of the ring, as much as it
      wants. It returns if it has all, or has something while no writer is in a call; then it
      wakes everybody if it has anything. Otherwise it sleeps, after waking everybody if a writer
      is in a call. */
  ghost predicate ReadStretch(s: Sys, t: Tid, count: nat, got: string, s': Sys) {
    && |s'.v.ring| <= |s.v.ring|
    && var n := |s.v.ring| - |s'.v.ring|;
       var got' := got + s.v.ring[..n];
       && s'.v.ring == s.v.ring[n..] && (|got'| == count || (|got'| < count && s'.v.ring == ""))
       && Others(s', t) == Others(s, t)
       && if |got'| == count || (got' != "" && !AnyWriter(Others(s, t))) then
            && t !in s'.calls && s'.done == s.done + [ReadReturn(t, count, got')]
            && s'.v.queue == (if got' != "" then [] else s.v.queue)
          else
            && t in s'.calls && s'.calls[t] == ReadCall(count, got') && s'.done == s.done
            && s'.v.queue == (if AnyWriter(Others(s, t)) then [] else s.v.queue) + [t]
  }

  /** The same for a write that has queued `sent` bytes so far: it fills the ring, returns when
      all is queued, and sleeps otherwise. */
  ghost predicate WriteStretch(s: Sys, t: Tid, src: string, sent: nat, s': Sys)
    requires sent <= |src|
  {
    && |s'.v.ring| >= |s.v.ring| && sent + (|s'.v.ring| - |s.v.ring|) <= |src|
    && var sent' := sent + (|s'.v.ring| - |s.v.ring|);
       && s'.v.ring == s.v.ring + src[sent..sent'] && (sent' == |src| || |s'.v.ring| == PIPE_SIZE)
       && Others(s', t) == Others(s, t)
       && if sent' == |src| then
            && t !in s'.calls && s'.done == s.done + [WriteReturn(t, src, sent')]
            && s'.v.queue == (if sent' > 0 then [] else s.v.queue)
          else
            && t in s'.calls && s'.calls[t] == WriteCall(src, sent') && s'.done == s.done
            && s'.v.queue == (if AnyReader(Others(s, t)) then [] else s.v.queue) + [t]
  }

  lemma CountsSay(calls: map<Tid, Call>)
    ensures |Readers(calls)| > 0 <==> AnyReader(calls)
    ensures |Writers(calls)| > 0 <==> AnyWriter(calls)
  {
    NoneOf(calls);
    if u :| u in calls && calls[u].ReadCall? { assert u in Readers(calls); }
    if u :| u in calls && calls[u].WriteCall? { assert u in Writers(calls); }
    if |Readers(calls)| > 0 { var u :| u in Readers(calls); }
    if |Writers(calls)| > 0 { var u :| u in Writers(calls); }
  }

  /** The counters of the inode are those of the other tasks' calls. */
  ghost predicate Counted(s: Sys, v: View, t: Tid) {
    && v.ring == s.v.ring && v.queue == s.v.queue && |v.ring| <= PIPE_SIZE
    && v.readers == |Readers(Others(s, t))| && v.writers == |Writers(Others(s, t))|
  }

  /** What is left of the ring and what the call has. */
  lemma ReadPiece(v: View, t: Tid, count: nat, got: string)
    requires |got| <= count
    ensures var (v', got', out) := ReadRun(v, t, count, got);
      && |v'.ring| <= |v.ring|
      && var n := |v.ring| - |v'.ring|;
         && v'.ring == v.ring[n..] && got' == got + v.ring[..n]
         && (|got'| == count || (|got'| < count && v'.ring == ""))
  {
    var n := Min(count - |got|, |v.ring|);
    assert |v.ring[n..]| == |v.ring| - n;
  }

  lemma ReadEffect(s: Sys, v: View, t: Tid, count: nat, got: string)
    requires Counted(s, v, t) && |got| <= count
    ensures ReadStretch(s, t, count, got, DoRead(s, v, t, count, got))
  {
    CountsSay(Others(s, t));
    ReadPiece(v, t, count, got);
    var s' := DoRead(s, v, t, count, got);
    assert Others(s', t) == Others(s, t);
  }

  lemma WritePiece(v: View, t: Tid, src: string, sent: nat)
    requires sent <= |src| && |v.ring| <= PIPE_SIZE
    ensures var (v', sent', out) := WriteRun(v, t, src, sent);
      && sent <= sent' <= |src| && v'.ring == v.ring + src[sent..sent'] && |v'.ring| == |v.ring| + (sent' - sent)
      && (sent' == |src| || |v'.ring| == PIPE_SIZE)
  {
  }

  lemma WriteEffect(s: Sys, v: View, t: Tid, src: string, sent: nat)
    requires Counted(s, v, t) && sent <= |src|
    ensures WriteStretch(s, t, src, sent, DoWrite(s, v, t, src, sent))
  {
    CountsSay(Others(s, t));
    WritePiece(v, t, src, sent);
    var s' := DoWrite(s, v, t, src, sent);
    assert Others(s', t) == Others(s, t);
  }

  ghost predicate Effect(s: Sys, a: Step, s': Sys)
    requires Enabled(s, a)
  {
    match a
    case Read(t, count) => ReadStretch(s, t, count, "", s')
    case Write(t, src) => WriteStretch(s, t, src, 0, s')
    case Resume(t) =>
      match s.calls[t] {
        case ReadCall(count, got) => ReadStretch(s, t, count, got, s')
        case WriteCall(src, sent) => WriteStretch(s, t, src, sent, s')
      }
    case Signal(t) =>
      && s'.v.ring == s.v.ring && s'.calls == s.calls && s'.done == s.done
      && (forall u :: u in s'.v.queue <==> u in s.v.queue && u != t)
  }

  /** In every run each step does this and nothing else to the calls. */
  lemma RunEffect(run: seq<Step>, s: Sys, a: Step)
    requires Reaches(run, s) && Enabled(s, a)
    ensures Effect(s, a, Next(s, a))
  {
    RunInv(run, s);
    match a
    case Read(t, count) =>
      assert Others(s, t) == s.calls;
      ReadEffect(s, s.v, t, count, "");
    case Write(t, src) =>
      assert Others(s, t) == s.calls;
      WriteEffect(s, s.v, t, src, 0);
    case Signal(t) => RemoveOk(s.v.queue, t);
    case Resume(t) =>
      Withdraw(s, t);
      match s.calls[t]
      case ReadCall(count, got) => ReadEffect(s, s.v.(readers := s.v.readers - 1), t, count, got);
      case WriteCall(src, sent) => WriteEffect(s, s.v.(writers := s.v.writers - 1), t, src, sent);
  }
}
