/** Timer events: a queue in order of expiry, served at every tick. */
module Timer {
  import opened Common

  /** An event with its expiry; `stamp` numbers the insertions. */
  datatype Event = Event(id: nat, expires: nat, stamp: nat)

  /** What an event's callback does to the event itself: nothing, or queue it again for a
      later tick with a new number. */
  type Callback = Event -> Option<Event>

  // ------------------------------------------------------------------------ operations

  /** Where a new event goes: before the first one that expires later. */
  function Position(q: seq<Event>, e: Event): (r: nat)
    ensures r <= |q|
    ensures forall i :: 0 <= i < r ==> q[i].expires <= e.expires
    ensures r < |q| ==> q[r].expires > e.expires
  {
    if q == [] || q[0].expires > e.expires then 0 else 1 + Position(q[1..], e)
  }

  function Add(q: seq<Event>, e: Event): (r: seq<Event>)
    ensures |r| == |q| + 1
  {
    if q == [] || q[0].expires > e.expires then [e] + q else [q[0]] + Add(q[1..], e)
  }

  lemma {:induction false} AddAt(q: seq<Event>, e: Event)
    ensures Add(q, e) == q[..Position(q, e)] + [e] + q[Position(q, e)..]
  {
    if q != [] && q[0].expires <= e.expires {
      AddAt(q[1..], e);
      var p := Position(q[1..], e);
      assert q[..p + 1] == [q[0]] + q[1..][..p] && q[p + 1..] == q[1..][p..];
    }
  }

  /** The events of `q` that have expired at `tick`, in queue order. */
  function Due(q: seq<Event>, tick: nat): seq<Event> {
    if q == [] then [] else (if q[0].expires <= tick then [q[0]] else []) + Due(q[1..], tick)
  }

  /** The events of `q` that expire later. */
  function Later(q: seq<Event>, tick: nat): seq<Event> {
    if q == [] then []
    else if q[0].expires > tick then [q[0]] + Later(q[1..], tick)
    else Later(q[1..], tick)
  }

  lemma {:induction false} DueConcat(a: seq<Event>, b: seq<Event>, tick: nat)
    ensures Due(a + b, tick) == Due(a, tick) + Due(b, tick)
  {
    if a == [] {
      assert a + b == b;
    } else {
      assert (a + b)[1..] == a[1..] + b;
      DueConcat(a[1..], b, tick);
      var h := if a[0].expires <= tick then [a[0]] else [];
      assert h + (Due(a[1..], tick) + Due(b, tick)) == (h + Due(a[1..], tick)) + Due(b, tick);
    }
  }

  lemma DueInsert(a: seq<Event>, e: Event, b: seq<Event>, tick: nat)
    requires e.expires > tick
    ensures Due(a + [e] + b, tick) == Due(a + b, tick)
  {
    DueConcat(a + [e], b, tick);
    DueConcat(a, [e], tick);
    DueConcat(a, b, tick);
    assert Due([e], tick) == [];
  }

  /** `q` without the event at `at`. */
  function Delete(q: seq<Event>, at: nat): (r: seq<Event>)
    requires at < |q|
    ensures |r| == |q| - 1
    ensures forall i :: 0 <= i < |r| ==> r[i] == q[if i < at then i else i + 1]
  {
    q[..at] + q[at + 1..]
  }

  /** Callbacks queue events again only for later ticks. */
  ghost predicate Forward(again: Callback, tick: nat) {
    forall e :: again(e).Some? ==> again(e).value.expires > tick
  }

  /** The queue after the event at `p` has fired, and the place the walk has reached: an
      event queued again in front of that place shifts it. */
  function Fire(q: seq<Event>, p: nat, again: Callback): (r: (seq<Event>, nat))
    requires p < |q|
    ensures r.1 <= |r.0|
  {
    var rest := Delete(q, p);
    match again(q[p])
    case None => (rest, p)
    case Some(e) => (Add(rest, e), if Position(rest, e) <= p then p + 1 else p)
  }

  /** What follows the place of the walk when `e` is queued into `rest`. */
  lemma AddBeyond(rest: seq<Event>, e: Event, p: nat, tick: nat)
    requires p <= |rest| && e.expires > tick
    ensures var p' := if Position(rest, e) <= p then p + 1 else p;
      Due(Add(rest, e)[p'..], tick) == Due(rest[p..], tick)
  {
    var r, q' := Position(rest, e), Add(rest, e);
    AddAt(rest, e);
    if r <= p {
      assert q'[p + 1..] == rest[p..];
    } else {
      assert q'[p..] == rest[p..r] + [e] + rest[r..];
      assert rest[p..] == rest[p..r] + rest[r..];
      DueInsert(rest[p..r], e, rest[r..], tick);
    }
  }

  lemma FireDue(q: seq<Event>, p: nat, tick: nat, again: Callback)
    requires p < |q| && Forward(again, tick)
    ensures var (q', p') := Fire(q, p, again); Due(q'[p'..], tick) == Due(q[p + 1..], tick)
  {
    var rest := Delete(q, p);
    assert rest[p..] == q[p + 1..];
    match again(q[p])
    case None =>
    case Some(e) => AddBeyond(rest, e, p, tick);
  }

  lemma DueHead(q: seq<Event>, p: nat, tick: nat)
    requires p < |q|
    ensures Due(q[p..], tick) == (if q[p].expires <= tick then [q[p]] else []) + Due(q[p + 1..], tick)
  {
    assert q[p..][1..] == q[p + 1..];
  }

  /** The walk of `timer_update` from position `p`: what fires, and the queue afterwards. */
  function Walk(q: seq<Event>, p: nat, tick: nat, again: Callback): (seq<Event>, seq<Event>)
    requires p <= |q| && Forward(again, tick)
    decreases |Due(q[p..], tick)|, |q| - p
  {
    if p == |q| then ([], q)
    else
      DueHead(q, p, tick);
      if q[p].expires <= tick then
        FireDue(q, p, tick, again);
        var (q', p') := Fire(q, p, again);
        var (f, r) := Walk(q', p', tick, again);
        ([q[p]] + f, r)
      else Walk(q, p + 1, tick, again)
  }

  function Update(q: seq<Event>, tick: nat, again: Callback): (seq<Event>, seq<Event>)
    requires Forward(again, tick)
  {
    Walk(q, 0, tick, again)
  }

  // ---------------------------------------------------------------------------- theory

  /** What fires is exactly what has expired, once each, in queue order. */
  lemma {:induction false} WalkFires(q: seq<Event>, p: nat, tick: nat, again: Callback)
    requires p <= |q| && Forward(again, tick)
    ensures Walk(q, p, tick, again).0 == Due(q[p..], tick)
    decreases |Due(q[p..], tick)|, |q| - p
  {
    if p < |q| {
      DueHead(q, p, tick);
      if q[p].expires <= tick {
        FireDue(q, p, tick, again);
        var (q', p') := Fire(q, p, again);
        WalkFires(q', p', tick, again);
      } else {
        WalkFires(q, p + 1, tick, again);
      }
    }
  }

  predicate Sorted(q: seq<Event>) {
    forall i, j :: 0 <= i < j < |q| ==> q[i].expires <= q[j].expires
  }

  lemma AddElem(q: seq<Event>, e: Event, i: nat)
    requires i <= |q|
    ensures var p := Position(q, e);
      Add(q, e)[i] == if i < p then q[i] else if i == p then e else q[i - 1]
  {
    AddAt(q, e);
  }

  lemma SortedPair(q: seq<Event>, e: Event, i: nat, j: nat)
    requires Sorted(q) && i < j <= |q|
    ensures Add(q, e)[i].expires <= Add(q, e)[j].expires
  {
    AddElem(q, e, i);
    AddElem(q, e, j);
    var p := Position(q, e);
    if i == p < j - 1 { assert q[p].expires <= q[j - 1].expires; }
  }

  lemma AddSorted(q: seq<Event>, e: Event)
    requires Sorted(q)
    ensures Sorted(Add(q, e))
  {
    var r := Add(q, e);
    forall i, j | 0 <= i < j < |r| ensures r[i].expires <= r[j].expires { SortedPair(q, e, i, j); }
  }

  lemma SortedTail(q: seq<Event>)
    requires Sorted(q) && q != []
    ensures Sorted(q[1..]) && forall i :: 0 <= i < |q[1..]| ==> q[0].expires <= q[1..][i].expires
  {
    assert forall i :: 0 <= i < |q[1..]| ==> q[1..][i] == q[i + 1];
  }

  /** The events the callbacks queue again, one after the other, into `q`. */
  function Requeue(q: seq<Event>, fired: seq<Event>, again: Callback): seq<Event>
    decreases |fired|
  {
    if fired == [] then q
    else match again(fired[0])
         case None => Requeue(q, fired[1..], again)
         case Some(e) => Requeue(Add(q, e), fired[1..], again)
  }

  lemma {:induction false} NoneDue(q: seq<Event>, tick: nat)
    requires forall i :: 0 <= i < |q| ==> q[i].expires > tick
    ensures Due(q, tick) == [] && Later(q, tick) == q
  {
    if q != [] {
      NoneDue(q[1..], tick);
      assert q == [q[0]] + q[1..];
    }
  }

  lemma {:induction false} WalkOver(q: seq<Event>, p: nat, tick: nat, again: Callback)
    requires p <= |q| && Forward(again, tick) && forall i :: p <= i < |q| ==> q[i].expires > tick
    ensures Walk(q, p, tick, again) == ([], q)
    decreases |q| - p
  {
    if p < |q| { WalkOver(q, p + 1, tick, again); }
  }

  /** Expired events do not stand in the way of one that is queued for later. */
  lemma {:induction false} LaterAdd(q: seq<Event>, e: Event, tick: nat)
    requires Sorted(q) && e.expires > tick
    ensures Later(Add(q, e), tick) == Add(Later(q, tick), e)
  {
    if q != [] {
      SortedTail(q);
      var t := q[1..];
      if q[0].expires > e.expires {
        assert ([e] + q)[1..] == q;
        AllLater(q, tick);
      } else {
        LaterAdd(t, e, tick);
        assert ([q[0]] + Add(t, e))[1..] == Add(t, e);
        assert ([q[0]] + Later(t, tick))[1..] == Later(t, tick);
      }
    }
  }

  /** A sorted queue whose first event is not due has nothing due. */
  lemma AllLater(q: seq<Event>, tick: nat)
    requires Sorted(q) && (q == [] || q[0].expires > tick)
    ensures Due(q, tick) == [] && Later(q, tick) == q
    ensures forall i :: 0 <= i < |q| ==> q[i].expires > tick
  {
    forall i | 0 <= i < |q| ensures q[i].expires > tick { if i > 0 { assert q[0].expires <= q[i].expires; } }
    NoneDue(q, tick);
  }

  lemma {:induction false} DueAdd(q: seq<Event>, e: Event, tick: nat)
    requires e.expires > tick
    ensures Due(Add(q, e), tick) == Due(q, tick)
  {
    if q == [] || q[0].expires > e.expires {
      assert ([e] + q)[1..] == q;
    } else {
      DueAdd(q[1..], e, tick);
      assert ([q[0]] + Add(q[1..], e))[1..] == Add(q[1..], e);
    }
  }

  /** The first event fires: what the walk leaves behind is what it leaves of the rest,
      with the event queued again if its callback asks for it. */
  lemma FirstFires(q: seq<Event>, tick: nat, again: Callback)
    requires Sorted(q) && Forward(again, tick) && q != [] && q[0].expires <= tick
    ensures again(q[0]).None? ==> Update(q, tick, again).1 == Update(q[1..], tick, again).1
    ensures again(q[0]).Some? ==> Update(q, tick, again).1 == Update(Add(q[1..], again(q[0]).value), tick, again).1
  {
    var t := q[1..];
    assert Delete(q, 0) == t;
    var (q', p') := Fire(q, 0, again);
    FireDue(q, 0, tick, again);
    assert Walk(q, 0, tick, again).1 == Walk(q', p', tick, again).1;
    if again(q[0]).Some? && p' == 1 {
      var e := again(q[0]).value;
      SortedTail(q);
      AddSorted(t, e);
      AllLater(q', tick);
      WalkOver(q', 1, tick, again);
      WalkOver(q', 0, tick, again);
    }
  }

  /** At a tick exactly the expired events fire, and afterwards the queue holds the later
      ones together with those queued again, in that order of insertion. */
  lemma {:induction false} UpdateIs(q: seq<Event>, tick: nat, again: Callback)
    requires Sorted(q) && Forward(again, tick)
    ensures Update(q, tick, again).0 == Due(q, tick)
    ensures Update(q, tick, again).1 == Requeue(Later(q, tick), Due(q, tick), again)
    decreases |Due(q, tick)|
  {
    assert q[0..] == q;
    WalkFires(q, 0, tick, again);
    if q == [] || q[0].expires > tick {
      AllLater(q, tick);
      WalkOver(q, 0, tick, again);
    } else {
      var t := q[1..];
      SortedTail(q);
      FirstFires(q, tick, again);
      assert ([q[0]] + Due(t, tick))[1..] == Due(t, tick);
      match again(q[0])
      case None => UpdateIs(t, tick, again);
      case Some(e) =>
        LaterAdd(t, e, tick);
        DueAdd(t, e, tick);
        AddSorted(t, e);
        UpdateIs(Add(t, e), tick, again);
    }
  }

  // ----------------------------------------------------------------------- stable order

  /** Earlier expiry first; among equals, the one queued first. */
  predicate Before(a: Event, b: Event) {
    a.expires < b.expires || (a.expires == b.expires && a.stamp < b.stamp)
  }

  ghost predicate Ordered(q: seq<Event>) {
    forall i, j :: 0 <= i < j < |q| ==> Before(q[i], q[j])
  }

  /** Every event of `q` was queued before number `clock`, under a number of its own. */
  ghost predicate Known(q: seq<Event>, clock: nat) {
    && (forall i :: 0 <= i < |q| ==> q[i].stamp < clock)
    && (forall i, j :: 0 <= i < j < |q| ==> q[i].stamp != q[j].stamp)
  }

  lemma AddPair(q: seq<Event>, e: Event, i: nat, j: nat)
    requires Ordered(q) && Known(q, e.stamp) && i < j <= |q|
    ensures Before(Add(q, e)[i], Add(q, e)[j])
  {
    var p := Position(q, e);
    AddElem(q, e, i);
    AddElem(q, e, j);
    if i < p && j < p { assert Before(q[i], q[j]); }
    else if i < p < j { assert Before(q[i], q[j - 1]); }
    else if i == p { assert j - 1 == p || Before(q[p], q[j - 1]); }
    else if i > p { assert Before(q[i - 1], q[j - 1]); }
  }

  /** Inserting the newest event keeps the order. */
  lemma AddOrdered(q: seq<Event>, e: Event)
    requires Ordered(q) && Known(q, e.stamp)
    ensures Ordered(Add(q, e)) && Known(Add(q, e), e.stamp + 1)
  {
    var r := Add(q, e);
    forall i, j | 0 <= i < j < |r| ensures Before(r[i], r[j]) { AddPair(q, e, i, j); }
    AddKnown(q, e);
  }

  lemma AddKnown(q: seq<Event>, e: Event)
    requires Known(q, e.stamp)
    ensures Known(Add(q, e), e.stamp + 1)
  {
    var r := Add(q, e);
    forall i | 0 <= i < |r| ensures r[i].stamp < e.stamp + 1 { AddElem(q, e, i); }
    forall i, j | 0 <= i < j < |r| ensures r[i].stamp != r[j].stamp {
      AddElem(q, e, i);
      AddElem(q, e, j);
    }
  }

  lemma {:induction false} AddContents(q: seq<Event>, e: Event)
    ensures multiset(Add(q, e)) == multiset(q) + multiset{e}
  {
    if q != [] && q[0].expires <= e.expires {
      AddContents(q[1..], e);
      assert q == [q[0]] + q[1..];
    }
  }

  lemma OrderedHead(a: seq<Event>, b: seq<Event>)
    requires Ordered(a) && Ordered(b) && a != [] && b != [] && a[0] in b && b[0] in a
    ensures a[0] == b[0]
  {
    var i :| 0 <= i < |b| && b[i] == a[0];
    var j :| 0 <= j < |a| && a[j] == b[0];
    assert i == 0 || Before(b[0], b[i]);
    assert j == 0 || Before(a[0], a[j]);
  }

  lemma OrderedTail(q: seq<Event>)
    requires Ordered(q) && q != []
    ensures Ordered(q[1..]) && multiset(q[1..]) == multiset(q) - multiset{q[0]}
  {
    var t := q[1..];
    forall i, j | 0 <= i < j < |t| ensures Before(t[i], t[j]) { assert Before(q[i + 1], q[j + 1]); }
    assert q == [q[0]] + t;
  }

  /** The order leaves no choice: the contents of the queue determine it. */
  lemma {:induction false} OrderedUnique(a: seq<Event>, b: seq<Event>)
    requires Ordered(a) && Ordered(b) && multiset(a) == multiset(b)
    ensures a == b
  {
    assert |a| == |multiset(a)| == |b|;
    if a != [] {
      SameMembers(a, b);
      OrderedHead(a, b);
      OrderedTail(a);
      OrderedTail(b);
      OrderedUnique(a[1..], b[1..]);
      assert a == [a[0]] + a[1..] && b == [b[0]] + b[1..];
    }
  }

  lemma SameMembers(a: seq<Event>, b: seq<Event>)
    requires multiset(a) == multiset(b) && a != [] && b != []
    ensures a[0] in b && b[0] in a
  {
    assert a[0] in multiset(b) && b[0] in multiset(a);
  }

  /** In a sorted queue the expired events come first. */
  lemma {:induction false} DueThenLater(q: seq<Event>, tick: nat)
    requires Sorted(q)
    ensures q == Due(q, tick) + Later(q, tick)
  {
    if q != [] {
      SortedTail(q);
      if q[0].expires > tick {
        AllLater(q, tick);
      } else {
        DueThenLater(q[1..], tick);
        assert q == [q[0]] + q[1..];
      }
    }
  }

  /** The events queued again carry fresh numbers in the order of firing. */
  ghost predicate Numbered(fired: seq<Event>, again: Callback, clock: nat, end: nat) {
    && clock <= end
    && (forall i :: 0 <= i < |fired| && again(fired[i]).Some? ==> clock <= again(fired[i]).value.stamp < end)
    && (forall i, j :: 0 <= i < j < |fired| && again(fired[i]).Some? && again(fired[j]).Some? ==>
          again(fired[i]).value.stamp < again(fired[j]).value.stamp)
  }

  lemma NumberedTail(fired: seq<Event>, again: Callback, clock: nat, end: nat)
    requires fired != [] && Numbered(fired, again, clock, end)
    ensures again(fired[0]).None? ==> Numbered(fired[1..], again, clock, end)
    ensures again(fired[0]).Some? ==> Numbered(fired[1..], again, again(fired[0]).value.stamp + 1, end)
  {
    assert forall i :: 0 <= i < |fired[1..]| ==> fired[1..][i] == fired[i + 1];
  }

  /** Nothing in `q` expires by `tick`. */
  ghost predicate AfterTick(q: seq<Event>, tick: nat) {
    forall i :: 0 <= i < |q| ==> q[i].expires > tick
  }

  lemma {:induction false} RequeueOrdered(q: seq<Event>, fired: seq<Event>, again: Callback, clock: nat, end: nat,
                                          tick: nat)
    requires Ordered(q) && Known(q, clock) && AfterTick(q, tick)
    requires Numbered(fired, again, clock, end) && Forward(again, tick)
    ensures var r := Requeue(q, fired, again); Ordered(r) && Known(r, end) && AfterTick(r, tick)
    decreases |fired|
  {
    if fired != [] {
      NumberedTail(fired, again, clock, end);
      match again(fired[0])
      case None => RequeueOrdered(q, fired[1..], again, clock, end, tick);
      case Some(e) =>
        assert Known(q, e.stamp);
        AddOrdered(q, e);
        AfterTickAdd(q, e, tick);
        RequeueOrdered(Add(q, e), fired[1..], again, e.stamp + 1, end, tick);
    }
  }

  lemma AfterTickAdd(q: seq<Event>, e: Event, tick: nat)
    requires AfterTick(q, tick) && e.expires > tick
    ensures AfterTick(Add(q, e), tick)
  {
    forall i | 0 <= i < |Add(q, e)| ensures Add(q, e)[i].expires > tick { AddElem(q, e, i); }
  }

  // ------------------------------------------------------------------------------- runs

  /** The queue, the number of the next insertion, and the tick counter. */
  datatype Clock = Clock(queue: seq<Event>, next: nat, ticks: nat)

  datatype Op =
    | Queue(id: nat, expires: nat)
    | Cancel(at: nat)
    | Tick(again: Callback, next: nat)

  ghost predicate Enabled(s: Clock, op: Op) {
    match op
    case Queue(_, _) => true
    case Cancel(at) => at < |s.queue|
    case Tick(again, next) =>
      Forward(again, s.ticks + 1) && Numbered(Due(s.queue, s.ticks + 1), again, s.next, next)
  }

  ghost function Next(s: Clock, op: Op): Clock
    requires Enabled(s, op)
  {
    match op
    case Queue(id, expires) => Clock(Add(s.queue, Event(id, expires, s.next)), s.next + 1, s.ticks)
    case Cancel(at) => s.(queue := Delete(s.queue, at))
    case Tick(again, next) => Clock(Update(s.queue, s.ticks + 1, again).1, next, s.ticks + 1)
  }

  ghost predicate Inv(s: Clock) {
    Ordered(s.queue) && Known(s.queue, s.next)
  }

  /** Taking an event out leaves the others in order; it was there once. */
  lemma DeleteOrdered(q: seq<Event>, at: nat)
    requires Ordered(q) && at < |q|
    ensures Ordered(Delete(q, at)) && q[at] !in Delete(q, at)
  {
    var r := Delete(q, at);
    forall i, j | 0 <= i < j < |r| ensures Before(r[i], r[j]) {
      assert Before(q[if i < at then i else i + 1], q[if j < at then j else j + 1]);
    }
    forall i | 0 <= i < |r| ensures r[i] != q[at] {
      assert if i < at then Before(q[i], q[at]) else Before(q[at], q[i + 1]);
    }
  }

  lemma DeleteKnown(q: seq<Event>, at: nat, clock: nat)
    requires Known(q, clock) && at < |q|
    ensures Known(Delete(q, at), clock) && Without(Delete(q, at), q[at].stamp)
  {
    var r := Delete(q, at);
    forall i | 0 <= i < |r| ensures r[i].stamp < clock && r[i].stamp != q[at].stamp {
      assert q[if i < at then i else i + 1].stamp != q[at].stamp;
    }
  }

  lemma DeleteContents(q: seq<Event>, at: nat)
    requires at < |q|
    ensures multiset(Delete(q, at)) == multiset(q) - multiset{q[at]}
  {
    assert q == q[..at] + [q[at]] + q[at + 1..];
  }

  /** Every operation keeps the queue in stable order of expiry. After a tick everything
      left, including what the callbacks queued again, is still to come. */
  lemma NextKeeps(s: Clock, op: Op)
    requires Inv(s) && Enabled(s, op)
    ensures Inv(Next(s, op))
    ensures op.Tick? ==> AfterTick(Next(s, op).queue, s.ticks + 1)
  {
    match op
    case Queue(id, expires) => AddOrdered(s.queue, Event(id, expires, s.next));
    case Cancel(at) =>
      DeleteOrdered(s.queue, at);
      DeleteKnown(s.queue, at, s.next);
    case Tick(again, next) => TickKeeps(s.queue, s.ticks + 1, again, s.next, next);
  }

  lemma OrderedSorted(q: seq<Event>)
    requires Ordered(q)
    ensures Sorted(q)
  {
    forall i, j | 0 <= i < j < |q| ensures q[i].expires <= q[j].expires { assert Before(q[i], q[j]); }
  }

  lemma DueOrdered(q: seq<Event>, tick: nat)
    requires Ordered(q)
    ensures Ordered(Due(q, tick)) && Ordered(Later(q, tick))
    ensures forall clock :: Known(q, clock) ==> Known(Later(q, tick), clock)
  {
    OrderedSorted(q);
    DueThenLater(q, tick);
    var d, l := Due(q, tick), Later(q, tick);
    forall i, j | 0 <= i < j < |d| ensures Before(d[i], d[j]) { assert Before(q[i], q[j]); }
    forall i, j | 0 <= i < j < |l| ensures Before(l[i], l[j]) { assert Before(q[|d| + i], q[|d| + j]); }
    forall clock | Known(q, clock) ensures Known(l, clock) { KnownTail(d, l, clock); }
  }

  lemma KnownTail(d: seq<Event>, l: seq<Event>, clock: nat)
    requires Known(d + l, clock)
    ensures Known(l, clock)
  {
    forall i | 0 <= i < |l| ensures l[i].stamp < clock { assert (d + l)[|d| + i].stamp < clock; }
    forall i, j | 0 <= i < j < |l| ensures l[i].stamp != l[j].stamp {
      assert (d + l)[|d| + i].stamp != (d + l)[|d| + j].stamp;
    }
  }

  lemma TickKeeps(q: seq<Event>, tick: nat, again: Callback, clock: nat, end: nat)
    requires Ordered(q) && Known(q, clock) && Forward(again, tick) && Numbered(Due(q, tick), again, clock, end)
    ensures var r := Update(q, tick, again).1; Ordered(r) && Known(r, end) && AfterTick(r, tick)
  {
    OrderedSorted(q);
    UpdateIs(q, tick, again);
    DueOrdered(q, tick);
    var l := Later(q, tick);
    LaterLater(q, tick);
    RequeueOrdered(l, Due(q, tick), again, clock, end, tick);
  }

  lemma {:induction false} LaterLater(q: seq<Event>, tick: nat)
    ensures AfterTick(Later(q, tick), tick)
    ensures forall i :: 0 <= i < |Due(q, tick)| ==> Due(q, tick)[i].expires <= tick
  {
    if q != [] { LaterLater(q[1..], tick); }
  }

  /** `ops` leads from `s0` to `s`. */
  ghost predicate RunFrom(s0: Clock, ops: seq<Op>, s: Clock)
    decreases |ops|
  {
    if ops == [] then s == s0
    else exists t :: Follows(s0, ops, t, s)
  }

  ghost predicate Follows(s0: Clock, ops: seq<Op>, t: Clock, s: Clock)
    requires ops != []
    decreases |ops|, 0
  {
    RunFrom(s0, Front(ops), t) && Enabled(t, Last(ops)) && s == Next(t, Last(ops))
  }

  /** `s` is reached from an empty queue. */
  ghost predicate Run(ops: seq<Op>, s: Clock) {
    RunFrom(Clock([], 0, 0), ops, s)
  }

  lemma {:induction false} RunFromKeeps(s0: Clock, ops: seq<Op>, s: Clock)
    requires Inv(s0) && RunFrom(s0, ops, s)
    ensures Inv(s)
    decreases |ops|
  {
    if ops != [] {
      var t :| Follows(s0, ops, t, s);
      RunFromKeeps(s0, Front(ops), t);
      NextKeeps(t, Last(ops));
    }
  }

  lemma RunKeeps(ops: seq<Op>, s: Clock)
    requires Run(ops, s)
    ensures Inv(s)
  {
    RunFromKeeps(Clock([], 0, 0), ops, s);
  }

  /** The insertion with number `n` is over: its event is not in the queue. */
  ghost predicate Gone(s: Clock, n: nat) {
    n < s.next && Without(s.queue, n)
  }

  ghost predicate Without(q: seq<Event>, n: nat) {
    forall i :: 0 <= i < |q| ==> q[i].stamp != n
  }

  lemma WithoutAdd(q: seq<Event>, e: Event, n: nat)
    requires Without(q, n) && e.stamp != n
    ensures Without(Add(q, e), n)
  {
    forall i | 0 <= i < |Add(q, e)| ensures Add(q, e)[i].stamp != n { AddElem(q, e, i); }
  }

  lemma {:induction false} RequeueWithout(q: seq<Event>, fired: seq<Event>, again: Callback, clock: nat, end: nat,
                                          n: nat)
    requires Without(q, n) && Numbered(fired, again, clock, end) && n < clock
    ensures Without(Requeue(q, fired, again), n)
    decreases |fired|
  {
    if fired != [] {
      NumberedTail(fired, again, clock, end);
      match again(fired[0])
      case None => RequeueWithout(q, fired[1..], again, clock, end, n);
      case Some(e) =>
        WithoutAdd(q, e, n);
        RequeueWithout(Add(q, e), fired[1..], again, e.stamp + 1, end, n);
    }
  }

  /** An insertion that is over never comes back. */
  lemma NextGone(s: Clock, op: Op, n: nat)
    requires Inv(s) && Enabled(s, op) && Gone(s, n)
    ensures Gone(Next(s, op), n)
  {
    match op
    case Queue(id, expires) => WithoutAdd(s.queue, Event(id, expires, s.next), n);
    case Cancel(at) => assert Without(Delete(s.queue, at), n);
    case Tick(again, next) =>
      OrderedSorted(s.queue);
      TickWithout(s.queue, s.ticks + 1, again, s.next, next, n);
  }

  lemma TickWithout(q: seq<Event>, tick: nat, again: Callback, clock: nat, end: nat, n: nat)
    requires Sorted(q) && Without(q, n) && Forward(again, tick) && Numbered(Due(q, tick), again, clock, end)
    requires n < clock
    ensures Without(Update(q, tick, again).1, n)
  {
    UpdateIs(q, tick, again);
    LaterWithout(q, tick, n);
    RequeueWithout(Later(q, tick), Due(q, tick), again, clock, end, n);
  }

  lemma {:induction false} GoneForever(s0: Clock, ops: seq<Op>, s: Clock, n: nat)
    requires Inv(s0) && Gone(s0, n) && RunFrom(s0, ops, s)
    ensures Gone(s, n)
    decreases |ops|
  {
    if ops != [] {
      var t :| Follows(s0, ops, t, s);
      RunFromKeeps(s0, Front(ops), t);
      GoneForever(s0, Front(ops), t, n);
      NextGone(t, Last(ops), n);
    }
  }

  /** An event that is cancelled in any run is never queued, and so never fires, again. */
  lemma CancelledNeverFires(ops: seq<Op>, s: Clock, at: nat, more: seq<Op>, s': Clock, tick: nat)
    requires Run(ops, s) && at < |s.queue| && RunFrom(Next(s, Cancel(at)), more, s')
    ensures Without(s'.queue, s.queue[at].stamp) && Without(Due(s'.queue, tick), s.queue[at].stamp)
  {
    var n, t := s.queue[at].stamp, Next(s, Cancel(at));
    RunKeeps(ops, s);
    DeleteKnown(s.queue, at, s.next);
    NextKeeps(s, Cancel(at));
    GoneForever(t, more, s', n);
    LaterWithout(s'.queue, tick, n);
  }

  lemma {:induction false} LaterWithout(q: seq<Event>, tick: nat, n: nat)
    requires Without(q, n)
    ensures Without(Due(q, tick), n) && Without(Later(q, tick), n)
  {
    if q != [] {
      assert forall i :: 0 <= i < |q[1..]| ==> q[1..][i] == q[i + 1];
      LaterWithout(q[1..], tick, n);
    }
  }

  /** In every run a tick fires exactly the expired events, once each, by expiry and then by
      order of insertion, and leaves the others queued. */
  lemma RunFires(ops: seq<Op>, s: Clock, op: Op)
    requires Run(ops, s) && op.Tick? && Enabled(s, op)
    ensures var fired, tick := Update(s.queue, s.ticks + 1, op.again).0, s.ticks + 1;
      && s.queue == fired + Later(s.queue, tick)
      && Ordered(fired)
      && (forall i :: 0 <= i < |fired| ==> fired[i].expires <= tick)
      && AfterTick(Later(s.queue, tick), tick)
      && Next(s, op).queue == Requeue(Later(s.queue, tick), fired, op.again)
      && AfterTick(Next(s, op).queue, tick)
  {
    RunKeeps(ops, s);
    NextKeeps(s, op);
    OrderedSorted(s.queue);
    UpdateIs(s.queue, s.ticks + 1, op.again);
    DueThenLater(s.queue, s.ticks + 1);
    LaterLater(s.queue, s.ticks + 1);
    DueOrdered(s.queue, s.ticks + 1);
  }
}
