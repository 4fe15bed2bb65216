/** The event queue edited in place. The list's `curr` pointer is an index into the queue,
    so an insertion in front of it moves it along. */
module TimerOps {
  import opened Common
  import opened Timer

  class TimerQueue {
    var events: seq<Event>

    constructor ()
      ensures events == []
    {
      events := [];
    }

    /** `timer_event_add`: insert before the first event that expires later. */
    method EventAdd(e: Event) returns (at: nat)
      modifies this
      ensures at == Position(old(events), e)
      ensures events == Add(old(events), e)
    {
      at := 0;
      while at < |events| && events[at].expires <= e.expires
        invariant at <= |events| && events == old(events)
        invariant Position(events, e) == at + Position(events[at..], e)
      {
        assert events[at..][1..] == events[at + 1..];
        at := at + 1;
      }
      AddAt(events, e);
      events := events[..at] + [e] + events[at..];
    }

    /** `timer_event_del` of the event at `at`. */
    method EventDel(at: nat)
      requires at < |events|
      modifies this
      ensures events == Delete(old(events), at)
      ensures multiset(events) == multiset(old(events)) - multiset{old(events)[at]}
      ensures Ordered(old(events)) ==> Ordered(events) && old(events)[at] !in events
    {
      DeleteContents(events, at);
      if Ordered(events) { DeleteOrdered(events, at); }
      events := events[..at] + events[at + 1..];
    }

    /** Takes the event at `curr` off the queue and calls it back; the place of the walk shifts
        if the event goes back in front of it. */
    method FireAt(curr: nat, again: Callback) returns (next: nat)
      requires curr < |events|
      modifies this
      ensures (events, next) == Fire(old(events), curr, again)
    {
      var tm := events[curr];
      EventDel(curr);
      next := curr;
      var queued := again(tm);
      if queued.Some? {
        var at := EventAdd(queued.value);
        if at <= curr { next := curr + 1; }
      }
    }

    /** `timer_update`: one pass over the queue; callbacks may queue their event again. */
    method Tick(ticks: nat, again: Callback) returns (fired: seq<Event>)
      requires Sorted(events) && Forward(again, ticks)
      modifies this
      ensures fired == Update(old(events), ticks, again).0 && events == Update(old(events), ticks, again).1
      ensures fired == Due(old(events), ticks)
      ensures events == Requeue(Later(old(events), ticks), fired, again)
    {
      fired := [];
      var curr: nat := 0;
      while curr < |events|
        invariant curr <= |events|
        invariant Update(old(events), ticks, again).0 == fired + Walk(events, curr, ticks, again).0
        invariant Update(old(events), ticks, again).1 == Walk(events, curr, ticks, again).1
        decreases |Due(events[curr..], ticks)|, |events| - curr
      {
        var tm := events[curr];
        DueHead(events, curr, ticks);
        if tm.expires <= ticks {
          FireDue(events, curr, ticks, again);
          ghost var f := fired;
          curr := FireAt(curr, again);
          fired := fired + [tm];
          Grouped(f, [tm], Walk(events, curr, ticks, again).0);
        } else {
          curr := curr + 1;
        }
      }
      assert Walk(events, curr, ticks, again) == ([], events);
      UpdateIs(old(events), ticks, again);
    }
  }
}
