/** The circular doubly linked list on which queues, rings and free lists are built. A list
    is a head and the elements after it; the operations act on sequences of elements. */
module List {
  import opened Common

  class Link {
    var prev: Link
    var next: Link

    /** `list_init` */
    constructor ()
      ensures Ring([this])
    {
      prev, next := this, this;
      new;
      assert LinkOk([this], 0);
    }
  }

  /** The place after `i`, around a ring of `n`. */
  function Succ(i: nat, n: nat): (r: nat)
    requires i < n
    ensures r < n
  {
    if i + 1 == n then 0 else i + 1
  }

  /** `a` and `b` point at each other. */
  predicate Joined(a: Link, b: Link)
    reads a, b
  {
    a.next == b && b.prev == a
  }

  predicate LinkOk(ns: seq<Link>, i: nat)
    requires i < |ns|
    reads ns
  {
    Joined(ns[i], ns[Succ(i, |ns|)])
  }

  /** The links of `ns` form one circle, in this order. */
  ghost predicate Ring(ns: seq<Link>)
    reads ns
  {
    && ns != [] && NoDup(ns)
    && forall i: nat {:trigger LinkOk(ns, i)} :: i < |ns| ==> LinkOk(ns, i)
  }

  /** The list with head `h` has the elements `q`. */
  ghost predicate Holds(h: Link, q: seq<Link>)
    reads {h} + set x | x in q
  {
    Ring([h] + q)
  }

  function Turned(ns: seq<Link>, k: nat): seq<Link>
    requires k <= |ns|
  {
    ns[k..] + ns[..k]
  }

  /** A ring has no first link. */
  lemma RingTurns(ns: seq<Link>, k: nat)
    requires Ring(ns) && k <= |ns|
    ensures Ring(Turned(ns, k))
  {
    var t, n := Turned(ns, k), |ns|;
    forall i: nat | i < n ensures LinkOk(t, i) {
      var j := if i < n - k then i + k else i - (n - k);
      assert LinkOk(ns, j);
      assert t[i] == ns[j] && t[Succ(i, n)] == ns[Succ(j, n)];
    }
  }

  /** `list_insert_before`: the new link goes between `list` and what was before it. */
  method InsertBefore(list: Link, node: Link, ghost ns: seq<Link>)
    requires Ring(ns) && ns[0] == list && node !in ns
    modifies node, list, list.prev
    ensures Ring(ns + [node])
  {
    ghost var n := |ns|;
    assert LinkOk(ns, n - 1);
    node.next := list;
    node.prev := list.prev;
    list.prev.next := node;
    list.prev := node;
    ghost var r := ns + [node];
    forall i: nat | i < n + 1 ensures LinkOk(r, i) {
      if i < n - 1 { assert old(LinkOk(ns, i)); }
    }
  }

  /** `list_insert_after`: the new link goes between `list` and what was after it. */
  method InsertAfter(list: Link, node: Link, ghost ns: seq<Link>)
    requires Ring(ns) && ns[0] == list && node !in ns
    modifies node, list, list.next
    ensures Ring([list, node] + ns[1..])
  {
    ghost var n := |ns|;
    assert LinkOk(ns, 0) && LinkOk(ns, n - 1);
    node.next := list.next;
    node.prev := list;
    list.next.prev := node;
    list.next := node;
    ghost var r := [list, node] + ns[1..];
    forall i: nat | i < n + 1 ensures LinkOk(r, i) {
      if i >= 2 { assert old(LinkOk(ns, i - 1)); }
    }
  }

  /** `list_delete`: the rest closes up and the link is alone. */
  method Delete(link: Link, ghost ns: seq<Link>)
    requires Ring(ns) && ns[0] == link
    modifies link, link.prev, link.next
    ensures Ring([link]) && (|ns| > 1 ==> Ring(ns[1..]))
  {
    ghost var n := |ns|;
    assert LinkOk(ns, 0) && LinkOk(ns, n - 1);
    link.next.prev := link.prev;
    link.prev.next := link.next;
    link.next := link;
    link.prev := link;
    assert LinkOk([link], 0);
    if n > 1 {
      ghost var r := ns[1..];
      forall i: nat | i < n - 1 ensures LinkOk(r, i) {
        if i < n - 2 { assert old(LinkOk(ns, i + 1)); }
      }
    }
  }

  lemma NoDupParts(a: seq<Link>, b: seq<Link>)
    requires NoDup(a + b)
    ensures NoDup(a) && NoDup(b)
  {
    forall i, j | 0 <= i < j < |a| ensures a[i] != a[j] { assert (a + b)[i] != (a + b)[j]; }
    forall i, j | 0 <= i < j < |b| ensures b[i] != b[j] { assert (a + b)[|a| + i] != (a + b)[|a| + j]; }
  }

  /** Two rings are not one. */
  lemma NotOne(a: seq<Link>, b: seq<Link>)
    requires Ring(a) && b != [] && NoDup(a + b)
    ensures !Ring(a + b)
  {
    var n := |a|;
    assert LinkOk(a, n - 1);
    assert (a + b)[n - 1] == a[n - 1] && (a + b)[n] == b[0] && (a + b)[0] == a[0];
    assert !LinkOk(a + b, n - 1);
  }

  /** `list_merge`: two rings become one, the second after the first. On two links of one
      ring the same steps cut it in two, so that merging undoes itself. */
  method Merge(list1: Link, list2: Link, ghost a: seq<Link>, ghost b: seq<Link>)
    requires a != [] && b != [] && a[0] == list1 && b[0] == list2 && NoDup(a + b)
    requires (Ring(a) && Ring(b)) || Ring(a + b)
    modifies list1, list2, list1.prev, list2.prev
    ensures old(Ring(a) && Ring(b)) ==> Ring(a + b)
    ensures old(Ring(a + b)) ==> Ring(a) && Ring(b)
  {
    ghost var r, n, m := a + b, |a|, |b|;
    ghost var apart := Ring(a) && Ring(b);
    NoDupParts(a, b);
    if apart { NotOne(a, b); }
    assert r[n - 1] == a[n - 1] && r[n] == b[0] && r[n + m - 1] == b[m - 1] && r[0] == a[0];
    assert apart ==> LinkOk(a, n - 1) && LinkOk(b, m - 1);
    assert !apart ==> LinkOk(r, n - 1) && LinkOk(r, n + m - 1);
    list1.prev.next := list2;
    list2.prev.next := list1;
    var tmp := list1.prev;
    list1.prev := list2.prev;
    list2.prev := tmp;
    if apart {
      forall i: nat | i < n + m ensures LinkOk(r, i) {
        if i < n - 1 { assert old(LinkOk(a, i)); }
        if n <= i < n + m - 1 { assert old(LinkOk(b, i - n)); }
      }
    } else {
      forall i: nat | i < n ensures LinkOk(a, i) {
        if i < n - 1 { assert old(LinkOk(r, i)); }
      }
      forall i: nat | i < m ensures LinkOk(b, i) {
        if i < m - 1 { assert old(LinkOk(r, n + i)); }
      }
    }
  }

  // ------------------------------------------------------------- lists as sequences

  /** `list_empty` */
  method IsEmpty(h: Link, ghost q: seq<Link>) returns (r: bool)
    requires Holds(h, q)
    ensures r <==> q == []
  {
    ghost var ns := [h] + q;
    assert LinkOk(ns, 0);
    assert q != [] ==> ns[1] != ns[0];
    r := h.next == h;
  }

  /** Inserting before the head appends. */
  method Append(h: Link, x: Link, ghost q: seq<Link>)
    requires Holds(h, q) && x != h && x !in q
    modifies x, h, h.prev
    ensures Holds(h, q + [x])
  {
    InsertBefore(h, x, [h] + q);
    assert ([h] + q) + [x] == [h] + (q + [x]);
  }

  /** Inserting before element `i` puts the new one at place `i`. */
  method InsertAt(h: Link, x: Link, ghost q: seq<Link>, ghost i: nat, at: Link)
    requires Holds(h, q) && x != h && x !in q && i < |q| && at == q[i]
    modifies x, at, at.prev
    ensures Holds(h, q[..i] + [x] + q[i..])
  {
    ghost var ns := [h] + q;
    ghost var t := Turned(ns, i + 1);
    RingTurns(ns, i + 1);
    assert t == q[i..] + ([h] + q[..i]);
    InsertBefore(at, x, t);
    ghost var r := t + [x];
    RingTurns(r, |q| - i);
    assert Turned(r, |q| - i) == [h] + (q[..i] + [x] + q[i..]);
  }

  /** Deleting element `i` leaves the others in order. */
  method Remove(h: Link, ghost q: seq<Link>, ghost i: nat, at: Link)
    requires Holds(h, q) && i < |q| && at == q[i]
    modifies at, at.prev, at.next
    ensures Holds(h, q[..i] + q[i + 1..]) && Ring([at])
  {
    ghost var ns := [h] + q;
    ghost var t := Turned(ns, i + 1);
    RingTurns(ns, i + 1);
    assert t == q[i..] + ([h] + q[..i]);
    Delete(at, t);
    ghost var r := t[1..];
    assert r == q[i + 1..] + ([h] + q[..i]);
    RingTurns(r, |q| - i - 1);
    assert Turned(r, |q| - i - 1) == [h] + (q[..i] + q[i + 1..]);
  }
}
