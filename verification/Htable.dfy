/** The hash chains in memory: each node knows the next one, and the place that points at it,
    which is a bucket or the node before. */
module Htable {
  import opened Common
  import opened Slab
  import opened SlabOps

  /** Where the pointer to a node is stored. */
  datatype Place = Bucket | After(node: Node)

  class Node {
    const item: Bufctl
    var next: Node?
    var pprev: Place

    constructor (item: Bufctl)
      ensures this.item == item
    {
      this.item, next, pprev := item, null, Bucket;
    }
  }

  function Items(q: seq<Node>): seq<Bufctl> {
    seq(|q|, k requires 0 <= k < |q| => q[k].item)
  }

  lemma ItemsWithout(q: seq<Node>, k: nat)
    requires k < |q|
    ensures Items(q[..k] + q[k + 1..]) == Items(q)[..k] + Items(q)[k + 1..]
  {
    assert Items(q[..k] + q[k + 1..]) == Items(q[..k]) + Items(q[k + 1..]);
    assert Items(q[..k]) == Items(q)[..k] && Items(q[k + 1..]) == Items(q)[k + 1..];
  }

  /** Node `k` of the chain points at the next one, and is pointed at from where it says. */
  predicate NodeOk(q: seq<Node>, k: nat)
    requires k < |q|
    reads q[k]
  {
    && q[k].next == (if k + 1 < |q| then q[k + 1] else null)
    && q[k].pprev == (if k == 0 then Bucket else After(q[k - 1]))
  }

  class Chains {
    const heads: array<Node?>

    /** `htable_init` */
    constructor (n: nat)
      ensures fresh(heads) && heads.Length == n && forall i :: 0 <= i < n ==> Chain(i, [])
    {
      heads := new Node?[n](_ => null);
    }

    /** The nodes of bucket `i`. */
    ghost predicate Chain(i: nat, q: seq<Node>)
      reads heads, q
    {
      && i < heads.Length && heads[i] == (if q == [] then null else q[0])
      && NoDup(q) && forall k: nat {:trigger NodeOk(q, k)} :: k < |q| ==> NodeOk(q, k)
    }

    /** `htable_insert`: the node goes in front. */
    method Insert(i: nat, node: Node, ghost q: seq<Node>)
      requires Chain(i, q) && node !in q
      modifies heads, node, q
      ensures Chain(i, [node] + q)
      ensures forall j :: 0 <= j < heads.Length && j != i ==> heads[j] == old(heads[j])
      ensures forall x <- q :: x.next == old(x.next)
    {
      ghost var r := [node] + q;
      assert q != [] ==> NodeOk(q, 0);
      node.next := heads[i];
      node.pprev := Bucket;
      if heads[i] != null {
        heads[i].pprev := After(node);
      }
      heads[i] := node;
      forall k: nat | k < |r| ensures NodeOk(r, k) {
        if k > 0 { assert old(NodeOk(q, k - 1)); }
      }
    }

    /** `htable_delete`: the place that pointed at the node points at the next one. */
    method Delete(i: nat, node: Node, ghost q: seq<Node>, ghost k: nat)
      requires Chain(i, q) && k < |q| && q[k] == node
      modifies heads, q
      ensures Chain(i, q[..k] + q[k + 1..])
      ensures forall j :: 0 <= j < heads.Length && j != i ==> heads[j] == old(heads[j])
    {
      assert NodeOk(q, k) && (k > 0 ==> NodeOk(q, k - 1)) && (k + 1 < |q| ==> NodeOk(q, k + 1));
      var next, pprev := node.next, node.pprev;
      match pprev {
        case Bucket => heads[i] := next;
        case After(n) => n.next := next;
      }
      if next != null {
        next.pprev := pprev;
      }
      ghost var r := q[..k] + q[k + 1..];
      forall j: nat | j < |r| ensures NodeOk(r, j) {
        assert old(NodeOk(q, if j < k then j else j + 1));
      }
    }

    /** Walks a chain for the node of `buf` and unlinks it. */
    method TakeOut(i: nat, buf: nat, ghost q: seq<Node>) returns (node: Node?, ghost q': seq<Node>)
      requires Chain(i, q)
      modifies heads, q
      ensures Chain(i, q')
      ensures Take(Items(q), buf) == if node == null then None else Some((node.item, Items(q')))
      ensures forall j :: 0 <= j < heads.Length && j != i ==> heads[j] == old(heads[j])
    {
      ghost var k: nat := 0;
      node := heads[i];
      while node != null && node.item.buf != buf
        invariant k <= |q| && node == (if k < |q| then q[k] else null)
        invariant forall j :: 0 <= j < k ==> q[j].item.buf != buf
        decreases |q| - k
      {
        assert NodeOk(q, k);
        node, k := node.next, k + 1;
      }
      TakeAt(Items(q), buf, k);
      q' := q;
      if node != null {
        Delete(i, node, q, k);
        q' := q[..k] + q[k + 1..];
        ItemsWithout(q, k);
      }
    }
  }
}
