/** What allocation and release do to the free lists, list by list and in order. */
module BuddyLists {
  import opened Common
  import opened Bits
  import opened Dyadic
  import opened Buddy

  /** List `k` after a block at `left` was split from order `i` down to `order`. */
  function Halved(q: seq<nat>, left: nat, i: nat, order: nat, k: nat): seq<nat> {
    if order <= k < i then q + [left + Pow2(k)] else q
  }

  lemma {:induction false} SplitLists(s: Sys, left: nat, i: nat, order: nat)
    requires Shape(s) && order <= i <= s.orderMax && Aligned(left, i) && left + Pow2(i) <= s.frames
    ensures var t := SplitLoop(s, left, i, order);
      |t.free| == |s.free| && forall k :: 0 <= k < |s.free| ==> t.free[k] == Halved(s.free[k], left, i, order, k)
    decreases i
  {
    if i > order {
      SplitRound(s, left, i - 1, order);
      SplitLists(SplitOff(s, left, i - 1), left, i - 1, order);
    }
  }

  /** Allocation takes the first block of the least order that has one. Its left half is handed
      out, and each right half goes to its list, which was empty. */
  lemma AllocLists(s: Sys, order: nat) returns (i: nat)
    requires Listed(s) && Alloc(s, order).0.Some?
    ensures order <= i <= s.orderMax && s.free[i] != []
    ensures forall k :: order <= k < i ==> s.free[k] == []
    ensures var (r, t) := Alloc(s, order);
      && r.value == s.free[i][0] && |t.free| == |s.free|
      && forall k :: 0 <= k < |s.free| ==>
           t.free[k] == if k == i then s.free[i][1..]
                        else if order <= k < i then [r.value + Pow2(k)]
                        else s.free[k]
  {
    i := Search(s, order);
    SearchHit(s, order);
    var left := s.free[i][0];
    assert left in s.free[i];
    var t := Unlink(s, left, i);
    assert t.free[i] == s.free[i][1..];
    if i != s.orderMax { PairInMap(s, left, i); }
    var u := if i != s.orderMax then Toggle(t, left, i) else t;
    SplitLists(u, left, i, order);
  }

  /** `path` starts with `b` of order `o` and goes on with what each block and its buddy make. */
  ghost predicate Merging(path: seq<nat>, b: nat, o: nat) {
    && path != [] && path[0] == b
    && forall j :: 0 <= j < |path| - 1 ==> path[j + 1] == Min(path[j], BuddyOf(path[j], o + j))
  }

  /** List `k` after blocks along `path` were merged: buddies leave theirs, the last block joins. */
  function Merged(q: seq<nat>, path: seq<nat>, o: nat, k: nat): seq<nat>
    requires path != []
  {
    if o <= k < o + |path| - 1 then Remove(q, BuddyOf(path[k - o], k))
    else if k == o + |path| - 1 then q + [Last(path)]
    else q
  }

  /** A block that is freed merges upwards for a while, each buddy leaves its list, and what it
      has become is put at the end of its own. */
  lemma {:induction false} FreeLists(s: Sys, b: nat, o: nat) returns (path: seq<nat>)
    requires Shape(s) && b < s.frames && o <= s.orderMax && Aligned(b, o)
    ensures Merging(path, b, o) && o + |path| - 1 <= s.orderMax
    ensures var t := Free(s, b, o);
      |t.free| == |s.free| && forall k :: 0 <= k < |s.free| ==> t.free[k] == Merged(s.free[k], path, o, k)
    decreases s.orderMax - o
  {
    path := [b];
    if o < s.orderMax {
      FreeLoopRound(s, b, o);
      var c := BuddyOf(b, o);
      var t := Toggle(s, c, o);
      if !PairBit(t, c, o) {
        var u := Unlink(t, c, o);
        var up := FreeLists(u, Min(b, c), o + 1);
        path := [b] + up;
        MergedUp(s, b, o, c, u, up);
      }
    }
  }

  lemma MergedUp(s: Sys, b: nat, o: nat, c: nat, u: Sys, up: seq<nat>)
    requires o < |s.free| && c == BuddyOf(b, o) && u.free == s.free[o := Remove(s.free[o], c)]
    requires Merging(up, Min(b, c), o + 1)
    ensures Merging([b] + up, b, o)
    ensures forall k :: 0 <= k < |s.free| ==>
      Merged(u.free[k], up, o + 1, k) == Merged(s.free[k], [b] + up, o, k)
  {
    var path := [b] + up;
    assert forall j :: 0 < j < |path| ==> path[j] == up[j - 1];
    forall k | 0 <= k < |s.free| ensures Merged(u.free[k], up, o + 1, k) == Merged(s.free[k], path, o, k) {
      if o < k < o + |path| { assert path[k - o] == up[k - o - 1]; }
    }
  }
}
