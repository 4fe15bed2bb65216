/** What `malloc` and `free` do to a whole heap: the walks along the list stop, freeing never
    leaves a sliver, and what holds over every run. */
module MallocTheory {
  import opened Common
  import opened Malloc

  /** A run of owned words that are not in use lies inside one free block: two free
      blocks never touch. */
  lemma LargeEnough(h: Heap, owner: map<nat, Block>, free: set<nat>, p: nat, n: nat)
    requires Inv(h, owner, free) && n >= 4 && p % 4 == 0
    requires forall w {:trigger InBlock(w, Block(p, n, true))} ::
               InBlock(w, Block(p, n, true)) ==> w in owner && !owner[w].used
    ensures exists f :: f in free && Size(h, f) >= n
  {
    assert InBlock(p, Block(p, n, true));
    assert WordOk(h, owner, free, p);
    var k := owner[p];
    assert InBlock(k.start, k);
    assert WordOk(h, owner, free, k.start);
    assert FreeOk(h, owner, free, k.start);
    var w := k.start + k.size;
    assert k.start in free && Size(h, k.start) == k.size;
    if w < p + n {
      assert InBlock(w, Block(p, n, true));
      AboveFree(h, owner, free, k.start, w);
    }
  }

  /** What follows a free block is live. */
  lemma AboveFree(h: Heap, owner: map<nat, Block>, free: set<nat>, f: nat, w: nat)
    requires Inv(h, owner, free) && f in free && f in owner && w == f + Size(h, f) && w in owner
    ensures owner[w].used
  {
    assert FreeOk(h, owner, free, f) && WordOk(h, owner, free, f) && WordOk(h, owner, free, w);
    var v: nat := w - 4;
    assert InBlock(v, owner[f]);
    assert !InBlock(v, owner[w]);
  }

  lemma LiveWords(owner: map<nat, Block>, c: nat, w: nat)
    requires Tiled(owner) && c in Live(owner) && InBlock(w, Block(c, Live(owner)[c], true))
    ensures w in owner && owner[w] == owner[c]
  {
    assert TileOk(owner, c);
    assert InBlock(w, owner[c]);
  }

  lemma UsedIsLive(owner: map<nat, Block>, w: nat)
    requires Tiled(owner) && w in owner && owner[w].used
    ensures owner[w].start in Live(owner) && InBlock(w, Block(owner[w].start, Live(owner)[owner[w].start], true))
  {
    assert TileOk(owner, w);
    assert InBlock(owner[w].start, owner[w]);
  }

  // ------------------------------------------------------------------ why the walks stop

  /** How far the search of `free` still has to go from `p`. */
  ghost function SearchLeft(free: set<nat>, curr: nat, p: nat): nat {
    if p < curr then |Between(free, p, curr)| else |free| + |Beyond(free, p)|
  }

  ghost function Between(free: set<nat>, a: nat, b: nat): set<nat> {
    set f | f in free && a < f < b
  }

  ghost function Beyond(free: set<nat>, a: nat): set<nat> {
    set f | f in free && a < f
  }

  lemma Smaller(a: set<nat>, b: set<nat>, x: nat)
    requires a <= b && x in b && x !in a
    ensures |a| < |b|
  {
    assert a <= b - {x};
    SubsetSize(a, b - {x});
  }

  lemma SearchShrinks(free: set<nat>, base: nat, curr: nat, p: nat, n: nat)
    requires Follows(free, base, p, n) && p in free && base in free && curr !in free && base < curr
    requires !(p < curr && curr < n) && !(p >= n && (curr > p || curr < n))
    ensures SearchLeft(free, curr, n) < SearchLeft(free, curr, p)
  {
    if p < curr {
      Smaller(Between(free, n, curr), Between(free, p, curr), n);
    } else if n > p {
      Smaller(Beyond(free, n), Beyond(free, p), n);
    } else {
      Smaller(Between(free, n, curr), free, n);
    }
  }

  /** The blocks from `c` round to the starting point, both included. */
  ghost function Remaining(free: set<nat>, freep: nat, c: nat): set<nat> {
    if c <= freep then set f | f in free && c <= f <= freep
    else set f | f in free && (c <= f || f <= freep)
  }

  lemma RemainingStep(free: set<nat>, base: nat, freep: nat, c: nat, n: nat)
    requires Follows(free, base, c, n) && c in free && freep in free && base in free
    requires forall f :: f in free ==> base <= f
    ensures c == freep ==> Remaining(free, freep, n) == free
    ensures c != freep ==> Remaining(free, freep, n) == Remaining(free, freep, c) - {c}
    ensures c in Remaining(free, freep, c) && n in Remaining(free, freep, n)
  {
  }

  /** Words of a new area are in no block that was live before. */
  lemma AreaUnused(h: Heap, owner: map<nat, Block>, free: set<nat>, owner': map<nat, Block>, p: nat, n: nat)
    requires Inv(h, owner, free) && NewArea(h, owner.Keys, p, n) && Tiled(owner')
    requires Live(owner') == Live(owner) && owner'.Keys == owner.Keys + Words(p, n)
    ensures forall w {:trigger InBlock(w, Block(p, n, true))} ::
              InBlock(w, Block(p, n, true)) ==> w in owner' && !owner'[w].used
  {
    InvTiled(h, owner, free);
    forall w {:trigger InBlock(w, Block(p, n, true))} | InBlock(w, Block(p, n, true))
      ensures w in owner' && !owner'[w].used
    {
      assert w in Words(p, n);
      if owner'[w].used {
        UsedIsLive(owner', w);
        LiveWords(owner, owner'[w].start, w);
      }
    }
  }

  lemma FirstStep(h: Heap, owner: map<nat, Block>, free: set<nat>)
    requires Inv(h, owner, free)
    ensures Next(h, h.freep) in free && Remaining(free, h.freep, Next(h, h.freep)) == free
  {
    assert FreeOk(h, owner, free, h.freep);
    GrowAll(h, owner, free);
    RemainingStep(free, h.base, h.freep, h.freep, Next(h, h.freep));
  }

  lemma NextStep(h: Heap, owner: map<nat, Block>, free: set<nat>, c: nat)
    requires Inv(h, owner, free) && c in free
    ensures Next(h, c) in free && c in Remaining(free, h.freep, c)
    ensures c != h.freep ==> Remaining(free, h.freep, Next(h, c)) == Remaining(free, h.freep, c) - {c}
    ensures c == h.freep ==> Remaining(free, h.freep, c) == {c}
  {
    assert FreeOk(h, owner, free, c);
    GrowAll(h, owner, free);
    RemainingStep(free, h.base, h.freep, c, Next(h, c));
  }

  // ------------------------------------------------------------------ the list as it is

  /** The `k`-th block on the way round the list. */
  ghost function Walked(h: Heap, k: nat): nat {
    if k == 0 then h.freep else Next(h, Walked(h, k - 1))
  }

  ghost predicate OnList(h: Heap, f: nat) {
    exists k: nat :: f == Walked(h, k)
  }

  lemma {:induction false} WalkedFree(h: Heap, owner: map<nat, Block>, free: set<nat>, k: nat)
    requires Inv(h, owner, free)
    ensures Walked(h, k) in free
    decreases k
  {
    if k > 0 {
      WalkedFree(h, owner, free, k - 1);
      assert FreeOk(h, owner, free, Walked(h, k - 1));
    }
  }

  lemma {:induction false} Reached(h: Heap, owner: map<nat, Block>, free: set<nat>, k: nat, f: nat)
    requires Inv(h, owner, free) && f in Remaining(free, h.freep, Walked(h, k))
    ensures OnList(h, f)
    decreases |Remaining(free, h.freep, Walked(h, k))|
  {
    var c := Walked(h, k);
    WalkedFree(h, owner, free, k);
    NextStep(h, owner, free, c);
    if f != c {
      assert Walked(h, k + 1) == Next(h, c);
      Reached(h, owner, free, k + 1, f);
    }
  }

  /** The list is one circle through exactly the free blocks. */
  lemma ListIsFree(h: Heap, owner: map<nat, Block>, free: set<nat>, f: nat)
    requires Inv(h, owner, free)
    ensures OnList(h, f) <==> f in free
  {
    if k: nat :| f == Walked(h, k) { WalkedFree(h, owner, free, k); }
    if f in free {
      FirstStep(h, owner, free);
      assert Walked(h, 1) == Next(h, h.freep);
      Reached(h, owner, free, 1, f);
    }
  }

  // --------------------------------------------------------------- no slivers from freeing

  lemma SliverIsLast(h: Heap, owner: map<nat, Block>, free: set<nat>, f: nat)
    requires Inv(h, owner, free) && f in free && f != h.base && !Roomy(h, f)
    ensures f in owner && owner[f] == Block(f, 4, false) && Size(h, f) == 4 && LiveAt(owner, f + 4)
  {
    assert FreeOk(h, owner, free, f) && WordOk(h, owner, free, f);
    assert Size(h, f) == 4;
    assert WordOk(h, owner, free, f + 4);
    assert !InBlock(f, owner[f + 4]);
  }

  /** The word below a block that is free, or that was live and has become free. */
  lemma WordBelow(h: Heap, owner: map<nat, Block>, free: set<nat>, f: nat)
    requires Inv(h, owner, free) && NoSliver(h, free) && f in owner && LiveAt(owner, f + 4)
    ensures f >= 4 && f - 4 in owner && owner[f - 4] == owner[f]
  {
    var b := owner[f];
    assert WordOk(h, owner, free, f) && WordOk(h, owner, free, f + 4);
    assert InBlock(b.start, b);
    assert WordOk(h, owner, free, b.start);
    if !b.used { assert FreeOk(h, owner, free, b.start) && Roomy(h, b.start); }
    assert !InBlock(f + 4, b);
    var v: nat := f - 4;
    assert InBlock(v, b);
  }

  /** The word above a free block is not free. */
  lemma BlockEnds(h: Heap, owner: map<nat, Block>, free: set<nat>, v: nat)
    requires Inv(h, owner, free) && v in owner && !owner[v].used
    ensures owner[v].start in free && owner[v].start + owner[v].size !in free
    ensures v + 4 < owner[v].start + owner[v].size ==> v + 4 in owner && owner[v + 4] == owner[v]
  {
    var g := owner[v].start;
    assert WordOk(h, owner, free, v);
    assert InBlock(g, owner[v]);
    assert WordOk(h, owner, free, g) && FreeOk(h, owner, free, g);
    assert v + 4 < g + owner[v].size ==> InBlock(v + 4, owner[v]);
  }

  /** If a word is free and the one below it is too, the block of the first starts lower. */
  lemma FreeTogether(h: Heap, owner: map<nat, Block>, free: set<nat>, f: nat)
    requires Inv(h, owner, free) && f >= 4 && f in free && f in owner && f - 4 in owner
    ensures owner[f - 4].used
  {
    if !owner[f - 4].used {
      var v: nat := f - 4;
      assert WordOk(h, owner, free, v) && WordOk(h, owner, free, f) && FreeOk(h, owner, free, f);
      BlockEnds(h, owner, free, v);
    }
  }

  lemma StillLive(owner: map<nat, Block>, owner': map<nat, Block>, curr: nat, w: nat)
    requires Tiled(owner) && Tiled(owner') && Live(owner') == Live(owner) - {curr}
    requires w in owner' && owner'[w].used
    ensures w in owner && owner[w] == owner'[w]
  {
    var c := owner'[w].start;
    assert TileOk(owner', w) && InBlock(c, owner'[w]);
    UsedIsLive(owner', w);
    assert c in Live(owner) && Live(owner)[c] == Live(owner')[c];
    LiveWords(owner, c, w);
  }

  /** Freeing, whatever it merges, never leaves a sliver. */
  lemma FreeNoSliver(h: Heap, owner: map<nat, Block>, free: set<nat>, h': Heap, owner': map<nat, Block>,
                     free': set<nat>,
                     curr: nat)
    requires Inv(h, owner, free) && NoSliver(h, free) && Inv(h', owner', free')
    requires owner'.Keys == owner.Keys && Live(owner') == Live(owner) - {curr}
    ensures NoSliver(h', free')
  {
    InvTiled(h, owner, free);
    InvTiled(h', owner', free');
    forall f | f in free' && f != h'.base ensures Roomy(h', f) {
      if !Roomy(h', f) {
        SliverIsLast(h', owner', free', f);
        StillLive(owner, owner', curr, f + 4);
        WordBelow(h, owner, free, f);
        FreeTogether(h', owner', free', f);
        StillLive(owner, owner', curr, f - 4);
        SameBlock(owner, owner', f);
      }
    }
  }

  lemma SameBlock(owner: map<nat, Block>, owner': map<nat, Block>, f: nat)
    requires Tiled(owner) && Tiled(owner') && f >= 4 && f in owner && f - 4 in owner && owner[f] == owner[f - 4]
    requires f - 4 in owner' && owner'[f - 4] == owner[f - 4]
    ensures f in owner' && owner'[f] == owner[f]
  {
    assert TileOk(owner, f) && TileOk(owner', f - 4);
    assert InBlock(f, owner'[f - 4]);
  }
}
