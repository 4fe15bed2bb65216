/** The user-space allocator: a circular list of free blocks in address order, kept in
    headers inside the heap itself. Memory is a map from word addresses to words. */
module Malloc {

  /** Memory, the list's starting point, and the address of the static list head. */
  datatype Heap = Heap(mem: map<nat, nat>, freep: nat, base: nat)

  function Word(mem: map<nat, nat>, a: nat): nat {
    if a in mem then mem[a] else 0
  }

  /** A header is two words: the next free block, and the size of this one. */
  function Next(h: Heap, a: nat): nat {
    Word(h.mem, a)
  }

  function Size(h: Heap, a: nat): nat {
    Word(h.mem, a + 4)
  }

  function SetNext(h: Heap, a: nat, v: nat): Heap {
    h.(mem := h.mem[a := v])
  }

  function SetSize(h: Heap, a: nat, v: nat): Heap {
    h.(mem := h.mem[a + 4 := v])
  }

  const HEAD: nat := 8
  const NALLOC: nat := 4096

  /** Bytes needed for a request of `size`: header added, rounded up to words. */
  function Need(size: nat): (n: nat)
    ensures n % 4 == 0 && size + 8 <= n < size + 12
  {
    (size + 8 + 3) / 4 * 4
  }

  /** The same sum in 32 bits. */
  function Need32(size: nat): nat {
    ((size + 8) % 0x1_0000_0000 + 3) % 0x1_0000_0000 / 4 * 4
  }

  /** The sum is right, and the block large enough for the request, exactly if it does not wrap. */
  lemma NeedExactly(size: nat)
    requires size < 0x1_0000_0000
    ensures Need32(size) == Need(size) <==> size + 11 < 0x1_0000_0000
    ensures Need32(size) >= size + HEAD <==> size + 11 < 0x1_0000_0000
  {
    var t := (size + 8) % 0x1_0000_0000;
    assert t == if size + 8 < 0x1_0000_0000 then size + 8 else size + 8 - 0x1_0000_0000;
  }

  // ---------------------------------------------------------------------------- updates

  /** `curr` takes in the free block right above it, if there is one. */
  function JoinUp(h: Heap, prev: nat, curr: nat): Heap {
    var nxt := Next(h, prev);
    if curr + Size(h, curr) == nxt then
      SetNext(SetSize(h, curr, Size(h, curr) + Size(h, nxt)), curr, Next(h, nxt))
    else SetNext(h, curr, nxt)
  }

  /** `curr` is taken in by the free block right below it, or linked behind it. */
  function JoinDown(h: Heap, prev: nat, curr: nat): Heap {
    if prev + Size(h, prev) == curr then
      SetNext(SetSize(h, prev, Size(h, prev) + Size(h, curr)), prev, Next(h, curr))
    else SetNext(h, prev, curr)
  }

  /** `free`, once the place in the list is found. */
  function Insert(h: Heap, prev: nat, curr: nat): Heap {
    JoinDown(JoinUp(h, prev, curr), prev, curr).(freep := prev)
  }

  /** `malloc`, once a block that is large enough is found: the whole block, or its tail. */
  function Carve(h: Heap, prev: nat, curr: nat, size: nat): (nat, Heap)
    requires size <= Size(h, curr)
  {
    if Size(h, curr) == size then (curr, SetNext(h, prev, Next(h, curr)).(freep := prev))
    else
      var rest := Size(h, curr) - size;
      (curr + rest, SetSize(SetSize(h, curr, rest), curr + rest, size).(freep := prev))
  }

  // -------------------------------------------------------------------------- invariant

  datatype Block = Block(start: nat, size: nat, used: bool)

  ghost predicate InBlock(w: nat, k: Block) {
    w % 4 == 0 && k.start <= w < k.start + k.size
  }

  /** The block of word `a` is whole: all its words, and no others, belong to it. */
  ghost predicate TileOk(owner: map<nat, Block>, a: nat)
    requires a in owner
  {
    var k := owner[a];
    && k.start % 4 == 0 && k.size % 4 == 0 && k.size >= 4 && (k.used ==> k.size >= HEAD)
    && InBlock(a, k)
    && forall w {:trigger InBlock(w, k)} :: InBlock(w, k) ==> w in owner && owner[w] == k
  }

  /** `b` follows `a` in address order, cyclically. */
  ghost predicate Follows(free: set<nat>, base: nat, a: nat, b: nat) {
    && b in free
    && ((a < b && forall f :: f in free ==> f <= a || b <= f) || (b == base && forall f :: f in free ==> f <= a))
  }

  ghost predicate FreeOk(h: Heap, owner: map<nat, Block>, free: set<nat>, f: nat) {
    && Follows(free, h.base, f, Next(h, f))
    && (if f == h.base then Size(h, f) == 0
        else && f > h.base && f in owner && owner[f] == Block(f, Size(h, f), false)
             && f + Size(h, f) !in free
             && (Size(h, f) == 4 ==> f + 4 in owner && owner[f + 4].used))
  }

  ghost predicate WordOk(h: Heap, owner: map<nat, Block>, free: set<nat>, a: nat)
    requires a in owner
  {
    && a >= h.base + HEAD
    && TileOk(owner, a)
    && (if owner[a].used then Size(h, owner[a].start) == owner[a].size else owner[a].start in free)
  }

  /** The free list runs through `free` in address order; blocks tile the owned words. */
  ghost predicate Inv(h: Heap, owner: map<nat, Block>, free: set<nat>) {
    && h.base >= HEAD && h.base % 4 == 0 && h.base in free && h.freep in free
    && (forall f {:trigger FreeOk(h, owner, free, f)} :: f in free ==> FreeOk(h, owner, free, f))
    && (forall a {:trigger WordOk(h, owner, free, a)} :: a in owner ==> WordOk(h, owner, free, a))
  }

  /** Blocks handed out: address of the header to size. */
  ghost function Live(owner: map<nat, Block>): map<nat, nat> {
    map a | a in owner && owner[a].used && owner[a].start == a :: owner[a].size
  }

  /** All blocks are multiples of two words, so none is a sliver. */
  ghost predicate Even(owner: map<nat, Block>) {
    forall a :: a in owner ==> owner[a].size % 8 == 0
  }

  /** Every free block has room for its header. */
  ghost predicate NoSliver(h: Heap, free: set<nat>) {
    forall f {:trigger Roomy(h, f)} :: f in free && f != h.base ==> Roomy(h, f)
  }

  ghost predicate Roomy(h: Heap, f: nat) {
    Size(h, f) >= HEAD
  }

  lemma EvenNoSliver(h: Heap, owner: map<nat, Block>, free: set<nat>)
    requires Inv(h, owner, free) && Even(owner)
    ensures NoSliver(h, free)
  {
    forall f | f in free && f != h.base ensures Roomy(h, f) {
      assert FreeOk(h, owner, free, f) && WordOk(h, owner, free, f);
    }
  }

  /** Makes one block of the words `start .. start + size`. */
  ghost function Paint(owner: map<nat, Block>, k: Block): (r: map<nat, Block>)
    ensures forall w :: w in owner ==> w in r && r[w] == if InBlock(w, k) then k else owner[w]
    ensures r.Keys == owner.Keys
  {
    map w | w in owner :: if InBlock(w, k) then k else owner[w]
  }

  ghost predicate Tiled(owner: map<nat, Block>) {
    forall a {:trigger TileOk(owner, a)} :: a in owner ==> TileOk(owner, a)
  }

  lemma InvTiled(h: Heap, owner: map<nat, Block>, free: set<nat>)
    requires Inv(h, owner, free)
    ensures Tiled(owner)
  {
    forall a | a in owner ensures TileOk(owner, a) { assert WordOk(h, owner, free, a); }
  }

  /** Blocks are still whole when some of them become one. */
  lemma PaintTile(owner: map<nat, Block>, k: Block, a: nat)
    requires Tiled(owner) && a in owner
    requires k.start % 4 == 0 && k.size % 4 == 0 && k.size >= 4 && (k.used ==> k.size >= HEAD)
    requires forall w {:trigger InBlock(w, k)} :: InBlock(w, k) ==>
               w in owner && k.start <= owner[w].start && owner[w].start + owner[w].size <= k.start + k.size
    ensures TileOk(Paint(owner, k), a)
  {
    var r := Paint(owner, k);
    assert TileOk(owner, a);
    if !InBlock(a, k) {
      var b := owner[a];
      forall w {:trigger InBlock(w, b)} | InBlock(w, b) ensures w in r && r[w] == b {
        assert owner[w] == b;
      }
    }
  }

  // ------------------------------------------------------------------ freeing a live block

  ghost predicate LiveAt(owner: map<nat, Block>, c: nat) {
    c in owner && owner[c].used && owner[c].start == c
  }

  /** The place where the search of `free` stops. */
  ghost predicate IsPlace(h: Heap, free: set<nat>, prev: nat, curr: nat) {
    prev in free && prev < curr && (curr < Next(h, prev) || Next(h, prev) <= prev)
  }

  /** No free block starts between the place and `curr`, nor inside `curr`. */
  lemma PlaceGap(h: Heap, owner: map<nat, Block>, free: set<nat>, prev: nat, curr: nat, f: nat)
    requires Inv(h, owner, free) && LiveAt(owner, curr) && IsPlace(h, free, prev, curr) && f in free
    ensures f <= prev || curr + owner[curr].size <= f
    ensures Next(h, prev) in free && (Next(h, prev) == h.base || curr + owner[curr].size <= Next(h, prev))
    ensures prev != h.base ==> prev + Size(h, prev) <= curr
  {
    assert FreeOk(h, owner, free, prev) && FreeOk(h, owner, free, f) && WordOk(h, owner, free, curr);
    var k := owner[curr];
    if f > prev {
      assert f > curr;
      if f < curr + k.size {
        assert WordOk(h, owner, free, f);
        assert InBlock(f, k);
      }
    }
    var n := Next(h, prev);
    if n != h.base {
      assert FreeOk(h, owner, free, n);
      if n < curr + k.size {
        assert WordOk(h, owner, free, n);
        assert InBlock(n, k);
      }
    }
    if prev != h.base && prev + Size(h, prev) > curr {
      assert WordOk(h, owner, free, prev);
      assert InBlock(curr, owner[prev]);
    }
  }

  /** A header word of a free block is the first word of a live block only when the free
      block is a single word, right below it. */
  lemma FreeWords(h: Heap, owner: map<nat, Block>, free: set<nat>, f: nat, c: nat)
    requires Inv(h, owner, free) && f in free && LiveAt(owner, c)
    ensures f != c && f != c + 4
    ensures f + 4 != c + 4
    ensures f + 4 == c ==> f != h.base && Size(h, f) == 4
  {
    assert FreeOk(h, owner, free, f) && WordOk(h, owner, free, c);
    assert InBlock(c + 4, owner[c]);
    if f != h.base {
      assert WordOk(h, owner, free, f);
      assert InBlock(f, owner[f]) && (Size(h, f) > 4 ==> InBlock(f + 4, owner[f]));
    }
  }

  /** The first word of a free block is no other header word in use. */
  lemma NextWords(h: Heap, owner: map<nat, Block>, free: set<nat>, f: nat, g: nat)
    requires Inv(h, owner, free) && f in free
    ensures g in free ==> g + 4 != f
    ensures LiveAt(owner, g) ==> g + 4 != f && g != f
  {
    assert FreeOk(h, owner, free, f);
    if g in free {
      assert FreeOk(h, owner, free, g);
      if g != h.base {
        assert WordOk(h, owner, free, g);
        assert Size(h, g) > 4 ==> InBlock(g + 4, owner[g]);
      }
    }
    if LiveAt(owner, g) { FreeWords(h, owner, free, f, g); }
  }

  ghost function Linked(h: Heap, prev: nat, curr: nat): Heap {
    SetNext(SetNext(h, curr, Next(h, prev)), prev, curr).(freep := prev)
  }

  ghost predicate Lone(h: Heap, owner: map<nat, Block>, free: set<nat>, prev: nat, curr: nat) {
    && Inv(h, owner, free) && LiveAt(owner, curr) && IsPlace(h, free, prev, curr)
    && prev + Size(h, prev) != curr && curr + owner[curr].size != Next(h, prev)
  }

  /** A new element between two neighbours. */
  lemma FollowsInsert(free: set<nat>, base: nat, prev: nat, pn: nat, curr: nat, f: nat, fn: nat)
    requires Follows(free, base, prev, pn) && Follows(free, base, f, fn) && prev in free && f in free && base in free
    requires base <= prev < curr && (forall g :: g in free ==> g <= prev || curr < g)
    ensures f != prev ==> Follows(free + {curr}, base, f, fn)
    ensures Follows(free + {curr}, base, prev, curr) && Follows(free + {curr}, base, curr, pn)
  {
  }

  lemma LinkMem(h: Heap, owner: map<nat, Block>, free: set<nat>, prev: nat, curr: nat, f: nat)
    requires Lone(h, owner, free, prev, curr) && f in free
    ensures Next(Linked(h, prev, curr), f) == if f == prev then curr else Next(h, f)
    ensures Size(Linked(h, prev, curr), f) == Size(h, f)
    ensures Next(Linked(h, prev, curr), curr) == Next(h, prev)
    ensures Size(Linked(h, prev, curr), curr) == Size(h, curr)
  {
    assert f + 4 != prev && curr + 4 != prev by {
      NextWords(h, owner, free, prev, f);
      NextWords(h, owner, free, prev, curr);
    }
    assert f != curr by { FreeWords(h, owner, free, f, curr); }
    assert f + 4 != curr by {
      if f == h.base { assert WordOk(h, owner, free, curr); } else { LinkApart(h, owner, free, prev, curr, f); }
    }
  }

  lemma LinkFree(h: Heap, owner: map<nat, Block>, free: set<nat>, prev: nat, curr: nat, f: nat)
    requires Lone(h, owner, free, prev, curr) && f in free
    ensures FreeOk(Linked(h, prev, curr), Paint(owner, owner[curr].(used := false)), free + {curr}, f)
  {
    assert FreeOk(h, owner, free, f) && FreeOk(h, owner, free, prev);
    PlaceGapAll(h, owner, free, prev, curr);
    assert WordOk(h, owner, free, curr);
    LinkMem(h, owner, free, prev, curr, f);
    var h', free' := Linked(h, prev, curr), free + {curr};
    assert Follows(free', h.base, f, Next(h', f)) by {
      FollowsInsert(free, h.base, prev, Next(h, prev), curr, f, Next(h, f));
    }
    if f != h.base {
      LinkApart(h, owner, free, prev, curr, f);
      LinkOwner(h, owner, free, prev, curr, f);
    }
  }

  /** The new free block leaves the words of the others alone. */
  lemma LinkOwner(h: Heap, owner: map<nat, Block>, free: set<nat>, prev: nat, curr: nat, f: nat)
    requires Lone(h, owner, free, prev, curr) && f in free && f != h.base
    ensures var r := Paint(owner, owner[curr].(used := false));
      && f in r && r[f] == owner[f]
      && (Size(h, f) == 4 ==> f + 4 in r && r[f + 4] == owner[f + 4])
  {
    assert FreeOk(h, owner, free, f) && WordOk(h, owner, free, f) && WordOk(h, owner, free, curr);
    LinkApart(h, owner, free, prev, curr, f);
    var k := owner[curr].(used := false);
    assert !InBlock(f, k) && (Size(h, f) == 4 ==> !InBlock(f + 4, k));
  }

  lemma LinkApart(h: Heap, owner: map<nat, Block>, free: set<nat>, prev: nat, curr: nat, f: nat)
    requires Lone(h, owner, free, prev, curr) && f in free && f != h.base
    ensures f + Size(h, f) != curr && f + 4 != curr && !InBlock(f, owner[curr])
  {
    assert FreeOk(h, owner, free, f) && WordOk(h, owner, free, curr) && WordOk(h, owner, free, f);
    PlaceGap(h, owner, free, prev, curr, f);
    if f < prev {
      assert FreeOk(h, owner, free, prev) && WordOk(h, owner, free, prev);
      assert f + Size(h, f) > prev ==> InBlock(prev, owner[f]);
    }
  }

  lemma LinkNew(h: Heap, owner: map<nat, Block>, free: set<nat>, prev: nat, curr: nat)
    requires Lone(h, owner, free, prev, curr)
    ensures FreeOk(Linked(h, prev, curr), Paint(owner, owner[curr].(used := false)), free + {curr}, curr)
  {
    assert FreeOk(h, owner, free, prev);
    PlaceGapAll(h, owner, free, prev, curr);
    PlaceGap(h, owner, free, prev, curr, prev);
    assert WordOk(h, owner, free, curr);
    LinkMem(h, owner, free, prev, curr, prev);
    FollowsInsert(free, h.base, prev, Next(h, prev), curr, prev, Next(h, prev));
    NoFreeAbove(h, owner, free, prev, curr);
  }

  lemma NoFreeAbove(h: Heap, owner: map<nat, Block>, free: set<nat>, prev: nat, curr: nat)
    requires Inv(h, owner, free) && LiveAt(owner, curr) && IsPlace(h, free, prev, curr)
    requires curr + owner[curr].size != Next(h, prev)
    ensures curr + owner[curr].size !in free
  {
    var g := curr + owner[curr].size;
    assert FreeOk(h, owner, free, prev) && WordOk(h, owner, free, curr);
    PlaceGap(h, owner, free, prev, curr, prev);
  }

  lemma LinkWord(h: Heap, owner: map<nat, Block>, free: set<nat>, prev: nat, curr: nat, a: nat)
    requires Lone(h, owner, free, prev, curr) && a in owner
    ensures WordOk(Linked(h, prev, curr), Paint(owner, owner[curr].(used := false)), free + {curr}, a)
  {
    var k := owner[curr].(used := false);
    assert WordOk(h, owner, free, a) && WordOk(h, owner, free, curr);
    InvTiled(h, owner, free);
    assert forall w {:trigger InBlock(w, k)} :: InBlock(w, k) ==> InBlock(w, owner[curr]);
    PaintTile(owner, k, a);
    var b := owner[a];
    if b.used && b.start != curr {
      assert InBlock(b.start, b) && InBlock(b.start + 4, b);
      NextWords(h, owner, free, prev, b.start);
    }
  }

  /** `curr` touches no free block: it is linked into the list. */
  lemma LinkIn(h: Heap, owner: map<nat, Block>, free: set<nat>, prev: nat, curr: nat)
    requires Lone(h, owner, free, prev, curr)
    ensures Inv(Linked(h, prev, curr), Paint(owner, owner[curr].(used := false)), free + {curr})
  {
    forall f | f in free + {curr}
      ensures FreeOk(Linked(h, prev, curr), Paint(owner, owner[curr].(used := false)), free + {curr}, f)
    {
      if f in free { LinkFree(h, owner, free, prev, curr, f); } else { LinkNew(h, owner, free, prev, curr); }
    }
    forall a | a in owner
      ensures WordOk(Linked(h, prev, curr), Paint(owner, owner[curr].(used := false)), free + {curr}, a)
    {
      LinkWord(h, owner, free, prev, curr, a);
    }
  }

  lemma PlaceGapAll(h: Heap, owner: map<nat, Block>, free: set<nat>, prev: nat, curr: nat)
    requires Inv(h, owner, free) && LiveAt(owner, curr) && IsPlace(h, free, prev, curr)
    ensures forall f :: f in free ==> f <= prev || curr + owner[curr].size <= f
  {
    forall f | f in free ensures f <= prev || curr + owner[curr].size <= f {
      PlaceGap(h, owner, free, prev, curr, f);
    }
  }

  // ---------------------------------------------------- the block below takes `curr` in

  ghost function Swallowed(h: Heap, prev: nat, curr: nat): Heap {
    var h1 := SetNext(h, curr, Next(h, prev));
    SetNext(SetSize(h1, prev, Size(h1, prev) + Size(h1, curr)), prev, Next(h1, curr)).(freep := prev)
  }

  ghost predicate OnTop(h: Heap, owner: map<nat, Block>, free: set<nat>, prev: nat, curr: nat) {
    && Inv(h, owner, free) && LiveAt(owner, curr) && IsPlace(h, free, prev, curr)
    && prev + Size(h, prev) == curr && Size(h, prev) >= HEAD && curr + owner[curr].size != Next(h, prev)
  }

  lemma SwallowMem(h: Heap, owner: map<nat, Block>, free: set<nat>, prev: nat, curr: nat, f: nat)
    requires OnTop(h, owner, free, prev, curr) && (f in free || LiveAt(owner, f)) && f != curr
    ensures f in free ==> Next(Swallowed(h, prev, curr), f) == Next(h, f)
    ensures Size(Swallowed(h, prev, curr), f) == if f == prev then Size(h, prev) + owner[curr].size else Size(h, f)
  {
    assert WordOk(h, owner, free, curr) && FreeOk(h, owner, free, prev);
    assert f + 4 != prev by { NextWords(h, owner, free, prev, f); }
    assert curr + 4 != prev && curr != prev by { NextWords(h, owner, free, prev, curr); }
    if f in free {
      assert f != prev + 4 && f + 4 != curr by { SwallowApart(h, owner, free, prev, curr, f); }
    } else {
      assert WordOk(h, owner, free, f);
      assert InBlock(f + 4, owner[f]) && InBlock(f, owner[f]) && InBlock(curr, owner[curr]);
    }
  }

  lemma SwallowApart(h: Heap, owner: map<nat, Block>, free: set<nat>, prev: nat, curr: nat, f: nat)
    requires OnTop(h, owner, free, prev, curr) && f in free
    ensures prev in owner && f != prev + 4 && f + 4 != curr
    ensures f != h.base && f != prev ==> !InBlock(f, owner[prev]) && !InBlock(f, owner[curr]) && f + Size(h, f) != prev
    ensures f != h.base && f != prev && Size(h, f) == 4 ==> !InBlock(f + 4, owner[prev])
  {
    assert WordOk(h, owner, free, curr) && FreeOk(h, owner, free, prev) && FreeOk(h, owner, free, f);
    assert prev != h.base;
    assert WordOk(h, owner, free, prev);
    assert InBlock(prev, owner[prev]) && InBlock(prev + 4, owner[prev]) && InBlock(curr, owner[curr]);
    if f != h.base {
      assert WordOk(h, owner, free, f);
      assert InBlock(f, owner[f]);
      assert Size(h, f) > 4 ==> InBlock(f + 4, owner[f]);
    }
  }

  lemma SwallowFree(h: Heap, owner: map<nat, Block>, free: set<nat>, prev: nat, curr: nat, f: nat)
    requires OnTop(h, owner, free, prev, curr) && f in free
    ensures var k := Block(prev, Size(h, prev) + owner[curr].size, false);
            FreeOk(Swallowed(h, prev, curr), Paint(owner, k), free, f)
  {
    var k := Block(prev, Size(h, prev) + owner[curr].size, false);
    assert FreeOk(h, owner, free, f) && FreeOk(h, owner, free, prev);
    FreeWords(h, owner, free, f, curr);
    SwallowMem(h, owner, free, prev, curr, f);
    if f == prev {
      NoFreeAbove(h, owner, free, prev, curr);
      assert WordOk(h, owner, free, prev);
      assert InBlock(prev, k);
    } else if f != h.base {
      SwallowApart(h, owner, free, prev, curr, f);
      assert forall w {:trigger InBlock(w, k)} :: InBlock(w, k) ==> InBlock(w, owner[prev]) || InBlock(w, owner[curr]);
      PlaceGap(h, owner, free, prev, curr, f);
    }
  }

  lemma SwallowWord(h: Heap, owner: map<nat, Block>, free: set<nat>, prev: nat, curr: nat, a: nat)
    requires OnTop(h, owner, free, prev, curr) && a in owner
    ensures var k := Block(prev, Size(h, prev) + owner[curr].size, false);
            WordOk(Swallowed(h, prev, curr), Paint(owner, k), free, a)
  {
    var k := Block(prev, Size(h, prev) + owner[curr].size, false);
    assert WordOk(h, owner, free, a) && WordOk(h, owner, free, curr) && FreeOk(h, owner, free, prev);
    assert WordOk(h, owner, free, prev);
    InvTiled(h, owner, free);
    assert forall w {:trigger InBlock(w, k)} :: InBlock(w, k) ==> InBlock(w, owner[prev]) || InBlock(w, owner[curr]);
    PaintTile(owner, k, a);
    var b := owner[a];
    if b.used && b.start != curr {
      assert InBlock(b.start, b);
      SwallowMem(h, owner, free, prev, curr, b.start);
    }
  }

  lemma Swallow(h: Heap, owner: map<nat, Block>, free: set<nat>, prev: nat, curr: nat)
    requires OnTop(h, owner, free, prev, curr)
    ensures Inv(Swallowed(h, prev, curr), Paint(owner, Block(prev, Size(h, prev) + owner[curr].size, false)), free)
  {
    var k := Block(prev, Size(h, prev) + owner[curr].size, false);
    forall f | f in free ensures FreeOk(Swallowed(h, prev, curr), Paint(owner, k), free, f) {
      SwallowFree(h, owner, free, prev, curr, f);
    }
    forall a | a in owner ensures WordOk(Swallowed(h, prev, curr), Paint(owner, k), free, a) {
      SwallowWord(h, owner, free, prev, curr, a);
    }
  }

  // ---------------------------------------------------- `curr` takes the block above in

  /** `curr` has grown over the free block above it, which has left the list. */
  ghost function Grown(h: Heap, prev: nat, curr: nat): Heap {
    var nxt := Next(h, prev);
    SetNext(JoinUp(h, prev, curr), prev, Next(h, nxt)).(freep := prev)
  }

  ghost predicate Beneath(h: Heap, owner: map<nat, Block>, free: set<nat>, prev: nat, curr: nat) {
    && Inv(h, owner, free) && LiveAt(owner, curr) && IsPlace(h, free, prev, curr)
    && !(prev + Size(h, prev) == curr && Size(h, prev) == 4)
    && curr + owner[curr].size == Next(h, prev)
  }

  /** An element leaves the cycle. */
  lemma FollowsDelete(free: set<nat>, base: nat, prev: nat, x: nat, xn: nat, f: nat, fn: nat)
    requires Follows(free, base, prev, x) && Follows(free, base, x, xn) && Follows(free, base, f, fn)
    requires prev in free && f in free && base in free && x != base && x != prev && f != x
    requires forall g :: g in free ==> base <= g
    ensures f != prev ==> fn != x && Follows(free - {x}, base, f, fn)
    ensures Follows(free - {x}, base, prev, xn)
  {
  }

  lemma GrowFacts(h: Heap, owner: map<nat, Block>, free: set<nat>, prev: nat, curr: nat)
    requires Beneath(h, owner, free, prev, curr)
    ensures var n := Next(h, prev);
            && n in free && n > curr && n != h.base && n != prev
            && n in owner && owner[n] == Block(n, Size(h, n), false)
            && Size(h, curr) == owner[curr].size
            && n + Size(h, n) !in free
            && (Size(h, n) == 4 ==> n + 4 in owner && owner[n + 4].used)
  {
    assert FreeOk(h, owner, free, prev) && WordOk(h, owner, free, curr);
    assert FreeOk(h, owner, free, Next(h, prev));
  }

  lemma GrowApart(h: Heap, owner: map<nat, Block>, free: set<nat>, prev: nat, curr: nat, f: nat)
    requires Beneath(h, owner, free, prev, curr) && f in free
    ensures f + 4 != curr && f != curr && f != curr + 4 && f + 4 != prev && f >= h.base
    ensures f != h.base && f != Next(h, prev) ==>
              f in owner && !InBlock(f, owner[curr]) && !InBlock(f, Block(Next(h, prev), Size(h, Next(h, prev)), false))
  {
    GrowFacts(h, owner, free, prev, curr);
    assert FreeOk(h, owner, free, f) && WordOk(h, owner, free, curr) && FreeOk(h, owner, free, prev);
    FreeWords(h, owner, free, f, curr);
    NextWords(h, owner, free, prev, f);
    PlaceGap(h, owner, free, prev, curr, f);
    if f != h.base {
      assert WordOk(h, owner, free, f) && WordOk(h, owner, free, Next(h, prev));
    }
    if prev != h.base { assert WordOk(h, owner, free, prev); }
  }

  lemma GrowMem(h: Heap, owner: map<nat, Block>, free: set<nat>, prev: nat, curr: nat, f: nat)
    requires Beneath(h, owner, free, prev, curr) && (f in free || LiveAt(owner, f))
    ensures var h', n := Grown(h, prev, curr), Next(h, prev);
            && (f in free ==> Next(h', f) == if f == prev then Next(h, n) else Next(h, f))
            && Size(h', f) == (if f == curr then Size(h, curr) + Size(h, n) else Size(h, f))
            && Size(h', curr) == Size(h, curr) + Size(h, n)
  {
    GrowFacts(h, owner, free, prev, curr);
    assert f + 4 != prev && curr + 4 != prev by {
      NextWords(h, owner, free, prev, f);
      NextWords(h, owner, free, prev, curr);
    }
    if f in free {
      GrowApart(h, owner, free, prev, curr, f);
    } else {
      assert WordOk(h, owner, free, f) && WordOk(h, owner, free, curr);
      assert InBlock(f, owner[f]) && InBlock(f + 4, owner[f]) && InBlock(curr, owner[curr]);
    }
  }

  lemma GrowFree(h: Heap, owner: map<nat, Block>, free: set<nat>, prev: nat, curr: nat, f: nat)
    requires Beneath(h, owner, free, prev, curr) && f in free && f != Next(h, prev)
    ensures var n := Next(h, prev);
            var k := Block(curr, owner[curr].size + Size(h, n), true);
            FreeOk(Grown(h, prev, curr), Paint(owner, k), free - {n}, f)
  {
    var n := Next(h, prev);
    var k := Block(curr, owner[curr].size + Size(h, n), true);
    GrowFacts(h, owner, free, prev, curr);
    GrowMem(h, owner, free, prev, curr, f);
    assert FreeOk(h, owner, free, f) && FreeOk(h, owner, free, prev) && FreeOk(h, owner, free, n);
    GrowAll(h, owner, free);
    assert Follows(free - {n}, h.base, f, Next(Grown(h, prev, curr), f)) by {
      FollowsDelete(free, h.base, prev, n, Next(h, n), f, Next(h, f));
    }
    if f != h.base {
      GrowApart(h, owner, free, prev, curr, f);
      assert forall w {:trigger InBlock(w, k)} :: InBlock(w, k) ==> InBlock(w, owner[curr]) || InBlock(w, owner[n]);
    }
  }

  lemma GrowAll(h: Heap, owner: map<nat, Block>, free: set<nat>)
    requires Inv(h, owner, free)
    ensures forall g :: g in free ==> h.base <= g
  {
    forall g | g in free ensures h.base <= g { assert FreeOk(h, owner, free, g); }
  }

  lemma GrowWord(h: Heap, owner: map<nat, Block>, free: set<nat>, prev: nat, curr: nat, a: nat)
    requires Beneath(h, owner, free, prev, curr) && a in owner
    ensures var n := Next(h, prev);
            var k := Block(curr, owner[curr].size + Size(h, n), true);
            WordOk(Grown(h, prev, curr), Paint(owner, k), free - {n}, a)
  {
    var n := Next(h, prev);
    var k := Block(curr, owner[curr].size + Size(h, n), true);
    GrowFacts(h, owner, free, prev, curr);
    GrowTile(h, owner, free, prev, curr, a);
    assert WordOk(h, owner, free, a);
    var b := owner[a];
    assert InBlock(b.start, b);
    GrowMem(h, owner, free, prev, curr, curr);
    if b.used { GrowMem(h, owner, free, prev, curr, b.start); }
  }

  /** The words of the grown block are those of the two. */
  lemma GrowTile(h: Heap, owner: map<nat, Block>, free: set<nat>, prev: nat, curr: nat, a: nat)
    requires Beneath(h, owner, free, prev, curr) && a in owner
    ensures var n := Next(h, prev);
            var k := Block(curr, owner[curr].size + Size(h, n), true);
            && TileOk(Paint(owner, k), a)
            && (InBlock(a, k) <==> owner[a].start == curr || owner[a].start == n)
  {
    var n := Next(h, prev);
    var k := Block(curr, owner[curr].size + Size(h, n), true);
    GrowFacts(h, owner, free, prev, curr);
    assert WordOk(h, owner, free, a) && WordOk(h, owner, free, curr) && WordOk(h, owner, free, n);
    InvTiled(h, owner, free);
    assert forall w {:trigger InBlock(w, k)} :: InBlock(w, k) ==> InBlock(w, owner[curr]) || InBlock(w, owner[n]);
    PaintTile(owner, k, a);
    assert InBlock(owner[a].start, owner[a]);
    assert owner[a].start == curr ==> InBlock(a, owner[curr]);
    assert owner[a].start == n ==> InBlock(a, owner[n]);
  }

  lemma Grow(h: Heap, owner: map<nat, Block>, free: set<nat>, prev: nat, curr: nat)
    requires Beneath(h, owner, free, prev, curr)
    ensures var n := Next(h, prev);
            Inv(Grown(h, prev, curr), Paint(owner, Block(curr, owner[curr].size + Size(h, n), true)), free - {n})
  {
    var n := Next(h, prev);
    var k := Block(curr, owner[curr].size + Size(h, n), true);
    GrowFacts(h, owner, free, prev, curr);
    InvBuilt(h, Grown(h, prev, curr), owner, Paint(owner, k), free, free - {n}, prev) by {
      forall f | f in free - {n} ensures FreeOk(Grown(h, prev, curr), Paint(owner, k), free - {n}, f) {
        GrowFree(h, owner, free, prev, curr, f);
      }
      forall a | a in owner ensures WordOk(Grown(h, prev, curr), Paint(owner, k), free - {n}, a) {
        GrowWord(h, owner, free, prev, curr, a);
      }
    }
  }

  /** The invariant from its parts. */
  lemma InvBuilt(h: Heap, h': Heap, owner: map<nat, Block>, owner': map<nat, Block>, free: set<nat>, free': set<nat>,
                 prev: nat)
    requires Inv(h, owner, free) && h'.base == h.base && h'.freep == prev && prev in free' && h.base in free'
    requires forall f {:trigger FreeOk(h', owner', free', f)} :: f in free' ==> FreeOk(h', owner', free', f)
    requires forall a {:trigger WordOk(h', owner', free', a)} :: a in owner' ==> WordOk(h', owner', free', a)
    ensures Inv(h', owner', free')
  {
  }

  // ---------------------------------------------------------------------- all of `free`

  /** The free block right below `curr` is a single word, too small for its own header:
      its size is kept in the first word of `curr`. */
  ghost predicate SliverBelow(h: Heap, free: set<nat>, curr: nat) {
    curr >= 4 && curr - 4 in free && curr - 4 != h.base && Size(h, curr - 4) == 4
  }

  lemma PlaceSliver(h: Heap, owner: map<nat, Block>, free: set<nat>, prev: nat, curr: nat)
    requires Inv(h, owner, free) && LiveAt(owner, curr) && IsPlace(h, free, prev, curr)
    ensures SliverBelow(h, free, curr) <==> prev + Size(h, prev) == curr && Size(h, prev) == 4
    ensures prev + Size(h, prev) == curr ==> Size(h, prev) >= 4
  {
    assert FreeOk(h, owner, free, prev) && WordOk(h, owner, free, curr);
    if prev != h.base { assert WordOk(h, owner, free, prev); }
    if SliverBelow(h, free, curr) {
      PlaceGap(h, owner, free, prev, curr, curr - 4);
      assert FreeOk(h, owner, free, curr - 4);
    }
  }

  /** Two neighbours, the upper one live, become one free block. */
  lemma SwallowLive(owner: map<nat, Block>, prev: nat, curr: nat)
    requires Tiled(owner) && prev in owner && LiveAt(owner, curr)
    requires owner[prev].start == prev && !owner[prev].used && prev + owner[prev].size == curr
    ensures var r := Paint(owner, Block(prev, owner[prev].size + owner[curr].size, false));
            Live(r) == Live(owner) - {curr}
  {
    var k := Block(prev, owner[prev].size + owner[curr].size, false);
    assert TileOk(owner, prev) && TileOk(owner, curr);
    assert forall w {:trigger InBlock(w, k)} :: InBlock(w, k) ==> InBlock(w, owner[prev]) || InBlock(w, owner[curr]);
    assert InBlock(curr, k);
  }

  /** A live block becomes free. */
  lemma LinkLive(owner: map<nat, Block>, curr: nat)
    requires Tiled(owner) && LiveAt(owner, curr)
    ensures var r := Paint(owner, owner[curr].(used := false));
            Live(r) == Live(owner) - {curr}
  {
    var k := owner[curr].(used := false);
    assert TileOk(owner, curr);
    assert forall w {:trigger InBlock(w, k)} :: InBlock(w, k) ==> InBlock(w, owner[curr]);
    assert InBlock(curr, k);
  }

  /** Freed right above a free block. */
  lemma InsertJoin(h: Heap, owner: map<nat, Block>, free: set<nat>, prev: nat, curr: nat)
      returns (owner': map<nat, Block>)
    requires Inv(h, owner, free) && LiveAt(owner, curr) && IsPlace(h, free, prev, curr)
    requires !SliverBelow(h, free, curr) && curr + owner[curr].size != Next(h, prev)
    requires prev + Size(h, prev) == curr
    ensures Inv(JoinDown(SetNext(h, curr, Next(h, prev)), prev, curr).(freep := prev), owner', free)
    ensures owner'.Keys == owner.Keys && Live(owner') == Live(owner) - {curr}
  {
    OnTopFacts(h, owner, free, prev, curr);
    InvTiled(h, owner, free);
    Swallow(h, owner, free, prev, curr);
    SwallowLive(owner, prev, curr);
    JoinSame(h, owner, free, prev, curr);
    owner' := Paint(owner, Block(prev, Size(h, prev) + owner[curr].size, false));
  }

  lemma OnTopFacts(h: Heap, owner: map<nat, Block>, free: set<nat>, prev: nat, curr: nat)
    requires Inv(h, owner, free) && LiveAt(owner, curr) && IsPlace(h, free, prev, curr)
    requires !SliverBelow(h, free, curr) && curr + owner[curr].size != Next(h, prev) && prev + Size(h, prev) == curr
    ensures OnTop(h, owner, free, prev, curr)
    ensures prev in owner && owner[prev] == Block(prev, Size(h, prev), false)
  {
    PlaceSliver(h, owner, free, prev, curr);
    assert FreeOk(h, owner, free, prev) && WordOk(h, owner, free, curr);
    assert prev != h.base;
    assert WordOk(h, owner, free, prev);
  }

  lemma JoinSame(h: Heap, owner: map<nat, Block>, free: set<nat>, prev: nat, curr: nat)
    requires OnTop(h, owner, free, prev, curr)
    ensures JoinDown(SetNext(h, curr, Next(h, prev)), prev, curr).(freep := prev) == Swallowed(h, prev, curr)
  {
    assert prev + 4 != curr;
  }

  /** Freed with live neighbours on both sides. */
  lemma InsertLink(h: Heap, owner: map<nat, Block>, free: set<nat>, prev: nat, curr: nat)
      returns (owner': map<nat, Block>)
    requires Inv(h, owner, free) && LiveAt(owner, curr) && IsPlace(h, free, prev, curr)
    requires !SliverBelow(h, free, curr) && curr + owner[curr].size != Next(h, prev)
    requires prev + Size(h, prev) != curr
    ensures Inv(JoinDown(SetNext(h, curr, Next(h, prev)), prev, curr).(freep := prev), owner', free + {curr})
    ensures owner'.Keys == owner.Keys && Live(owner') == Live(owner) - {curr}
  {
    PlaceSliver(h, owner, free, prev, curr);
    assert FreeOk(h, owner, free, prev) && WordOk(h, owner, free, curr);
    InvTiled(h, owner, free);
    LinkIn(h, owner, free, prev, curr);
    LinkLive(owner, curr);
    assert Size(SetNext(h, curr, Next(h, prev)), prev) == Size(h, prev) by {
      LinkMem(h, owner, free, prev, curr, prev);
    }
    owner' := Paint(owner, owner[curr].(used := false));
  }

  /** Freed without a free neighbour above. */
  lemma InsertLow(h: Heap, owner: map<nat, Block>, free: set<nat>, prev: nat, curr: nat)
      returns (owner': map<nat, Block>, free': set<nat>)
    requires Inv(h, owner, free) && LiveAt(owner, curr) && IsPlace(h, free, prev, curr)
    requires !SliverBelow(h, free, curr) && curr + owner[curr].size != Next(h, prev)
    ensures Inv(JoinDown(SetNext(h, curr, Next(h, prev)), prev, curr).(freep := prev), owner', free')
    ensures owner'.Keys == owner.Keys && Live(owner') == Live(owner) - {curr}
  {
    if prev + Size(h, prev) == curr {
      owner' := InsertJoin(h, owner, free, prev, curr);
      free' := free;
    } else {
      owner' := InsertLink(h, owner, free, prev, curr);
      free' := free + {curr};
    }
  }

  /** The block takes in the free one above and is live still. */
  lemma GrowLive(h: Heap, owner: map<nat, Block>, free: set<nat>, prev: nat, curr: nat)
      returns (g: Heap, o: map<nat, Block>, r: set<nat>)
    requires Inv(h, owner, free) && LiveAt(owner, curr) && IsPlace(h, free, prev, curr)
    requires !SliverBelow(h, free, curr) && curr + owner[curr].size == Next(h, prev)
    ensures Inv(g, o, r) && LiveAt(o, curr) && IsPlace(g, r, prev, curr) && !SliverBelow(g, r, curr)
    ensures curr + o[curr].size != Next(g, prev)
    ensures o.Keys == owner.Keys && Live(o) - {curr} == Live(owner) - {curr}
    ensures JoinDown(SetNext(g, curr, Next(g, prev)), prev, curr).(freep := prev) == Insert(h, prev, curr)
  {
    assert WordOk(h, owner, free, curr);
    PlaceSliver(h, owner, free, prev, curr);
    GrowFacts(h, owner, free, prev, curr);
    Grow(h, owner, free, prev, curr);
    GrowReady(h, owner, free, prev, curr);
    GrowSame(h, owner, free, prev, curr);
    var n := Next(h, prev);
    g, o, r := Grown(h, prev, curr), Paint(owner, Block(curr, owner[curr].size + Size(h, n), true)), free - {n};
  }

  /** Freed right below a free block. */
  lemma InsertGrown(h: Heap, owner: map<nat, Block>, free: set<nat>, prev: nat, curr: nat)
      returns (owner': map<nat, Block>, free': set<nat>)
    requires Inv(h, owner, free) && LiveAt(owner, curr) && IsPlace(h, free, prev, curr)
    requires !SliverBelow(h, free, curr) && curr + owner[curr].size == Next(h, prev)
    ensures Inv(Insert(h, prev, curr), owner', free')
    ensures owner'.Keys == owner.Keys && Live(owner') == Live(owner) - {curr}
  {
    var g, o, r := GrowLive(h, owner, free, prev, curr);
    owner', free' := InsertLow(g, o, r, prev, curr);
  }

  /** Freeing a live block keeps the list and the tiling, and only that block stops being
      live, unless a sliver lies right below it. */
  lemma FreeKeeps(h: Heap, owner: map<nat, Block>, free: set<nat>, prev: nat, curr: nat)
      returns (owner': map<nat, Block>, free': set<nat>)
    requires Inv(h, owner, free) && LiveAt(owner, curr) && IsPlace(h, free, prev, curr)
    requires !SliverBelow(h, free, curr)
    ensures Inv(Insert(h, prev, curr), owner', free')
    ensures owner'.Keys == owner.Keys && Live(owner') == Live(owner) - {curr}
  {
    assert WordOk(h, owner, free, curr);
    if curr + owner[curr].size == Next(h, prev) {
      owner', free' := InsertGrown(h, owner, free, prev, curr);
    } else {
      owner', free' := InsertLow(h, owner, free, prev, curr);
    }
  }

  /** After growing, `curr` is live, in place, and has no free block above. */
  lemma GrowReady(h: Heap, owner: map<nat, Block>, free: set<nat>, prev: nat, curr: nat)
    requires Beneath(h, owner, free, prev, curr)
    ensures var n := Next(h, prev);
            var k := Block(curr, owner[curr].size + Size(h, n), true);
            var g, o, r := Grown(h, prev, curr), Paint(owner, k), free - {n};
            && LiveAt(o, curr) && o[curr] == k && IsPlace(g, r, prev, curr)
            && !SliverBelow(g, r, curr) && curr + k.size != Next(g, prev)
            && Live(o) - {curr} == Live(owner) - {curr}
  {
    var n := Next(h, prev);
    var k := Block(curr, owner[curr].size + Size(h, n), true);
    GrowFacts(h, owner, free, prev, curr);
    assert WordOk(h, owner, free, curr) && FreeOk(h, owner, free, n);
    assert FreeOk(h, owner, free, prev) && WordOk(h, owner, free, n);
    GrowMem(h, owner, free, prev, curr, prev);
    assert InBlock(curr, k);
    if curr >= 4 && curr - 4 in free { GrowApart(h, owner, free, prev, curr, curr - 4); }
    InvTiled(h, owner, free);
    assert forall w {:trigger InBlock(w, k)} :: InBlock(w, k) ==> InBlock(w, owner[curr]) || InBlock(w, owner[n]);
  }

  /** The stale link of `prev` is never read: the two steps of `free` commute with dropping it. */
  lemma GrowSame(h: Heap, owner: map<nat, Block>, free: set<nat>, prev: nat, curr: nat)
    requires Beneath(h, owner, free, prev, curr)
    ensures var g := Grown(h, prev, curr);
            JoinDown(SetNext(g, curr, Next(g, prev)), prev, curr).(freep := prev) == Insert(h, prev, curr)
  {
    GrowFacts(h, owner, free, prev, curr);
    NextWords(h, owner, free, prev, curr);
    GrowApart(h, owner, free, prev, curr, prev);
    var g, u := Grown(h, prev, curr), JoinUp(h, prev, curr);
    var v := SetNext(g, curr, Next(g, prev));
    assert Size(v, prev) == Size(u, prev) && Size(v, curr) == Size(u, curr) && Next(v, curr) == Next(u, curr);
    assert JoinDown(v, prev, curr).mem == JoinDown(u, prev, curr).mem;
  }

  /** With a sliver right below, freeing always breaks the list: linking `curr` overwrites
      the sliver's size, and no reading of the headers is consistent any more. */
  lemma SliverBreaks(h: Heap, owner: map<nat, Block>, free: set<nat>, prev: nat, curr: nat,
                     owner': map<nat, Block>, free': set<nat>)
    requires Inv(h, owner, free) && LiveAt(owner, curr) && IsPlace(h, free, prev, curr)
    requires SliverBelow(h, free, curr)
    ensures !Inv(Insert(h, prev, curr), owner', free')
  {
    PlaceSliver(h, owner, free, prev, curr);
    assert FreeOk(h, owner, free, prev) && WordOk(h, owner, free, curr);
    var n := Next(h, prev);
    assert FreeOk(h, owner, free, n);
    GrowAll(h, owner, free);
    var h' := Insert(h, prev, curr);
    assert Next(h', prev) == curr && Size(h', prev) >= HEAD;
    if Inv(h', owner', free') {
      assert FreeOk(h', owner', free', prev);
      assert FreeOk(h', owner', free', curr);
      assert WordOk(h', owner', free', prev);
      assert InBlock(curr, owner'[prev]);
    }
  }

  /** Exactly when freeing keeps the heap consistent. */
  lemma FreeExactly(h: Heap, owner: map<nat, Block>, free: set<nat>, prev: nat, curr: nat)
    requires Inv(h, owner, free) && LiveAt(owner, curr) && IsPlace(h, free, prev, curr)
    ensures (exists owner', free' :: Inv(Insert(h, prev, curr), owner', free')) <==> !SliverBelow(h, free, curr)
  {
    if SliverBelow(h, free, curr) {
      forall owner', free' ensures !Inv(Insert(h, prev, curr), owner', free') {
        SliverBreaks(h, owner, free, prev, curr, owner', free');
      }
    } else {
      var owner', free' := FreeKeeps(h, owner, free, prev, curr);
    }
  }

  // -------------------------------------------------------------------- carving a block

  /** `curr` is free, large enough for `size`, and `prev` precedes it. */
  ghost predicate Fits(h: Heap, owner: map<nat, Block>, free: set<nat>, prev: nat, curr: nat, size: nat) {
    && Inv(h, owner, free) && prev in free && Next(h, prev) == curr
    && HEAD <= size <= Size(h, curr) && size % 4 == 0
  }

  lemma FitsFacts(h: Heap, owner: map<nat, Block>, free: set<nat>, prev: nat, curr: nat, size: nat)
    requires Fits(h, owner, free, prev, curr, size)
    ensures curr in free && curr > h.base && prev != curr && curr in owner
    ensures owner[curr] == Block(curr, Size(h, curr), false)
    ensures Follows(free, h.base, prev, curr) && Follows(free, h.base, curr, Next(h, curr))
    ensures curr + Size(h, curr) !in free && curr % 4 == 0 && Size(h, curr) % 4 == 0
  {
    assert FreeOk(h, owner, free, prev);
    assert FreeOk(h, owner, free, curr);
    assert WordOk(h, owner, free, curr);
  }

  ghost function TakenWhole(h: Heap, prev: nat, curr: nat): Heap {
    SetNext(h, prev, Next(h, curr)).(freep := prev)
  }

  lemma WholeMem(h: Heap, owner: map<nat, Block>, free: set<nat>, prev: nat, f: nat, v: nat)
    requires Inv(h, owner, free) && prev in free && (f in free || LiveAt(owner, f))
    ensures f in free ==> Next(SetNext(h, prev, v), f) == if f == prev then v else Next(h, f)
    ensures Size(SetNext(h, prev, v), f) == Size(h, f)
  {
    NextWords(h, owner, free, prev, f);
  }

  lemma WholeFree(h: Heap, owner: map<nat, Block>, free: set<nat>, prev: nat, curr: nat, f: nat)
    requires Fits(h, owner, free, prev, curr, Size(h, curr)) && f in free && f != curr
    ensures FreeOk(TakenWhole(h, prev, curr), Paint(owner, Block(curr, Size(h, curr), true)), free - {curr}, f)
  {
    var k := Block(curr, Size(h, curr), true);
    FitsFacts(h, owner, free, prev, curr, Size(h, curr));
    assert FreeOk(h, owner, free, f) && FreeOk(h, owner, free, prev);
    WholeMem(h, owner, free, prev, f, Next(h, curr));
    GrowAll(h, owner, free);
    FollowsDelete(free, h.base, prev, curr, Next(h, curr), f, Next(h, f));
    assert WordOk(h, owner, free, curr);
    assert forall w {:trigger InBlock(w, k)} :: InBlock(w, k) ==> InBlock(w, owner[curr]);
  }

  lemma WholeWord(h: Heap, owner: map<nat, Block>, free: set<nat>, prev: nat, curr: nat, a: nat)
    requires Fits(h, owner, free, prev, curr, Size(h, curr)) && a in owner
    ensures WordOk(TakenWhole(h, prev, curr), Paint(owner, Block(curr, Size(h, curr), true)), free - {curr}, a)
  {
    var k := Block(curr, Size(h, curr), true);
    FitsFacts(h, owner, free, prev, curr, Size(h, curr));
    assert WordOk(h, owner, free, a) && WordOk(h, owner, free, curr);
    InvTiled(h, owner, free);
    assert forall w {:trigger InBlock(w, k)} :: InBlock(w, k) ==> InBlock(w, owner[curr]);
    PaintTile(owner, k, a);
    var b := owner[a];
    WholeMem(h, owner, free, prev, curr, Next(h, curr));
    if b.used {
      assert InBlock(b.start, b);
      WholeMem(h, owner, free, prev, b.start, Next(h, curr));
    } else {
      assert InBlock(b.start, b);
      assert b.start == curr ==> InBlock(a, k);
    }
  }

  /** A block of the exact size leaves the list. */
  lemma Whole(h: Heap, owner: map<nat, Block>, free: set<nat>, prev: nat, curr: nat)
    requires Fits(h, owner, free, prev, curr, Size(h, curr))
    ensures Inv(TakenWhole(h, prev, curr), Paint(owner, Block(curr, Size(h, curr), true)), free - {curr})
  {
    FitsFacts(h, owner, free, prev, curr, Size(h, curr));
    var k := Block(curr, Size(h, curr), true);
    forall f | f in free - {curr} ensures FreeOk(TakenWhole(h, prev, curr), Paint(owner, k), free - {curr}, f) {
      WholeFree(h, owner, free, prev, curr, f);
    }
    forall a | a in owner ensures WordOk(TakenWhole(h, prev, curr), Paint(owner, k), free - {curr}, a) {
      WholeWord(h, owner, free, prev, curr, a);
    }
  }

  ghost function TakenTail(h: Heap, prev: nat, curr: nat, size: nat): Heap
    requires size <= Size(h, curr)
  {
    var rest := Size(h, curr) - size;
    SetSize(SetSize(h, curr, rest), curr + rest, size).(freep := prev)
  }

  /** The words of `curr` become a free block and, after it, a live one of `size`. */
  ghost function Cut(owner: map<nat, Block>, curr: nat, rest: nat, size: nat): (r: map<nat, Block>) {
    Paint(Paint(owner, Block(curr, rest, false)), Block(curr + rest, size, true))
  }

  ghost predicate FitsTail(h: Heap, owner: map<nat, Block>, free: set<nat>, prev: nat, curr: nat, size: nat) {
    Fits(h, owner, free, prev, curr, size) && size < Size(h, curr)
  }

  lemma CutTile(owner: map<nat, Block>, curr: nat, rest: nat, size: nat, a: nat)
    requires Tiled(owner) && curr in owner && owner[curr] == Block(curr, rest + size, false) && a in owner
    requires rest % 4 == 0 && size % 4 == 0 && rest >= 4 && size >= HEAD
    ensures TileOk(Cut(owner, curr, rest, size), a)
  {
    assert TileOk(owner, a) && TileOk(owner, curr);
    if InBlock(a, owner[curr]) {
      CutHalves(owner, curr, rest, size, a);
    } else {
      CutOthers(owner, curr, rest, size, a);
    }
  }

  lemma CutHalves(owner: map<nat, Block>, curr: nat, rest: nat, size: nat, a: nat)
    requires Tiled(owner) && curr in owner && owner[curr] == Block(curr, rest + size, false) && a in owner
    requires rest % 4 == 0 && size % 4 == 0 && rest >= 4 && size >= HEAD && InBlock(a, owner[curr])
    ensures TileOk(Cut(owner, curr, rest, size), a)
  {
    var c, d := Block(curr, rest, false), Block(curr + rest, size, true);
    assert TileOk(owner, curr);
    assert forall w {:trigger InBlock(w, c)} :: InBlock(w, c) ==> InBlock(w, owner[curr]) && !InBlock(w, d);
    assert forall w {:trigger InBlock(w, d)} :: InBlock(w, d) ==> InBlock(w, owner[curr]);
    assert InBlock(a, c) || InBlock(a, d);
  }

  lemma CutOthers(owner: map<nat, Block>, curr: nat, rest: nat, size: nat, a: nat)
    requires Tiled(owner) && curr in owner && owner[curr] == Block(curr, rest + size, false) && a in owner
    requires !InBlock(a, owner[curr])
    ensures TileOk(Cut(owner, curr, rest, size), a)
  {
    var r, b := Cut(owner, curr, rest, size), owner[a];
    assert TileOk(owner, a) && TileOk(owner, curr);
    CutElsewhere(owner, curr, rest, size, a);
    forall w {:trigger InBlock(w, b)} | InBlock(w, b) ensures w in r && r[w] == b {
      assert owner[w] == b;
      CutElsewhere(owner, curr, rest, size, w);
    }
  }

  /** No header word of another block lies inside a free block. */
  lemma InsideFree(h: Heap, owner: map<nat, Block>, free: set<nat>, curr: nat, f: nat)
    requires Inv(h, owner, free) && curr in free && curr in owner && (f in free || LiveAt(owner, f)) && f != curr
    ensures !InBlock(f, owner[curr]) && !InBlock(f + 4, owner[curr])
  {
    assert FreeOk(h, owner, free, curr) && WordOk(h, owner, free, curr);
    if f in free {
      assert FreeOk(h, owner, free, f);
      if f != h.base {
        assert WordOk(h, owner, free, f);
        assert InBlock(f, owner[f]);
        if Size(h, f) > 4 { assert InBlock(f + 4, owner[f]); }
        else { assert f + Size(h, f) !in free; }
      }
    } else {
      assert WordOk(h, owner, free, f);
      assert InBlock(f, owner[f]) && InBlock(f + 4, owner[f]);
    }
  }

  lemma TailMem(h: Heap, owner: map<nat, Block>, free: set<nat>, prev: nat, curr: nat, size: nat, f: nat)
    requires FitsTail(h, owner, free, prev, curr, size) && (f in free || LiveAt(owner, f))
    ensures var h' := TakenTail(h, prev, curr, size);
            && (f in free ==> Next(h', f) == Next(h, f))
            && Size(h', f) == (if f == curr then Size(h, curr) - size else Size(h, f))
            && Size(h', curr + Size(h, curr) - size) == size
  {
    FitsFacts(h, owner, free, prev, curr, size);
    TailApart(h, owner, free, prev, curr, size, f);
  }

  lemma TailApart(h: Heap, owner: map<nat, Block>, free: set<nat>, prev: nat, curr: nat, size: nat, f: nat)
    requires FitsTail(h, owner, free, prev, curr, size) && (f in free || LiveAt(owner, f))
    ensures var t := curr + Size(h, curr) - size;
            && curr + 4 <= t && f + 4 != t + 4
            && (f in free ==> f != t + 4 && f != curr + 4)
            && (f != curr ==> f + 4 != curr + 4)
  {
    FitsFacts(h, owner, free, prev, curr, size);
    var t := curr + Size(h, curr) - size;
    assert InBlock(t, owner[curr]) && InBlock(t + 4, owner[curr]) && InBlock(curr + 4, owner[curr]);
    if f != curr { InsideFree(h, owner, free, curr, f); }
  }

  /** What the cut leaves at the words of other blocks. */
  lemma CutElsewhere(owner: map<nat, Block>, curr: nat, rest: nat, size: nat, w: nat)
    requires curr in owner && owner[curr].start == curr && owner[curr].size == rest + size && w in owner
    ensures var r := Cut(owner, curr, rest, size);
      w in r && (!InBlock(w, owner[curr]) ==> r[w] == owner[w])
  {
    var c, d := Block(curr, rest, false), Block(curr + rest, size, true);
    assert InBlock(w, c) ==> InBlock(w, owner[curr]);
    assert InBlock(w, d) ==> InBlock(w, owner[curr]);
  }

  /** The first words of the two parts. */
  lemma CutAt(owner: map<nat, Block>, curr: nat, rest: nat, size: nat)
    requires curr in owner && curr + rest in owner && curr % 4 == 0 && rest % 4 == 0 && rest >= 4 && size >= 4
    ensures var r := Cut(owner, curr, rest, size);
      && curr in r && r[curr] == Block(curr, rest, false)
      && curr + rest in r && r[curr + rest] == Block(curr + rest, size, true)
  {
    assert InBlock(curr, Block(curr, rest, false)) && !InBlock(curr, Block(curr + rest, size, true));
    assert InBlock(curr + rest, Block(curr + rest, size, true));
  }

  /** The cut is inside the free block. */
  lemma TailWhere(h: Heap, owner: map<nat, Block>, free: set<nat>, prev: nat, curr: nat, size: nat)
    requires FitsTail(h, owner, free, prev, curr, size)
    ensures var t := curr + Size(h, curr) - size; t in owner && t !in free
  {
    FitsFacts(h, owner, free, prev, curr, size);
    var t := curr + Size(h, curr) - size;
    assert WordOk(h, owner, free, curr);
    assert InBlock(t, owner[curr]);
    if t in free { InsideFree(h, owner, free, curr, t); }
  }

  lemma TailCurr(h: Heap, owner: map<nat, Block>, free: set<nat>, prev: nat, curr: nat, size: nat)
    requires FitsTail(h, owner, free, prev, curr, size)
    ensures FreeOk(TakenTail(h, prev, curr, size), Cut(owner, curr, Size(h, curr) - size, size), free, curr)
  {
    FitsFacts(h, owner, free, prev, curr, size);
    TailMem(h, owner, free, prev, curr, size, curr);
    TailWhere(h, owner, free, prev, curr, size);
    CutAt(owner, curr, Size(h, curr) - size, size);
  }

  /** A free block whose header and whose words' owners stay the same is still right. */
  lemma FreeSame(h: Heap, h': Heap, owner: map<nat, Block>, r: map<nat, Block>, free: set<nat>, f: nat)
    requires FreeOk(h, owner, free, f) && h'.base == h.base && Next(h', f) == Next(h, f) && Size(h', f) == Size(h, f)
    requires f in owner ==> f in r && r[f] == owner[f]
    requires f + 4 in owner ==> f + 4 in r && r[f + 4] == owner[f + 4]
    ensures FreeOk(h', r, free, f)
  {
  }

  lemma TailOther(h: Heap, owner: map<nat, Block>, free: set<nat>, prev: nat, curr: nat, size: nat, f: nat)
    requires FitsTail(h, owner, free, prev, curr, size) && f in free && f != curr
    ensures FreeOk(TakenTail(h, prev, curr, size), Cut(owner, curr, Size(h, curr) - size, size), free, f)
  {
    var r, rest := Cut(owner, curr, Size(h, curr) - size, size), Size(h, curr) - size;
    FitsFacts(h, owner, free, prev, curr, size);
    TailMem(h, owner, free, prev, curr, size, f);
    InsideFree(h, owner, free, curr, f);
    if f in owner { CutElsewhere(owner, curr, rest, size, f); }
    if f + 4 in owner { CutElsewhere(owner, curr, rest, size, f + 4); }
    assert FreeOk(h, owner, free, f);
    FreeSame(h, TakenTail(h, prev, curr, size), owner, r, free, f);
  }

  lemma TailFree(h: Heap, owner: map<nat, Block>, free: set<nat>, prev: nat, curr: nat, size: nat, f: nat)
    requires FitsTail(h, owner, free, prev, curr, size) && f in free
    ensures FreeOk(TakenTail(h, prev, curr, size), Cut(owner, curr, Size(h, curr) - size, size), free, f)
  {
    if f == curr {
      TailCurr(h, owner, free, prev, curr, size);
    } else {
      TailOther(h, owner, free, prev, curr, size, f);
    }
  }

  /** What the cut leaves at the words of `curr`. */
  lemma CutInside(owner: map<nat, Block>, curr: nat, rest: nat, size: nat, w: nat)
    requires curr in owner && owner[curr].start == curr && owner[curr].size == rest + size
    requires w in owner && InBlock(w, owner[curr])
    ensures var r := Cut(owner, curr, rest, size);
      w in r && (r[w] == Block(curr, rest, false) || r[w] == Block(curr + rest, size, true))
  {
    assert InBlock(w, Block(curr, rest, false)) || InBlock(w, Block(curr + rest, size, true));
  }

  lemma TailInside(h: Heap, owner: map<nat, Block>, free: set<nat>, prev: nat, curr: nat, size: nat, a: nat)
    requires FitsTail(h, owner, free, prev, curr, size) && a in owner && curr in owner && InBlock(a, owner[curr])
    requires TileOk(Cut(owner, curr, Size(h, curr) - size, size), a)
    ensures WordOk(TakenTail(h, prev, curr, size), Cut(owner, curr, Size(h, curr) - size, size), free, a)
  {
    FitsFacts(h, owner, free, prev, curr, size);
    assert WordOk(h, owner, free, a);
    TailMem(h, owner, free, prev, curr, size, curr);
    CutInside(owner, curr, Size(h, curr) - size, size, a);
  }

  lemma TailOutside(h: Heap, owner: map<nat, Block>, free: set<nat>, prev: nat, curr: nat, size: nat, a: nat)
    requires FitsTail(h, owner, free, prev, curr, size) && a in owner && curr in owner && !InBlock(a, owner[curr])
    requires TileOk(Cut(owner, curr, Size(h, curr) - size, size), a)
    ensures WordOk(TakenTail(h, prev, curr, size), Cut(owner, curr, Size(h, curr) - size, size), free, a)
  {
    FitsFacts(h, owner, free, prev, curr, size);
    assert WordOk(h, owner, free, a);
    CutElsewhere(owner, curr, Size(h, curr) - size, size, a);
    var b := owner[a];
    assert InBlock(b.start, b);
    if b.used { TailMem(h, owner, free, prev, curr, size, b.start); }
  }

  lemma TailWord(h: Heap, owner: map<nat, Block>, free: set<nat>, prev: nat, curr: nat, size: nat, a: nat)
    requires FitsTail(h, owner, free, prev, curr, size) && a in owner
    ensures WordOk(TakenTail(h, prev, curr, size), Cut(owner, curr, Size(h, curr) - size, size), free, a)
  {
    FitsFacts(h, owner, free, prev, curr, size);
    InvTiled(h, owner, free);
    CutTile(owner, curr, Size(h, curr) - size, size, a);
    if InBlock(a, owner[curr]) {
      TailInside(h, owner, free, prev, curr, size, a);
    } else {
      TailOutside(h, owner, free, prev, curr, size, a);
    }
  }

  /** A larger block keeps its place and gives up its tail. */
  lemma Tail(h: Heap, owner: map<nat, Block>, free: set<nat>, prev: nat, curr: nat, size: nat)
    requires FitsTail(h, owner, free, prev, curr, size)
    ensures Inv(TakenTail(h, prev, curr, size), Cut(owner, curr, Size(h, curr) - size, size), free)
  {
    FitsFacts(h, owner, free, prev, curr, size);
    var r := Cut(owner, curr, Size(h, curr) - size, size);
    forall f | f in free ensures FreeOk(TakenTail(h, prev, curr, size), r, free, f) {
      TailFree(h, owner, free, prev, curr, size, f);
    }
    forall a | a in owner ensures WordOk(TakenTail(h, prev, curr, size), r, free, a) {
      TailWord(h, owner, free, prev, curr, size, a);
    }
  }

  lemma WholeLive(owner: map<nat, Block>, curr: nat, size: nat)
    requires Tiled(owner) && curr in owner && owner[curr] == Block(curr, size, false)
    ensures Live(Paint(owner, Block(curr, size, true))) == Live(owner)[curr := size]
  {
    assert TileOk(owner, curr);
    var k := Block(curr, size, true);
    assert forall w {:trigger InBlock(w, k)} :: InBlock(w, k) ==> InBlock(w, owner[curr]);
    assert InBlock(curr, k);
  }

  lemma CutLive(owner: map<nat, Block>, curr: nat, rest: nat, size: nat)
    requires Tiled(owner) && curr in owner && owner[curr] == Block(curr, rest + size, false)
    requires rest % 4 == 0 && rest >= 4 && size >= HEAD
    ensures Live(Cut(owner, curr, rest, size)) == Live(owner)[curr + rest := size]
  {
    var r := Cut(owner, curr, rest, size);
    var live, live' := Live(owner)[curr + rest := size], Live(r);
    forall a ensures a in live <==> a in live' { CutUsed(owner, curr, rest, size, a); }
    forall a | a in live ensures live'[a] == live[a] { CutUsed(owner, curr, rest, size, a); }
  }

  /** Which words head a live block after the cut. */
  lemma CutUsed(owner: map<nat, Block>, curr: nat, rest: nat, size: nat, a: nat)
    requires Tiled(owner) && curr in owner && owner[curr] == Block(curr, rest + size, false)
    requires rest % 4 == 0 && rest >= 4 && size >= HEAD
    ensures var r := Cut(owner, curr, rest, size);
      && (LiveAt(r, a) <==> LiveAt(owner, a) || a == curr + rest)
      && (LiveAt(r, a) ==> r[a].size == if a == curr + rest then size else owner[a].size)
  {
    var c, d := Block(curr, rest, false), Block(curr + rest, size, true);
    assert TileOk(owner, curr);
    assert InBlock(curr + rest, d) && InBlock(curr + rest, owner[curr]);
    assert InBlock(a, c) || InBlock(a, d) ==> InBlock(a, owner[curr]);
  }

  /** The block handed out is made of words that were free. */
  lemma CarveFresh(h: Heap, owner: map<nat, Block>, free: set<nat>, prev: nat, curr: nat, size: nat, w: nat)
    requires Fits(h, owner, free, prev, curr, size)
    ensures var c := Carve(h, prev, curr, size).0;
            && c % 4 == 0 && c !in Live(owner)
            && (InBlock(w, Block(c, size, true)) ==> w in owner && !owner[w].used)
  {
    FitsFacts(h, owner, free, prev, curr, size);
    var c := curr + Size(h, curr) - size;
    CarveStart(h, prev, curr, size);
    WholeWords(curr, Size(h, curr), size);
    assert WordOk(h, owner, free, curr);
    assert InBlock(c, owner[curr]);
    if InBlock(w, Block(c, size, true)) { assert InBlock(w, owner[curr]); }
  }

  lemma WholeWords(a: nat, b: nat, c: nat)
    requires a % 4 == 0 && b % 4 == 0 && c % 4 == 0 && c <= b
    ensures (a + b - c) % 4 == 0
  {
  }

  lemma CarveStart(h: Heap, prev: nat, curr: nat, size: nat)
    requires size <= Size(h, curr)
    ensures Carve(h, prev, curr, size).0 == curr + Size(h, curr) - size
  {
  }

  lemma CarveWhole(h: Heap, owner: map<nat, Block>, free: set<nat>, prev: nat, curr: nat, size: nat)
      returns (owner': map<nat, Block>, free': set<nat>)
    requires Fits(h, owner, free, prev, curr, size) && Size(h, curr) == size
    ensures Inv(Carve(h, prev, curr, size).1, owner', free')
    ensures owner'.Keys == owner.Keys && Live(owner') == Live(owner)[curr := size]
    ensures NoSliver(h, free) ==> NoSliver(Carve(h, prev, curr, size).1, free')
  {
    FitsFacts(h, owner, free, prev, curr, size);
    InvTiled(h, owner, free);
    Whole(h, owner, free, prev, curr);
    WholeLive(owner, curr, size);
    owner', free' := Paint(owner, Block(curr, size, true)), free - {curr};
    if NoSliver(h, free) { WholeNoSliver(h, owner, free, prev, curr); }
  }

  lemma WholeNoSliver(h: Heap, owner: map<nat, Block>, free: set<nat>, prev: nat, curr: nat)
    requires Fits(h, owner, free, prev, curr, Size(h, curr)) && NoSliver(h, free)
    ensures NoSliver(TakenWhole(h, prev, curr), free - {curr})
  {
    forall f | f in free - {curr} && f != h.base ensures Roomy(TakenWhole(h, prev, curr), f) {
      assert Roomy(h, f);
      WholeMem(h, owner, free, prev, f, Next(h, curr));
    }
  }

  lemma CarveTail(h: Heap, owner: map<nat, Block>, free: set<nat>, prev: nat, curr: nat, size: nat)
      returns (owner': map<nat, Block>)
    requires Fits(h, owner, free, prev, curr, size) && Size(h, curr) != size
    ensures Inv(Carve(h, prev, curr, size).1, owner', free)
    ensures owner'.Keys == owner.Keys && Live(owner') == Live(owner)[Carve(h, prev, curr, size).0 := size]
  {
    FitsFacts(h, owner, free, prev, curr, size);
    InvTiled(h, owner, free);
    Tail(h, owner, free, prev, curr, size);
    var rest := Size(h, curr) - size;
    CutLive(owner, curr, rest, size);
    owner' := Cut(owner, curr, rest, size);
  }

  lemma TailNoSliver(h: Heap, owner: map<nat, Block>, free: set<nat>, prev: nat, curr: nat, size: nat)
    requires FitsTail(h, owner, free, prev, curr, size) && NoSliver(h, free)
    ensures NoSliver(TakenTail(h, prev, curr, size), free) <==> Size(h, curr) - size != 4
  {
    FitsFacts(h, owner, free, prev, curr, size);
    var h' := TakenTail(h, prev, curr, size);
    TailMem(h, owner, free, prev, curr, size, curr);
    assert Roomy(h', curr) <==> Size(h, curr) - size != 4;
    forall f | f in free && f != h.base && f != curr ensures Roomy(h', f) {
      assert Roomy(h, f);
      TailMem(h, owner, free, prev, curr, size, f);
    }
  }

  /** Carving always keeps the list and the tiling, and adds one live block of the size. It
      leaves a sliver exactly if one word of the block remains. */
  lemma CarveKeeps(h: Heap, owner: map<nat, Block>, free: set<nat>, prev: nat, curr: nat, size: nat)
      returns (owner': map<nat, Block>, free': set<nat>)
    requires Fits(h, owner, free, prev, curr, size)
    ensures Inv(Carve(h, prev, curr, size).1, owner', free')
    ensures owner'.Keys == owner.Keys && Live(owner') == Live(owner)[Carve(h, prev, curr, size).0 := size]
    ensures NoSliver(h, free) ==> (NoSliver(Carve(h, prev, curr, size).1, free') <==> Size(h, curr) - size != 4)
    ensures var (c, h') := Carve(h, prev, curr, size);
            NoSliver(h, free) ==> (SliverBelow(h', free', c) <==> Size(h, curr) - size == 4)
  {
    if Size(h, curr) == size {
      owner', free' := CarveWhole(h, owner, free, prev, curr, size);
    } else {
      owner' := CarveTail(h, owner, free, prev, curr, size);
      free' := free;
      FitsFacts(h, owner, free, prev, curr, size);
      TailMem(h, owner, free, prev, curr, size, curr);
      if NoSliver(h, free) { TailNoSliver(h, owner, free, prev, curr, size); }
    }
    if NoSliver(h, free) && Size(h, curr) - size != 4 {
      NotBelow(Carve(h, prev, curr, size).1, free', Carve(h, prev, curr, size).0);
    }
  }

  lemma NotBelow(h: Heap, free: set<nat>, c: nat)
    requires NoSliver(h, free)
    ensures !SliverBelow(h, free, c)
  {
    if c >= 4 { assert c - 4 in free && c - 4 != h.base ==> Roomy(h, c - 4); }
  }

  // -------------------------------------------------------------- new memory, user stores

  ghost function Words(p: nat, n: nat): (r: set<nat>)
    ensures forall w :: w in r <==> InBlock(w, Block(p, n, true))
  {
    set w: nat | p <= w < p + n && w % 4 == 0
  }

  /** Memory obtained from the system counts as one live block. */
  ghost function WithArea(owner: map<nat, Block>, p: nat, n: nat): map<nat, Block> {
    owner + map w | w in Words(p, n) :: Block(p, n, true)
  }

  ghost predicate NewArea(h: Heap, owned: set<nat>, p: nat, n: nat) {
    && p % 4 == 0 && n % 4 == 0 && n >= HEAD && p >= h.base + HEAD
    && forall w :: InBlock(w, Block(p, n, true)) ==> w !in owned
  }

  lemma AreaMem(h: Heap, owner: map<nat, Block>, free: set<nat>, p: nat, n: nat, f: nat)
    requires Inv(h, owner, free) && NewArea(h, owner.Keys, p, n) && (f in free || LiveAt(owner, f))
    ensures Next(SetSize(h, p, n), f) == Next(h, f) && Size(SetSize(h, p, n), f) == Size(h, f)
  {
    assert InBlock(p, Block(p, n, true)) && InBlock(p + 4, Block(p, n, true));
    if f in free {
      assert FreeOk(h, owner, free, f);
      if f != h.base {
        assert WordOk(h, owner, free, f);
        if Size(h, f) > 4 { assert InBlock(f + 4, owner[f]); }
      }
    } else {
      assert WordOk(h, owner, free, f);
      assert InBlock(f + 4, owner[f]);
    }
  }

  lemma AreaWord(h: Heap, owner: map<nat, Block>, free: set<nat>, p: nat, n: nat, a: nat)
    requires Inv(h, owner, free) && NewArea(h, owner.Keys, p, n) && a in WithArea(owner, p, n)
    ensures WordOk(SetSize(h, p, n), WithArea(owner, p, n), free, a)
  {
    var k := Block(p, n, true);
    assert InBlock(p, k);
    if a in Words(p, n) {
      assert InBlock(a, k);
    } else {
      assert WordOk(h, owner, free, a);
      var b := owner[a];
      assert InBlock(b.start, b);
      forall w {:trigger InBlock(w, b)} | InBlock(w, b)
        ensures w in WithArea(owner, p, n) && WithArea(owner, p, n)[w] == b
      {
        assert w in owner && owner[w] == b;
        assert w !in Words(p, n);
      }
      if b.used { AreaMem(h, owner, free, p, n, b.start); }
    }
  }

  lemma AreaFree(h: Heap, owner: map<nat, Block>, free: set<nat>, p: nat, n: nat, f: nat)
    requires Inv(h, owner, free) && NewArea(h, owner.Keys, p, n) && f in free
    ensures FreeOk(SetSize(h, p, n), WithArea(owner, p, n), free, f)
    ensures f != h.base && Size(h, f) == 4 ==> f + 4 != p
  {
    assert FreeOk(h, owner, free, f);
    AreaMem(h, owner, free, p, n, f);
    assert InBlock(p, Block(p, n, true));
  }

  lemma AreaNoSliver(h: Heap, owner: map<nat, Block>, free: set<nat>, p: nat, n: nat)
    requires Inv(h, owner, free) && NewArea(h, owner.Keys, p, n)
    ensures !SliverBelow(SetSize(h, p, n), free, p)
    ensures NoSliver(h, free) ==> NoSliver(SetSize(h, p, n), free)
  {
    if p >= 4 && p - 4 in free {
      AreaMem(h, owner, free, p, n, p - 4);
      AreaFree(h, owner, free, p, n, p - 4);
    }
    if NoSliver(h, free) {
      forall f | f in free && f != h.base ensures Roomy(SetSize(h, p, n), f) {
        assert Roomy(h, f);
        AreaMem(h, owner, free, p, n, f);
      }
    }
  }

  lemma AddArea(h: Heap, owner: map<nat, Block>, free: set<nat>, p: nat, n: nat)
    requires Inv(h, owner, free) && NewArea(h, owner.Keys, p, n)
    ensures Inv(SetSize(h, p, n), WithArea(owner, p, n), free)
    ensures !SliverBelow(SetSize(h, p, n), free, p)
    ensures NoSliver(h, free) ==> NoSliver(SetSize(h, p, n), free)
  {
    AreaNoSliver(h, owner, free, p, n);
    var h', owner' := SetSize(h, p, n), WithArea(owner, p, n);
    forall f | f in free ensures FreeOk(h', owner', free, f) { AreaFree(h, owner, free, p, n, f); }
    forall a | a in owner' ensures WordOk(h', owner', free, a) { AreaWord(h, owner, free, p, n, a); }
  }

  lemma AreaLive(h: Heap, owner: map<nat, Block>, p: nat, n: nat)
    requires NewArea(h, owner.Keys, p, n)
    ensures var owner' := WithArea(owner, p, n);
            && LiveAt(owner', p) && p !in Live(owner) && Live(owner') == Live(owner)[p := n]
            && owner'.Keys == owner.Keys + Words(p, n)
  {
    assert InBlock(p, Block(p, n, true));
  }

  lemma StoreMem(h: Heap, owner: map<nat, Block>, free: set<nat>, c: nat, w: nat, v: nat, f: nat)
    requires Inv(h, owner, free) && LiveAt(owner, c) && InBlock(w, owner[c]) && w >= c + HEAD
    requires f in free || LiveAt(owner, f)
    ensures f in free ==> f != w
    ensures f + 4 != w
  {
    assert WordOk(h, owner, free, c);
    if f in free {
      assert FreeOk(h, owner, free, f);
      if f != h.base {
        assert WordOk(h, owner, free, f);
        assert InBlock(f, owner[f]);
        assert w == f + 4 ==> InBlock(f, owner[c]);
      } else {
        assert WordOk(h, owner, free, w);
      }
    } else {
      assert WordOk(h, owner, free, f);
      assert InBlock(f, owner[f]) && InBlock(f + 4, owner[f]);
    }
  }

  /** A program that stays inside its own block cannot disturb the allocator. */
  lemma UserStore(h: Heap, owner: map<nat, Block>, free: set<nat>, c: nat, w: nat, v: nat)
    requires Inv(h, owner, free) && LiveAt(owner, c) && InBlock(w, owner[c]) && w >= c + HEAD
    ensures Inv(h.(mem := h.mem[w := v]), owner, free)
  {
    var h' := h.(mem := h.mem[w := v]);
    forall f | f in free ensures FreeOk(h', owner, free, f) {
      assert FreeOk(h, owner, free, f);
      StoreMem(h, owner, free, c, w, v, f);
    }
    forall a | a in owner ensures WordOk(h', owner, free, a) {
      assert WordOk(h, owner, free, a);
      if owner[a].used {
        assert InBlock(owner[a].start, owner[a]);
        StoreMem(h, owner, free, c, w, v, owner[a].start);
      }
    }
  }
}
