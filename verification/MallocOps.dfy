/** `malloc` and `free` as they run: walks along the circular list that stop. */
module MallocOps {
  import opened Common
  import opened Malloc
  import opened MallocTheory
  import opened MallocRuns

  // ---------------------------------------------------------------------------- in place

  /** One more live block. */
  ghost predicate Gained(live: map<nat, nat>, live': map<nat, nat>, c: nat, size: nat) {
    c !in live && live' == live[c := size]
  }

  /** The heap and its reading. */
  datatype Parsed = Parsed(h: Heap, owner: map<nat, Block>, free: set<nat>)

  /** What the loop of `malloc` has done: nothing, or asked for memory. */
  ghost predicate Searched(r: Parsed, r': Parsed, need: nat, grant: Option<nat>, found: bool) {
    && Live(r'.owner) == Live(r.owner)
    && (found <==> grant.Some? || exists f :: f in r.free && Size(r.h, f) >= need)
    && (found <==> grant.Some? || HasFit(r.h, need))
    && (if HasFit(r.h, need) || grant.None? then r' == r
        else && Released(SetSize(r.h, grant.value, Asked(need)), grant.value, r'.h)
             && r'.owner.Keys == r.owner.Keys + Words(grant.value, Asked(need)))
    && (NoSliver(r.h, r.free) ==> NoSliver(r'.h, r'.free))
  }

  /** What taking the block found has done. */
  ghost predicate Taken(r: Parsed, r': Parsed, need: nat, ptr: nat, rest: nat) {
    && r'.owner.Keys == r.owner.Keys && ptr >= HEAD && ptr % 4 == 0 && Carved(r.h, need, ptr, rest, r'.h)
    && Gained(Live(r.owner), Live(r'.owner), ptr - HEAD, need)
    && (NoSliver(r.h, r.free) ==> (NoSliver(r'.h, r'.free) <==> rest != 4))
  }

  /** What both together have done. */
  ghost predicate Served(r: Parsed, r': Parsed, need: nat, grant: Option<nat>, ptr: nat, rest: nat, h2: Heap) {
    && (ptr == 0 <==> grant.None? && forall f :: f in r.free ==> Size(r.h, f) < need)
    && (ptr == 0 ==> r' == r && !HasFit(r.h, need) && rest == 0)
    && (ptr != 0 ==> && ptr >= HEAD && ptr % 4 == 0 && Carved(h2, need, ptr, rest, r'.h)
                     && Gained(Live(r.owner), Live(r'.owner), ptr - HEAD, need)
                     && (if HasFit(r.h, need) then h2 == r.h && r'.owner.Keys == r.owner.Keys
                         else && grant.Some? && Released(SetSize(r.h, grant.value, Asked(need)), grant.value, h2)
                              && r'.owner.Keys == r.owner.Keys + Words(grant.value, Asked(need))))
    && (NoSliver(r.h, r.free) ==> (NoSliver(r'.h, r'.free) <==> rest != 4))
  }

  lemma ThenServed(r: Parsed, m: Parsed, r': Parsed, need: nat, grant: Option<nat>, ptr: nat, rest: nat)
    requires Searched(r, m, need, grant, true) && Taken(m, r', need, ptr, rest)
    ensures Served(r, r', need, grant, ptr, rest, m.h)
  {
  }

  class Allocator {
    var h: Heap
    ghost var owner: map<nat, Block>
    ghost var free: set<nat>

    /** Before the first request there is no list; after it the invariant holds. */
    ghost predicate Valid()
      reads this
    {
      if h.freep == 0 then h.base >= HEAD && h.base % 4 == 0 && owner == map[] && free == {}
      else Inv(h, owner, free)
    }

    ghost function Parts(): Parsed
      reads this
    {
      Parsed(h, owner, free)
    }

    constructor (base: nat)
      requires base >= HEAD && base % 4 == 0
      ensures Valid() && h.freep == 0 && h.base == base && owner == map[]
    {
      h := Heap(map[], 0, base);
      owner, free := map[], {};
    }

    /** Finds the place in address order, then links or merges the block. */
    method Free(ptr: nat)
      requires Valid() && ptr >= HEAD && LiveAt(owner, ptr - HEAD) && !SliverBelow(h, free, ptr - HEAD)
      modifies this
      ensures Valid() && h.freep != 0 && h.base == old(h.base)
      ensures Live(owner) == old(Live(owner)) - {ptr - HEAD} && owner.Keys == old(owner.Keys)
      ensures Released(old(h), ptr - HEAD, h)
      ensures old(NoSliver(h, free)) ==> NoSliver(h, free)
    {
      var curr := (ptr - 8) / 4 * 4;
      assert curr == ptr - 8 by { assert WordOk(h, owner, free, ptr - HEAD); }
      var prev := Place(curr);
      owner, free := FreeKeeps(h, owner, free, prev, curr);
      h := Insert(h, prev, curr);
      FreedNoSliver(old(h), old(owner), old(free), h, owner, free, curr);
      assert FreeOk(h, owner, free, h.freep);
    }

    /** The search of `free`: where in the list the block goes. */
    method Place(curr: nat) returns (prev: nat)
      requires Inv(h, owner, free) && LiveAt(owner, curr)
      ensures IsPlace(h, free, prev, curr)
      ensures exists k: nat :: StopsAt(h, curr, k) && prev == Walked(h, k)
    {
      prev := h.freep;
      ghost var k: nat := 0;
      assert WordOk(h, owner, free, curr);
      while !(prev < curr && curr < Next(h, prev))
        invariant prev in free && prev == Walked(h, k)
        invariant forall j: nat {:trigger Passes(h, j, curr)} :: j < k ==> Passes(h, j, curr)
        decreases SearchLeft(free, curr, prev)
      {
        assert FreeOk(h, owner, free, prev);
        if prev >= Next(h, prev) && (curr > prev || curr < Next(h, prev)) {
          break;
        }
        assert curr !in free by { if curr in free { FreeWords(h, owner, free, curr, curr); } }
        SearchShrinks(free, h.base, curr, prev, Next(h, prev));
        assert Passes(h, k, curr);
        prev, k := Next(h, prev), k + 1;
      }
      assert StopsAt(h, curr, k);
      PlaceIs(h, owner, free, curr, k);
    }

    /** Adds memory from the system to the list by freeing it. */
    method MoreCore(size: nat, grant: nat)
      requires Valid() && h.freep != 0 && size % 4 == 0 && NewArea(h, owner.Keys, grant, Asked(size))
      modifies this
      ensures Valid() && h.freep != 0 && h.base == old(h.base)
      ensures Live(owner) == old(Live(owner))
      ensures owner.Keys == old(owner.Keys) + Words(grant, Asked(size))
      ensures Released(SetSize(old(h), grant, Asked(size)), grant, h)
      ensures exists f :: f in free && Size(h, f) >= size
      ensures old(NoSliver(h, free)) ==> NoSliver(h, free)
    {
      var n := size;
      if n < NALLOC {
        n := NALLOC;
      }
      TakeArea(grant, n);
      Free(grant + 8);
      AreaUnused(old(h), old(owner), old(free), owner, grant, n) by { InvTiled(h, owner, free); }
      LargeEnough(h, owner, free, grant, n);
    }

    /** New memory becomes one live block with a header. */
    method TakeArea(p: nat, n: nat)
      requires Valid() && h.freep != 0 && NewArea(h, owner.Keys, p, n)
      modifies this
      ensures Valid() && h == SetSize(old(h), p, n) && free == old(free)
      ensures LiveAt(owner, p) && !SliverBelow(h, free, p)
      ensures old(NoSliver(h, free)) ==> NoSliver(h, free)
      ensures Live(owner) - {p} == old(Live(owner)) && owner.Keys == old(owner.Keys) + Words(p, n)
    {
      AddArea(h, owner, free, p, n);
      AreaLive(h, owner, p, n);
      ghost var before := Live(owner);
      assert before[p := n] - {p} == before;
      owner := WithArea(owner, p, n);
      h := SetSize(h, p, n);
    }

    /** Walks once round the list for a block that is large enough. */
    method Walk(need: nat) returns (found: bool, prev: nat, curr: nat)
      requires Inv(h, owner, free) && need >= HEAD
      ensures found ==> prev in free && Next(h, prev) == curr && Size(h, curr) >= need
      ensures found <==> exists f :: f in free && Size(h, f) >= need
      ensures found <==> HasFit(h, need)
      ensures found ==> FirstFit(h, need, prev)
    {
      prev, curr := h.freep, Next(h, h.freep);
      FirstStep(h, owner, free);
      ghost var k: nat := 0;
      assert curr == Walked(h, k + 1);
      while true
        invariant prev in free && Next(h, prev) == curr && curr in free
        invariant prev == Walked(h, k) && curr == Walked(h, k + 1)
        invariant forall j: nat {:trigger Small(h, j, need)} :: 1 <= j <= k ==> Small(h, j, need)
        invariant forall f :: f in free && f !in Remaining(free, h.freep, curr) ==> Size(h, f) < need
        decreases |Remaining(free, h.freep, curr)|
      {
        NextStep(h, owner, free, curr);
        if Size(h, curr) >= need {
          assert FitAt(h, need, k);
          return true, prev, curr;
        }
        if curr == h.freep {
          NoFit(h, owner, free, need);
          return false, prev, curr;
        }
        assert Small(h, k + 1, need);
        prev, curr, k := curr, Next(h, curr), k + 1;
      }
    }

    /** The empty list, headed by the static block, at the first request. */
    method Start()
      requires Valid()
      modifies this
      ensures Valid() && h.freep != 0 && h.base == old(h.base) && owner == old(owner) && h == Started(old(h))
      ensures old(NoSliver(h, free)) ==> NoSliver(h, free)
      ensures old(h.freep) != 0 ==> free == old(free)
      ensures old(h.freep) == 0 ==> old(free) == {} && free == {h.base} && Size(h, h.base) == 0
    {
      if h.freep == 0 {
        h := Heap(h.mem[h.base := h.base][h.base + 4 := 0], h.base, h.base);
        free := {h.base};
        assert FreeOk(h, owner, free, h.base);
      }
    }

    /** The block found, or its tail, is handed out. */
    method Take(prev: nat, curr: nat, need: nat) returns (ptr: nat, ghost rest: nat)
      requires Fits(h, owner, free, prev, curr, need) && FirstFit(h, need, prev)
      modifies this
      ensures Valid() && h.freep != 0 && h.base == old(h.base)
      ensures Taken(old(Parts()), Parts(), need, ptr, rest)
    {
      CarveFresh(h, owner, free, prev, curr, need, 0);
      owner, free := CarveKeeps(h, owner, free, prev, curr, need);
      var (c, h') := Carve(h, prev, curr, need);
      h := h';
      assert FreeOk(h, owner, free, h.freep);
      ptr, rest := c + 8, Size(old(h), curr) - need;
      WasCarved(old(h), need, prev, curr, ptr, h);
    }

    /** The loop of `malloc`: a round of the list, and another one after asking for memory. */
    method Search(need: nat, grant: Option<nat>) returns (found: bool, prev: nat, curr: nat)
      requires Valid() && h.freep != 0 && need >= HEAD && need % 4 == 0
      requires grant.Some? ==> NewArea(h, owner.Keys, grant.value, Asked(need))
      modifies this
      ensures Valid() && h.freep != 0 && h.base == old(h.base)
      ensures Searched(old(Parts()), Parts(), need, grant, found)
      ensures found ==> Fits(h, owner, free, prev, curr, need)
      ensures found ==> FirstFit(h, need, prev)
    {
      found, prev, curr := Walk(need);
      if !found && grant.Some? {
        MoreCore(need, grant.value);
        found, prev, curr := Walk(need);
      }
    }

    /** The list is there: find a block, and take it. */
    method Serve(need: nat, grant: Option<nat>) returns (ptr: nat, ghost rest: nat, ghost h2: Heap)
      requires Valid() && h.freep != 0 && need >= HEAD && need % 4 == 0
      requires grant.Some? ==> NewArea(h, owner.Keys, grant.value, Asked(need))
      modifies this
      ensures Valid() && h.freep != 0 && h.base == old(h.base)
      ensures Served(old(Parts()), Parts(), need, grant, ptr, rest, h2)
    {
      ghost var before := Parts();
      var found, prev, curr := Search(need, grant);
      ghost var between := Parts();
      h2 := h;
      ptr, rest := 0, 0;
      if found {
        ptr, rest := Take(prev, curr, need);
        ThenServed(before, between, Parts(), need, grant, ptr, rest);
      }
    }

    /** Hands out a block, or null. If no free block is large enough the system is asked
        for memory once; after that the walk always succeeds. `rest` bytes of the block that
        was found stay free. */
    method Allocate(size: nat, grant: Option<nat>) returns (ptr: nat, ghost rest: nat)
      requires Valid()
      requires grant.Some? ==> NewArea(h, owner.Keys, grant.value, Asked(Need(size)))
      modifies this
      ensures Valid() && h.freep != 0 && h.base == old(h.base)
      ensures Requested(old(h), size, grant, ptr, rest, h)
      ensures ptr == 0 <==> grant.None? && forall f :: f in old(free) ==> old(Size(h, f)) < Need(size)
      ensures ptr == 0 ==> Live(owner) == old(Live(owner)) && owner.Keys == old(owner.Keys)
      ensures ptr != 0 ==> ptr >= HEAD && ptr % 4 == 0 && ptr - HEAD !in old(Live(owner))
                           && Live(owner) == old(Live(owner))[ptr - HEAD := Need(size)]
      ensures owner.Keys == old(owner.Keys)
              || (grant.Some? && owner.Keys == old(owner.Keys) + Words(grant.value, Asked(Need(size))))
      ensures old(NoSliver(h, free)) ==> (NoSliver(h, free) <==> rest != 4)
    {
      var need := (size + 8 + 3) / 4 * 4;
      Start();
      ghost var h2: Heap;
      ptr, rest, h2 := Serve(need, grant);
      if ptr == 0 {
        WasRefused(old(h), size, h);
      } else {
        WasRequested(old(h), size, grant, ptr, rest, h2, h);
      }
    }
  }

  lemma WasRefused(h: Heap, size: nat, h': Heap)
    requires h' == Started(h) && !HasFit(h', Need(size))
    ensures Requested(h, size, None, 0, 0, h')
  {
  }

  lemma FreedNoSliver(h: Heap, owner: map<nat, Block>, free: set<nat>, h': Heap, owner': map<nat, Block>,
                      free': set<nat>,
                      curr: nat)
    requires Inv(h, owner, free) && Inv(h', owner', free')
    requires owner'.Keys == owner.Keys && Live(owner') == Live(owner) - {curr}
    ensures NoSliver(h, free) ==> NoSliver(h', free')
  {
    if NoSliver(h, free) { FreeNoSliver(h, owner, free, h', owner', free', curr); }
  }

  lemma NoFit(h: Heap, owner: map<nat, Block>, free: set<nat>, need: nat)
    requires Inv(h, owner, free) && forall f :: f in free ==> Size(h, f) < need
    ensures !HasFit(h, need)
  {
    forall k: nat ensures !FitAt(h, need, k) { WalkedFree(h, owner, free, k + 1); }
  }

  lemma WasCarved(h: Heap, need: nat, prev: nat, curr: nat, ptr: nat, h': Heap)
    requires Next(h, prev) == curr && need <= Size(h, curr) && (ptr - HEAD, h') == Carve(h, prev, curr, need)
    requires FirstFit(h, need, prev)
    ensures Carved(h, need, ptr, Size(h, curr) - need, h')
  {
    var k: nat :| FitAt(h, need, k) && prev == Walked(h, k);
    assert Walked(h, k + 1) == curr;
  }
}
