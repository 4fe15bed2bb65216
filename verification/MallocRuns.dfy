/** `malloc` and `free` as steps from heap to heap, and every run of them. */
module MallocRuns {
  import opened Common
  import opened Malloc
  import opened MallocTheory

  // --------------------------------------------------------------------------- one call

  /** The search of `free` stops at `prev`. */
  ghost predicate Stops(h: Heap, prev: nat, curr: nat) {
    || prev < curr < Next(h, prev)
    || (prev >= Next(h, prev) && (curr > prev || curr < Next(h, prev)))
  }

  ghost predicate StopsAt(h: Heap, curr: nat, k: nat) {
    Stops(h, Walked(h, k), curr) && forall j: nat {:trigger Passes(h, j, curr)} :: j < k ==> Passes(h, j, curr)
  }

  ghost predicate Passes(h: Heap, j: nat, curr: nat) {
    !Stops(h, Walked(h, j), curr)
  }

  /** `free` of the block whose header is at `curr`. */
  ghost predicate Released(h: Heap, curr: nat, h': Heap) {
    exists k: nat :: StopsAt(h, curr, k) && h' == Insert(h, Walked(h, k), curr)
  }

  /** The first block on the list, after the starting point, that is large enough. */
  ghost predicate FitAt(h: Heap, need: nat, k: nat) {
    Size(h, Walked(h, k + 1)) >= need && forall j: nat {:trigger Small(h, j, need)} :: 1 <= j <= k ==> Small(h, j, need)
  }

  ghost predicate Small(h: Heap, j: nat, need: nat) {
    Size(h, Walked(h, j)) < need
  }

  /** `prev` comes right before the first fit. */
  ghost predicate FirstFit(h: Heap, need: nat, prev: nat) {
    exists k: nat :: FitAt(h, need, k) && prev == Walked(h, k)
  }

  ghost predicate HasFit(h: Heap, need: nat) {
    exists k: nat :: FitAt(h, need, k)
  }

  /** The first fit is taken, and `rest` bytes of it remain. */
  ghost predicate Carved(h: Heap, need: nat, ptr: nat, rest: nat, h': Heap) {
    exists k: nat :: && FitAt(h, need, k)
                     && (ptr - HEAD, h') == Carve(h, Walked(h, k), Walked(h, k + 1), need)
                     && rest == Size(h, Walked(h, k + 1)) - need
  }

  /** The first request makes the empty list. */
  function Started(h: Heap): Heap {
    if h.freep != 0 then h else Heap(h.mem[h.base := h.base][h.base + 4 := 0], h.base, h.base)
  }

  /** What `morecore` asks the system for. */
  function Asked(need: nat): nat {
    if need < NALLOC then NALLOC else need
  }

  /** `malloc`: the first fit, after asking for memory once if there is none. */
  ghost predicate Requested(h: Heap, size: nat, grant: Option<nat>, ptr: nat, rest: nat, h': Heap) {
    var h1, need := Started(h), Need(size);
    if HasFit(h1, need) then Carved(h1, need, ptr, rest, h')
    else match grant
      case None => ptr == 0 && rest == 0 && h' == h1
      case Some(p) => exists h2 :: Released(SetSize(h1, p, Asked(need)), p, h2) && Carved(h2, need, ptr, rest, h')
  }

  lemma WasRequested(h: Heap, size: nat, grant: Option<nat>, ptr: nat, rest: nat, h2: Heap, h': Heap)
    requires Carved(h2, Need(size), ptr, rest, h')
    requires if HasFit(Started(h), Need(size)) then h2 == Started(h)
             else grant.Some? && Released(SetSize(Started(h), grant.value, Asked(Need(size))), grant.value, h2)
    ensures Requested(h, size, grant, ptr, rest, h')
  {
  }

  // ---------------------------------------------------------------- what one call keeps

  lemma PlaceIs(h: Heap, owner: map<nat, Block>, free: set<nat>, curr: nat, k: nat)
    requires Inv(h, owner, free) && LiveAt(owner, curr) && Stops(h, Walked(h, k), curr)
    ensures IsPlace(h, free, Walked(h, k), curr)
  {
    WalkedFree(h, owner, free, k);
    WalkedFree(h, owner, free, k + 1);
    assert WordOk(h, owner, free, curr);
    var n := Next(h, Walked(h, k));
    assert FreeOk(h, owner, free, Walked(h, k)) && FreeOk(h, owner, free, n);
  }

  lemma FreeStep(h: Heap, owner: map<nat, Block>, free: set<nat>, curr: nat, h': Heap)
      returns (owner': map<nat, Block>, free': set<nat>)
    requires Inv(h, owner, free) && LiveAt(owner, curr) && !SliverBelow(h, free, curr) && Released(h, curr, h')
    ensures Inv(h', owner', free') && h'.base == h.base
    ensures owner'.Keys == owner.Keys && Live(owner') == Live(owner) - {curr}
    ensures NoSliver(h, free) ==> NoSliver(h', free')
  {
    var k: nat :| StopsAt(h, curr, k) && h' == Insert(h, Walked(h, k), curr);
    PlaceIs(h, owner, free, curr, k);
    owner', free' := FreeKeeps(h, owner, free, Walked(h, k), curr);
    if NoSliver(h, free) { FreeNoSliver(h, owner, free, h', owner', free', curr); }
  }

  lemma CarveStep(h: Heap, owner: map<nat, Block>, free: set<nat>, need: nat, ptr: nat, rest: nat, h': Heap)
      returns (owner': map<nat, Block>, free': set<nat>)
    requires Inv(h, owner, free) && need >= HEAD && need % 4 == 0 && Carved(h, need, ptr, rest, h')
    ensures Inv(h', owner', free') && h'.base == h.base
    ensures ptr >= HEAD && ptr - HEAD !in Live(owner)
    ensures owner'.Keys == owner.Keys && Live(owner') == Live(owner)[ptr - HEAD := need]
    ensures NoSliver(h, free) ==> (NoSliver(h', free') <==> rest != 4)
    ensures NoSliver(h, free) ==> (SliverBelow(h', free', ptr - HEAD) <==> rest == 4)
  {
    var k: nat :| && FitAt(h, need, k)
                  && (ptr - HEAD, h') == Carve(h, Walked(h, k), Walked(h, k + 1), need)
                  && rest == Size(h, Walked(h, k + 1)) - need;
    WalkedFree(h, owner, free, k);
    CarveFresh(h, owner, free, Walked(h, k), Walked(h, k + 1), need, 0);
    owner', free' := CarveKeeps(h, owner, free, Walked(h, k), Walked(h, k + 1), need);
  }

  /** New memory becomes a live block, which is freed. */
  lemma GrowStep(h: Heap, owner: map<nat, Block>, free: set<nat>, p: nat, n: nat, h': Heap)
      returns (owner': map<nat, Block>, free': set<nat>)
    requires Inv(h, owner, free) && NewArea(h, owner.Keys, p, n) && Released(SetSize(h, p, n), p, h')
    ensures Inv(h', owner', free') && h'.base == h.base
    ensures owner'.Keys == owner.Keys + Words(p, n) && Live(owner') == Live(owner)
    ensures NoSliver(h, free) ==> NoSliver(h', free')
  {
    AddArea(h, owner, free, p, n);
    AreaLive(h, owner, p, n);
    owner', free' := FreeStep(SetSize(h, p, n), WithArea(owner, p, n), free, p, h');
  }

  /** The headers have some consistent reading. */
  ghost predicate Readable(h: Heap) {
    exists owner, free :: Inv(h, owner, free)
  }

  /** Returning at once what was just handed out keeps the heap consistent exactly if the
      split did not leave a single word. */
  lemma SplitExactly(h: Heap, owner: map<nat, Block>, free: set<nat>, need: nat, ptr: nat, rest: nat, h': Heap,
                     h'': Heap)
    requires Inv(h, owner, free) && NoSliver(h, free) && need >= HEAD && need % 4 == 0
    requires Carved(h, need, ptr, rest, h') && ptr >= HEAD && Released(h', ptr - HEAD, h'')
    ensures Readable(h'') <==> rest != 4
  {
    var o, f := CarveStep(h, owner, free, need, ptr, rest, h');
    assert LiveAt(o, ptr - HEAD) by { assert ptr - HEAD in Live(o); }
    ReleaseExactly(h', o, f, ptr - HEAD, h'');
  }

  lemma ReleaseExactly(h: Heap, owner: map<nat, Block>, free: set<nat>, curr: nat, h': Heap)
    requires Inv(h, owner, free) && LiveAt(owner, curr) && Released(h, curr, h')
    ensures Readable(h') <==> !SliverBelow(h, free, curr)
  {
    var k: nat :| StopsAt(h, curr, k) && h' == Insert(h, Walked(h, k), curr);
    PlaceIs(h, owner, free, curr, k);
    FreeExactly(h, owner, free, Walked(h, k), curr);
  }

  // -------------------------------------------------------------------------------- runs

  /** The heap, the blocks handed out with their sizes, and the memory from the system. */
  datatype State = State(h: Heap, live: map<nat, nat>, owned: set<nat>)

  datatype Op = Request(size: nat, grant: Option<nat>) | Release(ptr: nat) | Store(block: nat, addr: nat, value: nat)

  /** One call, or one store into a block that was handed out. Memory from the system is new,
      only blocks handed out are returned, and no split leaves less than a header. */
  ghost predicate Stepped(s: State, op: Op, s': State) {
    match op
    case Request(size, grant) =>
      && (grant.Some? ==> NewArea(s.h, s.owned, grant.value, Asked(Need(size))))
      && exists ptr, rest :: Handed(s, size, grant, ptr, rest, s')
    case Release(ptr) =>
      && ptr >= HEAD && ptr - HEAD in s.live && Released(s.h, ptr - HEAD, s'.h)
      && s'.live == s.live - {ptr - HEAD} && s'.owned == s.owned
    case Store(c, w, v) =>
      && c in s.live && InBlock(w, Block(c, s.live[c], true)) && w >= c + HEAD
      && s' == s.(h := s.h.(mem := s.h.mem[w := v]))
  }

  ghost predicate Handed(s: State, size: nat, grant: Option<nat>, ptr: nat, rest: nat, s': State) {
    rest != 4 && HandedAny(s, size, grant, ptr, rest, s')
  }

  /** Any split is possible here. */
  ghost predicate HandedAny(s: State, size: nat, grant: Option<nat>, ptr: nat, rest: nat, s': State) {
    && Requested(s.h, size, grant, ptr, rest, s'.h)
    && s'.live == (if ptr < HEAD then s.live else s.live[ptr - HEAD := Need(size)])
    && s'.owned == (if grant.None? || HasFit(Started(s.h), Need(size)) then s.owned
                    else s.owned + Words(grant.value, Asked(Need(size))))
  }

  /** `ops` leads from an untouched heap to `s`. */
  ghost predicate Run(base: nat, ops: seq<Op>, s: State) {
    if ops == [] then s == State(Heap(map[], 0, base), map[], {})
    else exists s0 :: Run(base, Front(ops), s0) && Stepped(s0, Last(ops), s)
  }

  ghost predicate Reading(s: State, owner: map<nat, Block>, free: set<nat>) {
    Inv(s.h, owner, free) && NoSliver(s.h, free) && Live(owner) == s.live && owner.Keys == s.owned
  }

  /** The headers have a consistent reading in which exactly the blocks handed out are live and
      exactly the memory from the system is tiled. */
  ghost predicate Consistent(s: State) {
    if s.h.freep == 0 then s.h.base >= HEAD && s.h.base % 4 == 0 && s.live == map[] && s.owned == {}
    else exists owner, free :: Reading(s, owner, free)
  }

  lemma ListStarts(s: State) returns (owner: map<nat, Block>, free: set<nat>)
    requires Consistent(s)
    ensures Reading(s.(h := Started(s.h)), owner, free)
  {
    if s.h.freep == 0 {
      owner, free := map[], {s.h.base};
      assert FreeOk(Started(s.h), owner, free, s.h.base);
    } else {
      owner, free :| Reading(s, owner, free);
    }
  }

  lemma StillConsistent(s: State, owner: map<nat, Block>, free: set<nat>)
    requires Reading(s, owner, free)
    ensures Consistent(s)
  {
    assert FreeOk(s.h, owner, free, s.h.freep);
  }

  lemma RequestKeeps(s: State, size: nat, grant: Option<nat>, ptr: nat, rest: nat, s': State)
    requires Consistent(s) && Handed(s, size, grant, ptr, rest, s')
    requires grant.Some? ==> NewArea(s.h, s.owned, grant.value, Asked(Need(size)))
    ensures Consistent(s')
  {
    var owner, free := ListStarts(s);
    var h1, need := Started(s.h), Need(size);
    if HasFit(h1, need) {
      var o, f := CarveStep(h1, owner, free, need, ptr, rest, s'.h);
      StillConsistent(s', o, f);
    } else if grant.None? {
      StillConsistent(s', owner, free);
    } else {
      var p, n := grant.value, Asked(need);
      var h2 :| Released(SetSize(h1, p, n), p, h2) && Carved(h2, need, ptr, rest, s'.h);
      var owner2, free2 := GrowStep(h1, owner, free, p, n, h2);
      var o, f := CarveStep(h2, owner2, free2, need, ptr, rest, s'.h);
      StillConsistent(s', o, f);
    }
  }

  lemma ReleaseKeeps(s: State, ptr: nat, s': State)
    requires Consistent(s) && Stepped(s, Release(ptr), s')
    ensures Consistent(s')
  {
    var owner, free :| Reading(s, owner, free);
    NotBelow(s.h, free, ptr - HEAD);
    assert LiveAt(owner, ptr - HEAD) by { assert ptr - HEAD in Live(owner); }
    var o, f := FreeStep(s.h, owner, free, ptr - HEAD, s'.h);
    StillConsistent(s', o, f);
  }

  lemma StoreKeeps(s: State, c: nat, w: nat, v: nat, s': State)
    requires Consistent(s) && Stepped(s, Store(c, w, v), s')
    ensures Consistent(s')
  {
    var owner, free :| Reading(s, owner, free);
    assert LiveAt(owner, c) by { assert c in Live(owner); }
    assert InBlock(w, owner[c]);
    UserStore(s.h, owner, free, c, w, v);
    forall f | f in free && f != s.h.base ensures Roomy(s'.h, f) {
      assert Roomy(s.h, f);
      StoreMem(s.h, owner, free, c, w, v, f);
    }
    StillConsistent(s', owner, free);
  }

  /** Every run of requests, frees and stores that leaves no sliver keeps the heap consistent. */
  lemma {:induction false} RunConsistent(base: nat, ops: seq<Op>, s: State)
    requires base >= HEAD && base % 4 == 0 && Run(base, ops, s)
    ensures Consistent(s)
    decreases |ops|
  {
    if ops != [] {
      var s0 :| Run(base, Front(ops), s0) && Stepped(s0, Last(ops), s);
      RunConsistent(base, Front(ops), s0);
      match Last(ops)
      case Request(size, grant) =>
        var ptr, rest :| Handed(s0, size, grant, ptr, rest, s);
        RequestKeeps(s0, size, grant, ptr, rest, s);
      case Release(ptr) => ReleaseKeeps(s0, ptr, s);
      case Store(c, w, v) => StoreKeeps(s0, c, w, v, s);
    }
  }

  // ---------------------------------------------------------- requests that leave no sliver

  /** The memory from the system comes in pairs of words, and so do the blocks handed out. */
  ghost predicate Even(s: State) {
    Paired(s.owned) && forall c :: c in s.live ==> c % 8 == 0 && s.live[c] % 8 == 0
  }

  ghost predicate Paired(owned: set<nat>) {
    forall w: nat {:trigger PairAt(owned, w)} :: PairAt(owned, w)
  }

  ghost predicate PairAt(owned: set<nat>, w: nat) {
    w % 8 == 0 ==> (w in owned <==> w + 4 in owned)
  }

  /** A block that is handed out or free ends where the next word belongs to another one. */
  lemma WordAt(owner: map<nat, Block>, a: nat, b: nat)
    requires Tiled(owner) && a in owner && b == a + 4 && b in owner && owner[a] != owner[b]
    ensures owner[b].start == b && owner[a].start + owner[a].size == b
  {
    assert TileOk(owner, a) && TileOk(owner, b);
    assert !InBlock(b, owner[a]) && !InBlock(a, owner[b]);
  }

  /** Then free blocks come in pairs of words too: they start and end at blocks handed out or
      at the edges of the memory. */
  lemma EvenFree(s: State, owner: map<nat, Block>, free: set<nat>, f: nat)
    requires Reading(s, owner, free) && Even(s) && f in free && f != s.h.base
    ensures f % 8 == 0 && Size(s.h, f) % 8 == 0
  {
    InvTiled(s.h, owner, free);
    assert FreeOk(s.h, owner, free, f) && WordOk(s.h, owner, free, f);
    EvenStart(s, owner, free, f);
    EvenEnd(s, owner, free, f);
  }

  lemma LiveEven(s: State, owner: map<nat, Block>, w: nat)
    requires Tiled(owner) && Live(owner) == s.live && Even(s) && w in owner && owner[w].used
    ensures owner[w].start % 8 == 0 && (owner[w].start + owner[w].size) % 8 == 0
  {
    UsedIsLive(owner, w);
    var c := owner[w].start;
    assert c in s.live && s.live[c] == owner[w].size by {
      assert TileOk(owner, w) && InBlock(c, owner[w]);
    }
  }

  lemma EvenStart(s: State, owner: map<nat, Block>, free: set<nat>, f: nat)
    requires Reading(s, owner, free) && Even(s) && f in free && f in owner && Tiled(owner)
    requires f % 4 == 0 && owner[f].start == f && !owner[f].used
    ensures f % 8 == 0
  {
    if f % 8 != 0 {
      OddWord(f);
      var v: nat := f - 4;
      assert PairAt(s.owned, v);
      FreeTogether(s.h, owner, free, f);
      WordAt(owner, v, f);
      LiveEven(s, owner, v);
    }
  }

  lemma EvenEnd(s: State, owner: map<nat, Block>, free: set<nat>, f: nat)
    requires Reading(s, owner, free) && Even(s) && f in free && f in owner && Tiled(owner)
    requires f % 8 == 0 && owner[f] == Block(f, Size(s.h, f), false)
    ensures Size(s.h, f) % 8 == 0
  {
    var e := f + Size(s.h, f);
    if e % 8 != 0 {
      var v := LastWord(owner, f, e);
      assert PairAt(s.owned, v);
      AboveFree(s.h, owner, free, f, e);
      WordAt(owner, v, e);
      LiveEven(s, owner, e);
    }
  }

  lemma LastWord(owner: map<nat, Block>, f: nat, e: nat) returns (v: nat)
    requires Tiled(owner) && f in owner && owner[f].start == f && e == f + owner[f].size && f % 8 == 0 && e % 8 != 0
    ensures v + 4 == e && v % 8 == 0 && v in owner && owner[v] == owner[f]
  {
    assert TileOk(owner, f);
    WholeWords(f, owner[f].size, 0);
    OddWord(e);
    v := e - 4;
    assert InBlock(v, owner[f]);
  }

  lemma OddWord(e: nat)
    requires e % 4 == 0 && e % 8 != 0
    ensures e >= 4 && (e - 4) % 8 == 0 && (e - 4) % 4 == 0
  {
  }

  lemma EvenParts(curr: nat, size: nat, need: nat)
    requires curr % 8 == 0 && size % 8 == 0 && need % 8 == 0 && need <= size
    ensures (curr + size - need) % 8 == 0 && (size - need) % 8 == 0
  {
  }

  /** What a request of an even size takes and leaves. */
  lemma EvenCarve(s: State, owner: map<nat, Block>, free: set<nat>, need: nat, ptr: nat, rest: nat, h': Heap)
    requires Reading(s, owner, free) && Even(s) && need >= HEAD && need % 8 == 0 && Carved(s.h, need, ptr, rest, h')
    ensures ptr >= HEAD && (ptr - HEAD) % 8 == 0 && rest % 8 == 0
  {
    var k, prev, curr := FitPlace(s.h, need, ptr, rest, h');
    WalkedFree(s.h, owner, free, k);
    EvenIsWhole(need);
    FitsFacts(s.h, owner, free, prev, curr, need);
    EvenFree(s, owner, free, curr);
    EvenParts(curr, Size(s.h, curr), need);
  }

  lemma EvenIsWhole(need: nat)
    requires need % 8 == 0
    ensures need % 4 == 0
  {
  }

  lemma FitPlace(h: Heap, need: nat, ptr: nat, rest: nat, h': Heap) returns (k: nat, prev: nat, curr: nat)
    requires Carved(h, need, ptr, rest, h')
    ensures prev == Walked(h, k) && curr == Next(h, prev) && Size(h, curr) >= need
    ensures ptr - HEAD == curr + Size(h, curr) - need && rest == Size(h, curr) - need
  {
    k :| && FitAt(h, need, k)
         && (ptr - HEAD, h') == Carve(h, Walked(h, k), Walked(h, k + 1), need)
         && rest == Size(h, Walked(h, k + 1)) - need;
    prev, curr := Walked(h, k), Walked(h, k + 1);
    CarveStart(h, prev, curr, need);
  }

  /** The request and the memory asked for are multiples of a header. */
  predicate EvenOp(op: Op) {
    op.Request? ==> Need(op.size) % 8 == 0 && (op.grant.Some? ==> op.grant.value % 8 == 0)
  }

  lemma EvenArea(owned: set<nat>, p: nat, n: nat)
    requires Paired(owned) && p % 8 == 0 && n % 8 == 0
    ensures Paired(owned + Words(p, n))
  {
    forall w: nat ensures PairAt(owned + Words(p, n), w) {
      assert PairAt(owned, w);
      assert w % 8 == 0 ==> (InBlock(w, Block(p, n, true)) <==> InBlock(w + 4, Block(p, n, true)));
    }
  }

  lemma EvenRequest(s: State, size: nat, grant: Option<nat>, ptr: nat, rest: nat, s': State)
    requires Consistent(s) && Even(s) && HandedAny(s, size, grant, ptr, rest, s') && EvenOp(Request(size, grant))
    requires grant.Some? ==> NewArea(s.h, s.owned, grant.value, Asked(Need(size)))
    ensures rest != 4 && Even(s')
  {
    var owner, free := ListStarts(s);
    var h1, need := Started(s.h), Need(size);
    if HasFit(h1, need) {
      EvenCarve(s.(h := h1), owner, free, need, ptr, rest, s'.h);
      EvenLive(s, need, ptr, s');
    } else if grant.Some? {
      var p, n := grant.value, Asked(need);
      var h2 :| Released(SetSize(h1, p, n), p, h2) && Carved(h2, need, ptr, rest, s'.h);
      EvenGrown(s.(h := h1), owner, free, p, need, h2, ptr, rest, s'.h);
      EvenLive(s, need, ptr, s');
    }
  }

  lemma EvenLive(s: State, need: nat, ptr: nat, s': State)
    requires Even(s) && ptr >= HEAD && (ptr - HEAD) % 8 == 0 && need % 8 == 0 && Paired(s'.owned)
    requires s'.live == s.live[ptr - HEAD := need]
    ensures Even(s')
  {
  }

  lemma EvenGrown(s: State, owner: map<nat, Block>, free: set<nat>, p: nat, need: nat, h2: Heap, ptr: nat, rest: nat,
                  h': Heap)
    requires Reading(s, owner, free) && Even(s) && NewArea(s.h, s.owned, p, Asked(need))
    requires p % 8 == 0 && need >= HEAD && need % 8 == 0
    requires Released(SetSize(s.h, p, Asked(need)), p, h2) && Carved(h2, need, ptr, rest, h')
    ensures Paired(s.owned + Words(p, Asked(need)))
    ensures ptr >= HEAD && (ptr - HEAD) % 8 == 0 && rest % 8 == 0
  {
    var o, f := GrowStep(s.h, owner, free, p, Asked(need), h2);
    EvenArea(s.owned, p, Asked(need));
    EvenCarve(State(h2, s.live, s.owned + Words(p, Asked(need))), o, f, need, ptr, rest, h');
  }

  /** A run like `Run`, but with nothing said about the splits. */
  ghost predicate AnyRun(base: nat, ops: seq<Op>, s: State) {
    if ops == [] then s == State(Heap(map[], 0, base), map[], {})
    else exists s0 :: AnyRun(base, Front(ops), s0) && AnyStep(s0, Last(ops), s)
  }

  ghost predicate AnyStep(s: State, op: Op, s': State) {
    if op.Request? then
      && (op.grant.Some? ==> NewArea(s.h, s.owned, op.grant.value, Asked(Need(op.size))))
      && exists ptr, rest :: HandedAny(s, op.size, op.grant, ptr, rest, s')
    else Stepped(s, op, s')
  }

  /** A program that asks only for sizes that are multiples of a header, once the header is
      added, never leaves a sliver: every such run keeps the heap consistent. */
  lemma {:induction false} EvenRunConsistent(base: nat, ops: seq<Op>, s: State)
    requires base >= HEAD && base % 4 == 0 && AnyRun(base, ops, s)
    requires forall i :: 0 <= i < |ops| ==> EvenOp(ops[i])
    ensures Consistent(s) && Even(s) && Run(base, ops, s)
    decreases |ops|
  {
    if ops != [] {
      var s0 :| AnyRun(base, Front(ops), s0) && AnyStep(s0, Last(ops), s);
      EvenRunConsistent(base, Front(ops), s0);
      EvenStep(s0, Last(ops), s);
      assert Stepped(s0, Last(ops), s);
      RunConsistent(base, ops, s);
    }
  }

  lemma EvenStep(s: State, op: Op, s': State)
    requires Consistent(s) && Even(s) && AnyStep(s, op, s') && EvenOp(op)
    ensures Stepped(s, op, s') && Even(s')
  {
    if op.Request? {
      var ptr, rest :| HandedAny(s, op.size, op.grant, ptr, rest, s');
      EvenRequest(s, op.size, op.grant, ptr, rest, s');
      assert Handed(s, op.size, op.grant, ptr, rest, s');
    }
  }

  /** In every consistent state, returning at once what a request handed out keeps the heap
      consistent exactly if the split did not leave a single word. */
  lemma RequestExactly(s: State, size: nat, grant: Option<nat>, ptr: nat, rest: nat, h': Heap, h'': Heap)
    requires Consistent(s) && Requested(s.h, size, grant, ptr, rest, h')
    requires grant.Some? ==> NewArea(s.h, s.owned, grant.value, Asked(Need(size)))
    requires ptr >= HEAD && Released(h', ptr - HEAD, h'')
    ensures Readable(h'') <==> rest != 4
  {
    var owner, free := ListStarts(s);
    var h1, need := Started(s.h), Need(size);
    if HasFit(h1, need) {
      SplitExactly(h1, owner, free, need, ptr, rest, h', h'');
    } else {
      var p, n := grant.value, Asked(need);
      var h2 :| Released(SetSize(h1, p, n), p, h2) && Carved(h2, need, ptr, rest, h');
      var o, f := GrowStep(h1, owner, free, p, n, h2);
      SplitExactly(h2, o, f, need, ptr, rest, h', h'');
    }
  }

  // -------------------------------------------------------------- a run with a sliver

  lemma {:induction false} OnlyHead(h: Heap, k: nat)
    requires h.freep == h.base && Next(h, h.base) == h.base
    ensures Walked(h, k) == h.base
    decreases k
  {
    if k > 0 { OnlyHead(h, k - 1); }
  }

  lemma NothingYet(h: Heap, need: nat)
    requires h.freep == 0 && need > 0
    ensures !HasFit(Started(h), need)
  {
    forall k: nat ensures !FitAt(Started(h), need, k) { OnlyHead(Started(h), k + 1); }
  }

  /** Any request for 4084 bytes on an untouched heap leaves one word of the new memory, and
      returning the block destroys the heap. */
  lemma SliverReached(base: nat, p: nat) returns (ptr: nat, h': Heap, h'': Heap)
    requires base >= HEAD && base % 4 == 0 && p >= base + HEAD && p % 4 == 0
    ensures NewArea(Heap(map[], 0, base), {}, p, NALLOC)
    ensures ptr == p + 4 + HEAD && Requested(Heap(map[], 0, base), 4084, Some(p), ptr, 4, h')
    ensures Released(h', ptr - HEAD, h'') && !Readable(h'')
  {
    var s := State(Heap(map[], 0, base), map[], {});
    ptr, h', h'' := SliverRun(s, 4084, p);
  }

  lemma SliverRun(s: State, size: nat, p: nat) returns (ptr: nat, h': Heap, h'': Heap)
    requires Consistent(s) && s.h.freep == 0 && size == 4084 && NewArea(s.h, s.owned, p, Asked(Need(size)))
    ensures ptr == p + 12 && Requested(s.h, size, Some(p), ptr, 4, h') && Released(h', ptr - HEAD, h'')
    ensures !Readable(h'')
  {
    ptr, h', h'' := SliverRequest(s.h, size, p);
    RequestExactly(s, size, Some(p), ptr, 4, h', h'');
  }

  lemma SliverRequest(h: Heap, size: nat, p: nat) returns (ptr: nat, h': Heap, h'': Heap)
    requires h.freep == 0 && p >= h.base + HEAD && size == 4084
    ensures ptr == p + 12 && Requested(h, size, Some(p), ptr, 4, h') && Released(h', ptr - HEAD, h'')
  {
    ptr := p + 12;
    NothingYet(h, 4092);
    var h2 := AreaJoins(Started(h), p);
    h' := AlmostAll(h2, p, ptr);
    WasRequested(h, size, Some(p), ptr, 4, h2, h');
    h'' := GoesBack(h', p, ptr);
  }

  lemma AreaJoins(h: Heap, p: nat) returns (h': Heap)
    requires h.freep == h.base && Next(h, h.base) == h.base && Size(h, h.base) == 0 && p >= h.base + HEAD
    ensures Released(SetSize(h, p, NALLOC), p, h')
    ensures h'.freep == h.base && Next(h', h.base) == p && Next(h', p) == h.base && Size(h', p) == NALLOC
  {
    var h1 := SetSize(h, p, NALLOC);
    assert Walked(h1, 0) == h.base;
    assert StopsAt(h1, p, 0);
    h' := Insert(h1, h.base, p);
  }

  lemma AlmostAll(h: Heap, p: nat, ptr: nat) returns (h': Heap)
    requires Next(h, h.freep) == p >= h.freep + HEAD && Size(h, p) == NALLOC && ptr == p + 12
    ensures Carved(h, 4092, ptr, 4, h')
    ensures h'.freep == h.freep && Next(h', h.freep) == p && Next(h', p) == Next(h, p)
  {
    assert Walked(h, 0) == h.freep && Walked(h, 1) == p;
    assert FitAt(h, 4092, 0);
    h' := Carve(h, h.freep, p, 4092).1;
  }

  lemma GoesBack(h: Heap, p: nat, ptr: nat) returns (h': Heap)
    requires Next(h, h.freep) == p > h.freep && Next(h, p) == h.freep && ptr == p + 12
    ensures Released(h, ptr - HEAD, h')
  {
    assert Walked(h, 0) == h.freep && Walked(h, 1) == p;
    assert Passes(h, 0, ptr - HEAD);
    assert StopsAt(h, ptr - HEAD, 1);
    h' := Insert(h, p, ptr - HEAD);
  }

  // ------------------------------------------------------------- what consistency means

  ghost predicate UsedAt(s: State, c: nat, w: nat) {
    c in s.live && InBlock(w, Block(c, s.live[c], true))
  }

  ghost predicate FreeAt(s: State, f: nat, w: nat) {
    OnList(s.h, f) && f != s.h.base && InBlock(w, Block(f, Size(s.h, f), false))
  }

  /** Live and free blocks tile exactly the memory from the system. */
  lemma Tiling(s: State, w: nat)
    requires Consistent(s) && s.h.freep != 0
    ensures w in s.owned <==> (exists c :: UsedAt(s, c, w)) || (exists f :: FreeAt(s, f, w))
    ensures !((exists c :: UsedAt(s, c, w)) && (exists f :: FreeAt(s, f, w)))
    ensures forall c, d :: UsedAt(s, c, w) && UsedAt(s, d, w) ==> c == d
    ensures forall c, d :: FreeAt(s, c, w) && FreeAt(s, d, w) ==> c == d
  {
    var owner: map<nat, Block>, free: set<nat> :| Reading(s, owner, free);
    InvTiled(s.h, owner, free);
    forall c | UsedAt(s, c, w) ensures w in owner && owner[w] == Block(c, s.live[c], true) {
      LiveWords(owner, c, w);
    }
    forall f | FreeAt(s, f, w) ensures w in owner && owner[w] == Block(f, Size(s.h, f), false) {
      FreeBlockWords(s.h, owner, free, f, w);
    }
    if w in owner {
      var k := owner[w];
      assert WordOk(s.h, owner, free, w);
      if k.used {
        UsedIsLive(owner, w);
        assert UsedAt(s, k.start, w);
      } else {
        FreeStart(s.h, owner, free, w);
        assert FreeAt(s, k.start, w);
      }
    }
  }

  lemma FreeBlockWords(h: Heap, owner: map<nat, Block>, free: set<nat>, f: nat, w: nat)
    requires Inv(h, owner, free) && OnList(h, f) && f != h.base && InBlock(w, Block(f, Size(h, f), false))
    ensures w in owner && owner[w] == Block(f, Size(h, f), false)
  {
    ListIsFree(h, owner, free, f);
    assert FreeOk(h, owner, free, f) && WordOk(h, owner, free, f);
    assert InBlock(w, owner[f]);
  }

  lemma FreeStart(h: Heap, owner: map<nat, Block>, free: set<nat>, w: nat)
    requires Inv(h, owner, free) && w in owner && !owner[w].used
    ensures var f := owner[w].start; OnList(h, f) && f != h.base && Size(h, f) == owner[w].size
  {
    var k := owner[w];
    assert WordOk(h, owner, free, w);
    assert InBlock(k.start, k);
    assert WordOk(h, owner, free, k.start) && FreeOk(h, owner, free, k.start);
    ListIsFree(h, owner, free, k.start);
  }

  /** The list is a circle in address order with one descent, back to the static head; its
      other blocks have room for a header, and no two of them touch. */
  lemma Circle(s: State, f: nat)
    requires Consistent(s) && s.h.freep != 0 && OnList(s.h, f)
    ensures OnList(s.h, s.h.base) && OnList(s.h, Next(s.h, f))
    ensures Next(s.h, f) <= f ==> Next(s.h, f) == s.h.base
    ensures forall g: nat :: OnList(s.h, g) ==> g <= f || (f < Next(s.h, f) <= g)
    ensures f != s.h.base ==> Size(s.h, f) >= HEAD && !OnList(s.h, f + Size(s.h, f))
  {
    var owner, free :| Reading(s, owner, free);
    forall g: nat ensures OnList(s.h, g) <==> g in free { ListIsFree(s.h, owner, free, g); }
    assert FreeOk(s.h, owner, free, f);
    assert f != s.h.base ==> Roomy(s.h, f);
  }
}
