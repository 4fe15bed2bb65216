/** The frame layer: requests are served by the first suitable zone, and a block
    goes back to the zone whose address range contains it. */
module Frame {
  import opened Common
  import opened Bits
  import opened Dyadic
  import opened Buddy
  import opened BuddyTheory
  import opened Zone

  /** Addresses are 32 bits wide. */
  const TOP: nat := 0x1_0000_0000

  /** Is the range of `sz2` bytes at `b2` inside the range of `sz1` bytes at `b1`?
      Sums wrap at 2^32. */
  predicate IsWithin(b1: nat, sz1: nat, b2: nat, sz2: nat) {
    if sz1 == 0 then b1 == b2 && sz2 == 0
    else
      var e1 := (b1 + sz1 - 1) % TOP;
      if sz2 == 0 then b1 <= b2 <= e1
      else
        var e2 := (b2 + sz2 - 1) % TOP;
        b1 <= b2 && e1 >= e2
  }

  /** Every byte of range 2 is in range 1. */
  ghost predicate Contained(b1: nat, sz1: nat, b2: nat, sz2: nat) {
    forall a: nat {:trigger Byte(a)} :: Byte(a) && b2 <= a < b2 + sz2 ==> b1 <= a < b1 + sz1
  }

  ghost predicate Byte(a: nat) { true }

  /** The test is exact containment except for a range that starts at or above `b1` and wraps
      around to end at or below the end of the other one. */
  lemma IsWithinExact(b1: nat, sz1: nat, b2: nat, sz2: nat)
    requires b1 + sz1 <= TOP && b2 < TOP && 0 < sz2 < TOP
    ensures (IsWithin(b1, sz1, b2, sz2) <==> Contained(b1, sz1, b2, sz2)) <==>
      (b2 + sz2 <= TOP || sz1 == 0 || b2 < b1 || b1 + sz1 < b2 + sz2 - TOP)
  {
    assert Byte(b2) && Byte(b2 + sz2 - 1) && Byte(TOP);
  }

  /** An empty range is inside if it starts in the other one, or where an empty one starts. */
  lemma IsWithinEmpty(b1: nat, sz1: nat, b2: nat)
    requires b1 + sz1 <= TOP
    ensures IsWithin(b1, sz1, b2, 0) <==> if sz1 == 0 then b2 == b1 else b1 <= b2 < b1 + sz1
  {
  }

  /** A block of 2^19 frames of 4096 bytes, above a zone of 2^19 frames at 0x1000: it wraps
      around and is reported as contained. */
  lemma IsWithinWraps()
    ensures 12 + 19 < 32 && Pow2(12 + 19) == 0x8000_0000
    ensures IsWithin(0x1000, 0x8000_0000, 0xC000_0000, 0x8000_0000)
    ensures !Contained(0x1000, 0x8000_0000, 0xC000_0000, 0x8000_0000)
  {
    PowerValues();
    assert Byte(0xC000_0000);
  }

  /** log2 of the frame size, rounded down. */
  function OrderBit(z: State): nat {
    Log2(z.frameSize)
  }

  predicate Suits(z: State, flags: nat) {
    And(z.flags, flags) == flags
  }

  predicate Matches(z: State, ptr: nat, order: nat) {
    order <= z.sys.orderMax && IsWithin(z.addr, z.size, ptr, Pow2(order + OrderBit(z)))
  }

  // ---------------------------------------------------------------------- operations

  /** Zones that can serve requests; none starts at the null address. */
  ghost predicate Usable(zs: seq<State>) {
    forall k :: 0 <= k < |zs| ==> Listed(zs[k].sys) && |zs[k].refs| == zs[k].sys.frames && zs[k].addr > 0
  }

  /** The first zone from `k` on that suits and has room. */
  function Server(zs: seq<State>, k: nat, order: nat, flags: nat): (r: nat)
    requires Usable(zs) && k <= |zs|
    ensures k <= r <= |zs|
    ensures r < |zs| ==> Suits(zs[r], flags) && ZoneAlloc(zs[r], order).0 != NULL
    decreases |zs| - k
  {
    if k == |zs| || (Suits(zs[k], flags) && ZoneAlloc(zs[k], order).0 != NULL) then k
    else Server(zs, k + 1, order, flags)
  }

  function FrameAlloc(zs: seq<State>, order: nat, flags: nat): (nat, seq<State>)
    requires Usable(zs)
  {
    var k := Server(zs, 0, order, flags);
    if k == |zs| then (NULL, zs)
    else (ZoneAlloc(zs[k], order).0, zs[k := ZoneAlloc(zs[k], order).1])
  }

  /** The zone a block goes back to, from zone `k` of the list on. */
  function Find(zs: seq<State>, k: nat, ptr: nat, order: nat): (r: nat)
    requires k <= |zs|
    ensures k <= r <= |zs|
    decreases |zs| - k
  {
    if k == |zs| || Matches(zs[k], ptr, order) then k else Find(zs, k + 1, ptr, order)
  }

  /** The zone found, if any, can take the block. */
  ghost predicate Ready(zs: seq<State>, ptr: nat, order: nat) {
    var k := Find(zs, 0, ptr, order);
    ptr == NULL || k == |zs| || FreeReady(zs[k], ptr, order)
  }

  /** `frame_free` */
  function FrameFree(zs: seq<State>, ptr: nat, order: nat): seq<State>
    requires Ready(zs, ptr, order)
  {
    var k := Find(zs, 0, ptr, order);
    if ptr == NULL || k == |zs| then zs else zs[k := ZoneFree(zs[k], ptr, order)]
  }

  // -------------------------------------------------------------------------- theory

  /** Zones with their live blocks: each consistent, inside the address space, and no byte
      in two zones. */
  ghost predicate Inv(zs: seq<State>, lives: seq<map<nat, nat>>) {
    && |lives| == |zs|
    && (forall k: nat {:trigger ZoneOk(zs, lives, k)} :: k < |zs| ==> ZoneOk(zs, lives, k))
    && (forall j: nat, k: nat {:trigger Apart(zs, j, k)} :: j < k < |zs| ==> Apart(zs, j, k))
  }

  ghost predicate ZoneOk(zs: seq<State>, lives: seq<map<nat, nat>>, k: nat)
    requires k < |zs| == |lives|
  {
    && ZoneInv(zs[k], lives[k])
    && 0 < zs[k].addr && zs[k].addr + zs[k].size <= TOP
  }

  predicate Apart(zs: seq<State>, j: nat, k: nat)
    requires j < |zs| && k < |zs|
  {
    zs[j].addr + zs[j].size <= zs[k].addr || zs[k].addr + zs[k].size <= zs[j].addr
  }

  lemma InvUsable(zs: seq<State>, lives: seq<map<nat, nat>>)
    requires Inv(zs, lives)
    ensures Usable(zs)
  {
    forall k | 0 <= k < |zs| ensures Listed(zs[k].sys) && |zs[k].refs| == zs[k].sys.frames && zs[k].addr > 0 {
      assert ZoneOk(zs, lives, k);
      GoodListed(zs[k].sys, lives[k]);
    }
  }

  function With(live: map<nat, nat>, b: nat, order: nat): map<nat, nat> {
    live[b := order]
  }

  /** What an allocation may do: one zone with all the flags asked for hands out one of its free
      runs. */
  ghost predicate Served(zs: seq<State>, lives: seq<map<nat, nat>>, k: nat, order: nat, flags: nat,
                         ptr: nat, b: nat, zs': seq<State>) {
    && k < |zs| == |lives| == |zs'|
    && HasBits(zs[k].flags, flags)
    && FreeRun(zs[k].sys.frames, lives[k], b, order) && b !in lives[k]
    && ptr == AddrOf(zs[k], b)
    && Inv(zs', lives[k := With(lives[k], b, order)])
    && zs' == zs[k := zs'[k]]
  }

  lemma ServedBy(zs: seq<State>, lives: seq<map<nat, nat>>, k: nat, order: nat, flags: nat) returns (b: nat)
    requires Inv(zs, lives) && Usable(zs) && k < |zs| && Suits(zs[k], flags) && ZoneAlloc(zs[k], order).0 != NULL
    ensures var (ptr, z) := ZoneAlloc(zs[k], order);
            Served(zs, lives, k, order, flags, ptr, b, zs[k := z])
  {
    AndCovers(zs[k].flags, flags);
    assert ZoneOk(zs, lives, k);
    AllocInv(zs[k], lives[k], order);
    var (ptr, z) := ZoneAlloc(zs[k], order);
    b :| FreeRun(zs[k].sys.frames, lives[k], b, order) && b !in lives[k]
             && ptr == AddrOf(zs[k], b) && ZoneInv(z, lives[k][b := order]);
    ReplaceZone(zs, lives, k, z, With(lives[k], b, order));
  }

  /** A zone that does not start at address 0 returns null only when it is full. */
  lemma NullMeansFull(z: State, live: map<nat, nat>, order: nat)
    requires ZoneInv(z, live) && Listed(z.sys) && z.addr > 0
    ensures ZoneAlloc(z, order).0 == NULL <==> forall b: nat :: !FreeRun(z.sys.frames, live, b, order)
  {
    if some: nat :| FreeRun(z.sys.frames, live, some, order) {
      var b := RunAddress(z, live, order, some);
      AddrAbove(z, b);
    } else {
      AllocInv(z, live, order);
    }
  }

  lemma RunAddress(z: State, live: map<nat, nat>, order: nat, some: nat) returns (b: nat)
    requires ZoneInv(z, live) && Listed(z.sys) && FreeRun(z.sys.frames, live, some, order)
    ensures ZoneAlloc(z, order).0 == AddrOf(z, b)
  {
    AllocInv(z, live, order);
    var (ptr, z') := ZoneAlloc(z, order);
    b :| && FreeRun(z.sys.frames, live, b, order) && b !in live
         && ptr == AddrOf(z, b) && FrameOf(z, ptr) == b
         && ZoneInv(z', live[b := order]);
  }

  lemma AddrAbove(z: State, b: nat)
    ensures AddrOf(z, b) >= z.addr
  {
  }

  /** No suitable zone before `to` has a free run of the order. */
  ghost predicate NoRun(zs: seq<State>, lives: seq<map<nat, nat>>, from: nat, to: nat, order: nat, flags: nat)
    requires |lives| == |zs| && to <= |zs|
  {
    forall j: nat {:trigger Full(zs, lives, j, order, flags)} :: from <= j < to ==> Full(zs, lives, j, order, flags)
  }

  /** Zone `k` lacks a flag that is asked for, or has no free run of the order. */
  ghost predicate Full(zs: seq<State>, lives: seq<map<nat, nat>>, k: nat, order: nat, flags: nat)
    requires |lives| == |zs| && k < |zs|
  {
    HasBits(zs[k].flags, flags) ==> forall b: nat :: !FreeRun(zs[k].sys.frames, lives[k], b, order)
  }

  lemma PassedOver(zs: seq<State>, lives: seq<map<nat, nat>>, k: nat, order: nat, flags: nat)
    requires Inv(zs, lives) && Usable(zs) && k < |zs| && Server(zs, k, order, flags) != k
    ensures Full(zs, lives, k, order, flags)
  {
    AndCovers(zs[k].flags, flags);
    assert ZoneOk(zs, lives, k);
    NullMeansFull(zs[k], lives[k], order);
  }

  lemma {:induction false} ServerFirst(zs: seq<State>, lives: seq<map<nat, nat>>, k: nat, order: nat, flags: nat)
    requires Inv(zs, lives) && Usable(zs) && k <= |zs|
    ensures NoRun(zs, lives, k, Server(zs, k, order, flags), order, flags)
    decreases |zs| - k
  {
    if Server(zs, k, order, flags) != k {
      PassedOver(zs, lives, k, order, flags);
      ServerFirst(zs, lives, k + 1, order, flags);
    }
  }

  /** A frame allocation fails, leaving everything as it was, exactly when no
      suitable zone has room; otherwise the first suitable zone with room serves it. */
  lemma FrameAllocExact(zs: seq<State>, lives: seq<map<nat, nat>>, order: nat, flags: nat) returns (b: nat)
    requires Inv(zs, lives) && Usable(zs)
    ensures var (ptr, zs') := FrameAlloc(zs, order, flags);
            var k := Server(zs, 0, order, flags);
            && (ptr == NULL <==> NoRun(zs, lives, 0, |zs|, order, flags))
            && (ptr == NULL <==> k == |zs|)
            && (ptr == NULL ==> zs' == zs)
            && (ptr != NULL ==> Served(zs, lives, k, order, flags, ptr, b, zs') && NoRun(zs, lives, 0, k, order, flags))
  {
    b := 0;
    var k := Server(zs, 0, order, flags);
    ServerFirst(zs, lives, 0, order, flags);
    if k < |zs| {
      b := ServedBy(zs, lives, k, order, flags);
      HasRoom(zs, lives, k, order, flags, b);
    }
  }

  lemma HasRoom(zs: seq<State>, lives: seq<map<nat, nat>>, k: nat, order: nat, flags: nat, b: nat)
    requires |lives| == |zs| && k < |zs| && HasBits(zs[k].flags, flags) && FreeRun(zs[k].sys.frames, lives[k], b, order)
    ensures !NoRun(zs, lives, 0, |zs|, order, flags)
  {
    assert !Full(zs, lives, k, order, flags);
  }

  /** A live block lies inside its zone, also when measured with the rounded frame size. */
  lemma BlockFits(z: State, live: map<nat, nat>, b: nat, order: nat)
    requires ZoneInv(z, live) && b in live && live[b] == order
    ensures order <= z.sys.orderMax && b < z.sys.frames
    ensures z.addr <= AddrOf(z, b) && AddrOf(z, b) + Pow2(order + OrderBit(z)) <= z.addr + z.size
  {
    var fs := z.frameSize;
    LiveInside(z, live, b, order);
    Log2Bounds(fs);
    Pow2Add(order, OrderBit(z));
    FitsArith(fs, z.size, b, Pow2(order), Pow2(OrderBit(z)));
  }

  lemma BlockSpan(z: State, live: map<nat, nat>, b: nat, order: nat)
    requires ZoneInv(z, live) && b in live && live[b] == order
    ensures AddrOf(z, b) + z.frameSize * Pow2(order) <= z.addr + z.size
  {
    LiveInside(z, live, b, order);
    FitsArith(z.frameSize, z.size, b, Pow2(order), 1);
  }

  lemma LiveInside(z: State, live: map<nat, nat>, b: nat, order: nat)
    requires ZoneInv(z, live) && b in live && live[b] == order
    ensures order <= z.sys.orderMax && b + Pow2(order) <= z.sys.frames == z.size / z.frameSize
  {
    var owner :| BuddyTheory.Inv(z.sys, owner) && Live(owner) == live;
    InHand(z.sys, owner, b, order);
  }

  lemma FitsArith(fs: nat, size: nat, b: nat, p: nat, q: nat)
    requires fs > 0 && b + p <= size / fs && q <= fs
    ensures fs * b + p * q <= size && fs * b + fs * p <= size
  {
    MulMono(q, fs, p);
    assert p * q == q * p;
    assert fs * b + fs * p == (b + p) * fs;
    MulMono(b + p, size / fs, fs);
    assert (size / fs) * fs <= size;
  }

  /** A live block matches its own zone. */
  lemma OwnZoneMatches(z: State, live: map<nat, nat>, b: nat, order: nat)
    requires ZoneInv(z, live) && b in live && live[b] == order && z.addr + z.size <= TOP
    ensures Matches(z, AddrOf(z, b), order)
  {
    BlockFits(z, live, b, order);
    OrderFits(z, live, order);
    InsideMatches(z.addr, z.size, AddrOf(z, b), Pow2(order + OrderBit(z)));
  }

  lemma InsideMatches(b1: nat, sz1: nat, b2: nat, sz2: nat)
    requires b1 <= b2 && b2 + sz2 <= b1 + sz1 <= TOP && sz2 > 0
    ensures IsWithin(b1, sz1, b2, sz2)
  {
  }

  /** Zone `y` takes an address above it for its own: measured with the frames of `y`, the
      block wraps around the top of the address space. */
  predicate Captures(y: State, ptr: nat, order: nat) {
    order <= y.sys.orderMax && y.addr <= ptr && ptr + Pow2(order + OrderBit(y)) > TOP
  }

  /** A block of an order that a zone knows is no larger than the zone. */
  lemma OrderFits(y: State, live: map<nat, nat>, order: nat)
    requires ZoneInv(y, live) && order <= y.sys.orderMax
    ensures 0 < Pow2(order + OrderBit(y)) <= y.size
  {
    var owner :| BuddyTheory.Inv(y.sys, owner) && Live(owner) == live;
    Pow2Mono(order, y.sys.orderMax);
    Log2Bounds(y.frameSize);
    Pow2Add(order, OrderBit(y));
    FitsArith(y.frameSize, y.size, 0, Pow2(order), Pow2(OrderBit(y)));
  }

  lemma WithinOther(b1: nat, sz1: nat, b2: nat, sz2: nat)
    requires 0 < sz2 <= sz1 && b1 + sz1 <= TOP && b2 < TOP && (b2 < b1 || b1 + sz1 <= b2)
    ensures IsWithin(b1, sz1, b2, sz2) <==> b1 <= b2 && b2 + sz2 > TOP
  {
  }

  /** Another zone matches a live block exactly if it captures it. */
  lemma OtherMatches(z: State, y: State, live: map<nat, nat>, live': map<nat, nat>, b: nat, order: nat)
    requires ZoneInv(z, live) && b in live && live[b] == order && ZoneInv(y, live')
    requires z.addr + z.size <= TOP && y.addr + y.size <= TOP
    requires z.addr + z.size <= y.addr || y.addr + y.size <= z.addr
    ensures Matches(y, AddrOf(z, b), order) <==> Captures(y, AddrOf(z, b), order)
  {
    BlockFits(z, live, b, order);
    if order <= y.sys.orderMax {
      OrderFits(y, live', order);
      WithinOther(y.addr, y.size, AddrOf(z, b), Pow2(order + OrderBit(y)));
    }
  }

  lemma {:induction false} FindIs(zs: seq<State>, from: nat, k: nat, ptr: nat, order: nat)
    requires from <= k < |zs| && Matches(zs[k], ptr, order)
    requires forall j :: from <= j < k ==> !Matches(zs[j], ptr, order)
    ensures Find(zs, from, ptr, order) == k
    decreases k - from
  {
    if from < k { FindIs(zs, from + 1, k, ptr, order); }
  }

  lemma {:induction false} FindBefore(zs: seq<State>, from: nat, j: nat, ptr: nat, order: nat)
    requires from <= j < |zs| && Matches(zs[j], ptr, order)
    ensures Find(zs, from, ptr, order) <= j && Matches(zs[Find(zs, from, ptr, order)], ptr, order)
    decreases j - from
  {
    if from < j && !Matches(zs[from], ptr, order) { FindBefore(zs, from + 1, j, ptr, order); }
  }

  /** Some zone ahead of zone `k` in the list captures the address. */
  predicate Captured(zs: seq<State>, k: nat, ptr: nat, order: nat)
    requires k <= |zs|
  {
    exists j :: 0 <= j < k && Captures(zs[j], ptr, order)
  }

  lemma MatchIsCapture(zs: seq<State>, lives: seq<map<nat, nat>>, k: nat, b: nat, j: nat)
    requires Inv(zs, lives) && j < k < |zs| && b in lives[k]
    ensures Matches(zs[j], AddrOf(zs[k], b), lives[k][b]) <==> Captures(zs[j], AddrOf(zs[k], b), lives[k][b])
  {
    assert ZoneOk(zs, lives, k) && ZoneOk(zs, lives, j) && Apart(zs, j, k);
    OtherMatches(zs[k], zs[j], lives[k], lives[j], b, lives[k][b]);
  }

  /** A block is routed back to the zone that issued it exactly if no zone ahead of it in the
      list captures it. */
  lemma RoutesToIssuer(zs: seq<State>, lives: seq<map<nat, nat>>, k: nat, b: nat)
    requires Inv(zs, lives) && k < |zs| && b in lives[k]
    ensures Find(zs, 0, AddrOf(zs[k], b), lives[k][b]) == k <==> !Captured(zs, k, AddrOf(zs[k], b), lives[k][b])
  {
    var ptr, order := AddrOf(zs[k], b), lives[k][b];
    assert ZoneOk(zs, lives, k);
    OwnZoneMatches(zs[k], lives[k], b, order);
    forall j | 0 <= j < k ensures Matches(zs[j], ptr, order) <==> Captures(zs[j], ptr, order) {
      MatchIsCapture(zs, lives, k, b, j);
    }
    if Captured(zs, k, ptr, order) {
      var j :| 0 <= j < k && Captures(zs[j], ptr, order);
      FindBefore(zs, 0, j, ptr, order);
    } else {
      FindIs(zs, 0, k, ptr, order);
    }
  }

  /** Zones whose frames are no larger than those of the issuer never capture its blocks. */
  lemma SmallFramesRoute(zs: seq<State>, lives: seq<map<nat, nat>>, k: nat, b: nat)
    requires Inv(zs, lives) && k < |zs| && b in lives[k]
    requires forall j :: 0 <= j < k ==> OrderBit(zs[j]) <= OrderBit(zs[k])
    ensures Find(zs, 0, AddrOf(zs[k], b), lives[k][b]) == k
  {
    var ptr, order := AddrOf(zs[k], b), lives[k][b];
    assert ZoneOk(zs, lives, k);
    BlockFits(zs[k], lives[k], b, order);
    forall j | 0 <= j < k ensures !Captures(zs[j], ptr, order) {
      Pow2Mono(order + OrderBit(zs[j]), order + OrderBit(zs[k]));
    }
    RoutesToIssuer(zs, lives, k, b);
  }

  /** Block `b` of zone `k` covers byte `a`. */
  ghost predicate Holds(zs: seq<State>, lives: seq<map<nat, nat>>, k: nat, b: nat, a: nat)
    requires |lives| == |zs|
  {
    && k < |zs| && b in lives[k]
    && AddrOf(zs[k], b) <= a < AddrOf(zs[k], b) + zs[k].frameSize * Pow2(lives[k][b])
  }

  lemma HeldInZone(zs: seq<State>, lives: seq<map<nat, nat>>, k: nat, b: nat, a: nat)
    requires Inv(zs, lives) && Holds(zs, lives, k, b, a)
    ensures zs[k].addr <= a < zs[k].addr + zs[k].size && zs[k].frameSize > 0
    ensures Within((a - zs[k].addr) / zs[k].frameSize, b, lives[k][b])
  {
    assert ZoneOk(zs, lives, k);
    BlockSpan(zs[k], lives[k], b, lives[k][b]);
    FrameWithin(zs[k], b, lives[k][b], a);
  }

  /** No byte of memory is ever in two blocks handed out, of the same zone or not. */
  lemma BlocksDisjoint(zs: seq<State>, lives: seq<map<nat, nat>>, k: nat, b: nat, j: nat, c: nat, a: nat)
    requires Inv(zs, lives) && Holds(zs, lives, k, b, a) && Holds(zs, lives, j, c, a)
    ensures k == j && b == c
  {
    HeldInZone(zs, lives, k, b, a);
    HeldInZone(zs, lives, j, c, a);
    if k < j {
      ApartBytes(zs, lives, k, j, a);
    } else if j < k {
      ApartBytes(zs, lives, j, k, a);
    } else {
      assert ZoneOk(zs, lives, k);
      OneHolder(zs[k], lives[k], (a - zs[k].addr) / zs[k].frameSize, b, c);
    }
  }

  lemma ApartBytes(zs: seq<State>, lives: seq<map<nat, nat>>, j: nat, k: nat, a: nat)
    requires Inv(zs, lives) && j < k < |zs| && zs[j].addr <= a < zs[j].addr + zs[j].size
    ensures !(zs[k].addr <= a < zs[k].addr + zs[k].size)
  {
    assert Apart(zs, j, k);
  }

  lemma OneHolder(z: State, live: map<nat, nat>, f: nat, b: nat, c: nat)
    requires ZoneInv(z, live) && b in live && c in live && Within(f, b, live[b]) && Within(f, c, live[c])
    ensures b == c
  {
    var owner :| BuddyTheory.Inv(z.sys, owner) && Live(owner) == live;
    DisjointOwner(z.sys, owner, f, b, live[b], c, live[c]);
  }

  lemma FrameWithin(z: State, b: nat, order: nat, a: nat)
    requires z.frameSize > 0 && AddrOf(z, b) <= a < AddrOf(z, b) + z.frameSize * Pow2(order)
    ensures Within((a - z.addr) / z.frameSize, b, order)
  {
    QuotWithin(a - z.addr, z.frameSize, b, Pow2(order));
  }

  lemma QuotWithin(x: nat, d: nat, b: nat, p: nat)
    requires d > 0 && d * b <= x < d * b + d * p
    ensures b <= x / d < b + p
  {
    var f, r := x / d, x % d;
    assert x == f * d + r;
    assert (b + p) * d == d * b + d * p;
    if f < b { MulMono(f + 1, b, d); }
    if f >= b + p { MulMono(b + p, f, d); }
  }

  // ---------------------------------------------------------------------------- runs

  /** A free request is in order when it is for null, for no zone, or one that the
      zone it is routed to accepts. */
  ghost predicate MayFreeFrame(zs: seq<State>, lives: seq<map<nat, nat>>, ptr: nat, order: nat)
    requires |lives| == |zs|
  {
    var k := Find(zs, 0, ptr, order);
    ptr == NULL || k == |zs| || MayFree(zs[k], lives[k], ptr, order)
  }

  lemma MayFreeReady(zs: seq<State>, lives: seq<map<nat, nat>>, ptr: nat, order: nat)
    requires |lives| == |zs| && MayFreeFrame(zs, lives, ptr, order)
    ensures Ready(zs, ptr, order)
  {
    var k := Find(zs, 0, ptr, order);
    if ptr != NULL && k < |zs| { MayFreeOk(zs[k], lives[k], ptr, order); }
  }

  /** What is live after the call. */
  ghost function LivesAfter(zs: seq<State>, lives: seq<map<nat, nat>>, ptr: nat, order: nat): seq<map<nat, nat>>
    requires |lives| == |zs| && MayFreeFrame(zs, lives, ptr, order)
  {
    var k := Find(zs, 0, ptr, order);
    if ptr == NULL || k == |zs| then lives else lives[k := lives[k] - {FrameOf(zs[k], ptr)}]
  }

  lemma ReplaceZone(zs: seq<State>, lives: seq<map<nat, nat>>, k: nat, z: State, live: map<nat, nat>)
    requires Inv(zs, lives) && k < |zs| && ZoneInv(z, live)
    requires z.addr == zs[k].addr && z.size == zs[k].size && z.frameSize == zs[k].frameSize
    ensures Inv(zs[k := z], lives[k := live])
  {
    var zs', lives' := zs[k := z], lives[k := live];
    forall j: nat | j < |zs'| ensures ZoneOk(zs', lives', j) {
      assert ZoneOk(zs, lives, j) && ZoneOk(zs, lives, k);
    }
    forall i: nat, j: nat | i < j < |zs'| ensures Apart(zs', i, j) { assert Apart(zs, i, j); }
  }

  lemma FrameFreeInv(zs: seq<State>, lives: seq<map<nat, nat>>, ptr: nat, order: nat)
    requires Inv(zs, lives) && MayFreeFrame(zs, lives, ptr, order)
    ensures Ready(zs, ptr, order) && Inv(FrameFree(zs, ptr, order), LivesAfter(zs, lives, ptr, order))
    ensures LivesAfter(zs, lives, ptr, order) == lives ==> FrameFree(zs, ptr, order) == zs
  {
    MayFreeReady(zs, lives, ptr, order);
    var k := Find(zs, 0, ptr, order);
    if ptr != NULL && k < |zs| {
      assert ZoneOk(zs, lives, k);
      FreeInv(zs[k], lives[k], ptr, order);
      var i := FrameOf(zs[k], ptr);
      var z := ZoneFree(zs[k], ptr, order);
      ReplaceZone(zs, lives, k, z, lives[k] - {i});
      if lives[k := lives[k] - {i}] == lives {
        assert lives[k] == lives[k] - {i};
        assert i !in lives[k];
        assert zs[k := z] == zs;
      }
    }
  }

  /** An address past the end of a zone has no frame in it. */
  lemma PastEnd(z: State, ptr: nat)
    requires z.frameSize > 0 && z.addr + z.size <= ptr
    ensures FrameOf(z, ptr) >= z.size / z.frameSize
  {
    var x, d := ptr - z.addr, z.frameSize;
    assert (z.size / d) * d <= z.size;
    QuotAtLeast(x, d, z.size / d);
  }

  /** A block that a zone ahead captures cannot be returned: the frame that the other zone
      computes lies past its frames. */
  lemma CapturedBreaks(zs: seq<State>, lives: seq<map<nat, nat>>, k: nat, b: nat)
    requires Inv(zs, lives) && k < |zs| && b in lives[k] && Captured(zs, k, AddrOf(zs[k], b), lives[k][b])
    ensures var i := Find(zs, 0, AddrOf(zs[k], b), lives[k][b]);
      && i < k && zs[i].frameSize > 0 && zs[i].addr <= AddrOf(zs[k], b)
      && FrameOf(zs[i], AddrOf(zs[k], b)) >= zs[i].sys.frames
    ensures !MayFreeFrame(zs, lives, AddrOf(zs[k], b), lives[k][b])
  {
    var ptr, order := AddrOf(zs[k], b), lives[k][b];
    assert ZoneOk(zs, lives, k);
    BlockFits(zs[k], lives[k], b, order);
    var j :| 0 <= j < k && Captures(zs[j], ptr, order);
    MatchIsCapture(zs, lives, k, b, j);
    FindBefore(zs, 0, j, ptr, order);
    var i := Find(zs, 0, ptr, order);
    MatchIsCapture(zs, lives, k, b, i);
    assert ZoneOk(zs, lives, i) && Apart(zs, i, k);
    PastEnd(zs[i], ptr);
  }

  /** Returning a block that was handed out is in order exactly if no zone ahead captures it;
      then it goes to its zone, and only it stops being live. */
  lemma FreeIssued(zs: seq<State>, lives: seq<map<nat, nat>>, k: nat, b: nat)
    requires Inv(zs, lives) && k < |zs| && b in lives[k]
    ensures MayFreeFrame(zs, lives, AddrOf(zs[k], b), lives[k][b]) <==> !Captured(zs, k, AddrOf(zs[k], b), lives[k][b])
    ensures !Captured(zs, k, AddrOf(zs[k], b), lives[k][b]) ==>
      LivesAfter(zs, lives, AddrOf(zs[k], b), lives[k][b]) == lives[k := lives[k] - {b}]
  {
    assert ZoneOk(zs, lives, k);
    RoutesToIssuer(zs, lives, k, b);
    FrameOfAddr(zs[k], b);
    BlockFits(zs[k], lives[k], b, lives[k][b]);
    if Captured(zs, k, AddrOf(zs[k], b), lives[k][b]) { CapturedBreaks(zs, lives, k, b); }
  }

  datatype Op = AllocOp(order: nat, flags: nat) | FreeOp(ptr: nat, order: nat)
              | AddOp(addr: nat, size: nat, frameSize: nat, flags: nat)

  /** A zone may be registered when its frames fit the maps and its range is new. */
  ghost predicate MayAdd(zs: seq<State>, addr: nat, size: nat, frameSize: nat) {
    && frameSize > 0 && MapFits(size / frameSize)
    && 0 < addr && addr + size <= TOP
    && forall k :: 0 <= k < |zs| ==> zs[k].addr + zs[k].size <= addr || addr + size <= zs[k].addr
  }

  lemma AddInv(zs: seq<State>, lives: seq<map<nat, nat>>, addr: nat, size: nat, frameSize: nat, flags: nat)
    requires Inv(zs, lives) && MayAdd(zs, addr, size, frameSize)
    ensures Inv([ZoneInit(addr, size, frameSize, flags)] + zs, [InitLive(size / frameSize)] + lives)
  {
    InitInv(addr, size, frameSize, flags);
    var z := ZoneInit(addr, size, frameSize, flags);
    var zs', lives' := [z] + zs, [InitLive(size / frameSize)] + lives;
    forall k: nat | k < |zs'| ensures ZoneOk(zs', lives', k) {
      if k > 0 { assert ZoneOk(zs, lives, k - 1); }
    }
    forall j: nat, k: nat | j < k < |zs'| ensures Apart(zs', j, k) {
      assert zs'[k] == zs[k - 1];
      if j > 0 { assert Apart(zs, j - 1, k - 1); }
    }
  }

  ghost predicate Stepped(zs: seq<State>, lives: seq<map<nat, nat>>, op: Op,
                          zs': seq<State>, lives': seq<map<nat, nat>>) {
    && |lives| == |zs|
    && match op
       case AllocOp(order, flags) =>
         && Usable(zs)
         && zs' == FrameAlloc(zs, order, flags).1
         && var (ptr, k) := (FrameAlloc(zs, order, flags).0, Server(zs, 0, order, flags));
            if k == |zs| then lives' == lives
            else && zs[k].frameSize > 0 && zs[k].addr <= ptr
                 && lives' == lives[k := With(lives[k], FrameOf(zs[k], ptr), order)]
       case FreeOp(ptr, order) =>
         && MayFreeFrame(zs, lives, ptr, order) && Ready(zs, ptr, order)
         && zs' == FrameFree(zs, ptr, order)
         && lives' == LivesAfter(zs, lives, ptr, order)
       case AddOp(addr, size, frameSize, flags) =>
         && MayAdd(zs, addr, size, frameSize)
         && zs' == [ZoneInit(addr, size, frameSize, flags)] + zs
         && lives' == [InitLive(size / frameSize)] + lives
  }

  /** `ops` leads from no zones at all to (`zs`, `lives`). */
  ghost predicate Run(ops: seq<Op>, zs: seq<State>, lives: seq<map<nat, nat>>) {
    if ops == [] then zs == [] && lives == []
    else exists zs0, lives0 :: Run(Front(ops), zs0, lives0) && Stepped(zs0, lives0, Last(ops), zs, lives)
  }

  /** Every run of registrations, allocations and frees keeps the invariant of all zones. */
  lemma {:induction false} RunInv(ops: seq<Op>, zs: seq<State>, lives: seq<map<nat, nat>>)
    requires Run(ops, zs, lives)
    ensures Inv(zs, lives)
    decreases |ops|
  {
    if ops != [] {
      var zs0, lives0 :| Run(Front(ops), zs0, lives0) && Stepped(zs0, lives0, Last(ops), zs, lives);
      RunInv(Front(ops), zs0, lives0);
      StepInv(zs0, lives0, Last(ops), zs, lives);
    }
  }

  lemma StepInv(zs: seq<State>, lives: seq<map<nat, nat>>, op: Op, zs': seq<State>, lives': seq<map<nat, nat>>)
    requires Inv(zs, lives) && Stepped(zs, lives, op, zs', lives')
    ensures Inv(zs', lives')
  {
    match op
    case AllocOp(order, flags) =>
      var b := FrameAllocExact(zs, lives, order, flags);
      var k := Server(zs, 0, order, flags);
      if k < |zs| { FrameOfAddr(zs[k], b); }
    case FreeOp(ptr, order) =>
      FrameFreeInv(zs, lives, ptr, order);
    case AddOp(addr, size, frameSize, flags) =>
      AddInv(zs, lives, addr, size, frameSize, flags);
  }

  /** One 4 KiB frame at the top of the address space, then one 1 MiB frame further down: the
      second zone comes first in the list and captures the only block of the first. */
  lemma CaptureHappens() returns (zs: seq<State>, lives: seq<map<nat, nat>>)
    ensures Run([AddOp(0xFFFF_F000, 0x1000, 0x1000, 0), AddOp(0x10_0000, 0x10_0000, 0x10_0000, 0)], zs, lives)
    ensures |zs| == 2 && 0 in lives[1] && lives[1][0] == 0 && AddrOf(zs[1], 0) == 0xFFFF_F000
    ensures Captured(zs, 1, 0xFFFF_F000, 0) && Find(zs, 0, 0xFFFF_F000, 0) == 0
  {
    var op1, op2 := AddOp(0xFFFF_F000, 0x1000, 0x1000, 0), AddOp(0x10_0000, 0x10_0000, 0x10_0000, 0);
    zs, lives := TwoZones(op1, op2);
    RunInv([op1, op2], zs, lives);
    MegabyteFrames();
    assert Captures(zs[0], 0xFFFF_F000, 0);
    MatchIsCapture(zs, lives, 1, 0, 0);
  }

  /** Two zones of one frame each, registered one after the other. */
  lemma TwoZones(op1: Op, op2: Op) returns (zs: seq<State>, lives: seq<map<nat, nat>>)
    requires op1.AddOp? && op1.frameSize == op1.size > 0 && 0 < op1.addr && op1.addr + op1.size <= TOP
    requires op2.AddOp? && op2.frameSize == op2.size > 0 && 0 < op2.addr && op2.addr + op2.size <= op1.addr
    ensures Run([op1, op2], zs, lives)
    ensures zs == [ZoneInit(op2.addr, op2.size, op2.size, op2.flags), ZoneInit(op1.addr, op1.size, op1.size, op1.flags)]
    ensures lives == [InitLive(1), InitLive(1)]
  {
    var z1 := ZoneInit(op1.addr, op1.size, op1.size, op1.flags);
    var z2 := ZoneInit(op2.addr, op2.size, op2.size, op2.flags);
    var l := InitLive(1);
    assert MapFits(1) by { assert Log2(1) == 0; }
    var ops := [op1];
    assert Front(ops) == [] && Last(ops) == op1;
    assert Run([], [], []) && Stepped([], [], op1, [z1] + [], [l] + []);
    assert Run(ops, [z1], [l]);
    zs, lives := [z2] + [z1], [l] + [l];
    assert Front(ops + [op2]) == ops && Last(ops + [op2]) == op2;
    assert Stepped([z1], [l], op2, zs, lives);
    assert Run(ops + [op2], zs, lives);
    assert ops + [op2] == [op1, op2];
  }

  lemma MegabyteFrames()
    ensures Pow2(0 + Log2(0x10_0000)) == 0x10_0000
  {
    Log2Pow2(20);
    PowerValues();
  }
}
