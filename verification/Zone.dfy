/** Memory zones: a buddy system over a range of addresses, with a reference
    count per frame. */
module Zone {
  import opened Common
  import opened Bits
  import opened Dyadic
  import opened Buddy
  import opened BuddyTheory
  import opened BuddyAllocator

  datatype State = State(addr: nat, size: nat, frameSize: nat, flags: nat, sys: Sys, refs: seq<nat>)

  /** A null pointer. */
  const NULL: nat := 0

  function AddrOf(z: State, b: nat): nat {
    z.addr + z.frameSize * b
  }

  function FrameOf(z: State, ptr: nat): nat
    requires z.frameSize > 0 && z.addr <= ptr
  {
    (ptr - z.addr) / z.frameSize
  }

  function ZoneAlloc(z: State, order: nat): (nat, State)
    requires Listed(z.sys) && |z.refs| == z.sys.frames
  {
    var (r, t) := Buddy.Alloc(z.sys, order);
    match r
    case None => (NULL, z)
    case Some(b) =>
      assert b < z.sys.frames by { AllocInRange(z.sys, order); }
      (AddrOf(z, b), z.(sys := t, refs := z.refs[b := z.refs[b] + 1]))
  }

  /** The address is in a frame of the zone; if that frame has a last reference, the buddy
      system can take a block of the order there. */
  ghost predicate FreeReady(z: State, ptr: nat, order: nat) {
    && z.frameSize > 0 && z.addr <= ptr && FrameOf(z, ptr) < |z.refs| == z.sys.frames
    && (z.refs[FrameOf(z, ptr)] == 1 ==>
          Shape(z.sys) && order <= z.sys.orderMax && Aligned(FrameOf(z, ptr), order))
  }

  function ZoneFree(z: State, ptr: nat, order: nat): State
    requires FreeReady(z, ptr, order)
  {
    var i := FrameOf(z, ptr);
    if z.refs[i] > 0 then
      var refs: seq<nat> := z.refs[i := z.refs[i] - 1];
      if refs[i] == 0 then z.(sys := Buddy.Free(z.sys, i, order), refs := refs)
      else z.(refs := refs)
    else z
  }

  /** Freeing takes one reference off the frame, if it has any; only the last one gives the block
      back. */
  lemma FreeCounts(z: State, ptr: nat, order: nat)
    requires FreeReady(z, ptr, order)
    ensures var z', i := ZoneFree(z, ptr, order), FrameOf(z, ptr);
      && z' == z.(sys := z'.sys, refs := z'.refs) && |z'.refs| == |z.refs|
      && (forall j :: 0 <= j < |z.refs| ==> z'.refs[j] == if j == i && z.refs[i] > 0 then z.refs[i] - 1 else z.refs[j])
      && z'.sys == if z.refs[i] == 1 then Buddy.Free(z.sys, i, order) else z.sys
  {
  }

  lemma AllocInRange(s: Sys, order: nat)
    requires Listed(s)
    ensures Buddy.Alloc(s, order).0.Some? ==> Buddy.Alloc(s, order).0.value < s.frames
  {
    if Search(s, order) <= s.orderMax {
      SearchHit(s, order);
      assert s.free[Search(s, order)][0] in s.free[Search(s, order)];
    }
  }

  /** All frames belong to somebody when a zone starts. */
  function ZoneInit(addr: nat, size: nat, frameSize: nat, flags: nat): State
    requires frameSize > 0
  {
    var n := size / frameSize;
    State(addr, size, frameSize, flags, Buddy.Init(n), seq(n, _ => 1))
  }

  // ------------------------------------------------------------------------- theory

  /** The counts tell the heads of the blocks handed out from all other frames. */
  ghost predicate ZoneInv(z: State, live: map<nat, nat>) {
    && Good(z.sys, live)
    && z.frameSize > 0 && z.sys.frames == z.size / z.frameSize
    && |z.refs| == z.sys.frames
    && forall f :: 0 <= f < |z.refs| ==> z.refs[f] == if f in live then 1 else 0
  }

  lemma InitInv(addr: nat, size: nat, frameSize: nat, flags: nat)
    requires frameSize > 0 && MapFits(size / frameSize)
    ensures ZoneInv(ZoneInit(addr, size, frameSize, flags), InitLive(size / frameSize))
  {
    InitGood(size / frameSize);
  }

  lemma FrameOfAddr(z: State, b: nat)
    requires z.frameSize > 0
    ensures FrameOf(z, AddrOf(z, b)) == b
  {
    DivUnique(z.frameSize * b, z.frameSize, b, 0);
  }

  /** A zone allocation hands out the address of a free run and counts one reference
      on its head; it returns null only when there is no such run (or the run sits
      at address 0). */
  lemma AllocInv(z: State, live: map<nat, nat>, order: nat)
    requires ZoneInv(z, live)
    ensures Listed(z.sys)
    ensures var (ptr, z') := ZoneAlloc(z, order);
            var none := !exists b :: FreeRun(z.sys.frames, live, b, order);
            && (none ==> ptr == NULL && z' == z)
            && (!none ==> exists b ::
                  && FreeRun(z.sys.frames, live, b, order) && b !in live
                  && ptr == AddrOf(z, b) && FrameOf(z, ptr) == b
                  && ZoneInv(z', live[b := order]))
            && z' == z.(sys := z'.sys, refs := z'.refs)
            && z'.sys.frames == z.sys.frames && z'.sys.orderMax == z.sys.orderMax
  {
    GoodListed(z.sys, live);
    AllocExact(z.sys, live, order);
    var (r, t) := Buddy.Alloc(z.sys, order);
    if r.Some? {
      AllocInRange(z.sys, order);
      RunNotLive(z.sys, live, r.value, order);
      FrameOfAddr(z, r.value);
      assert ZoneInv(ZoneAlloc(z, order).1, live[r.value := order]);
    }
  }

  /** The caller either returns a live block with its own order, or passes an
      address whose frame heads no live block. */
  ghost predicate MayFree(z: State, live: map<nat, nat>, ptr: nat, order: nat) {
    && ZoneInv(z, live) && z.addr <= ptr && FrameOf(z, ptr) < z.sys.frames
    && (FrameOf(z, ptr) in live ==> live[FrameOf(z, ptr)] == order)
  }

  lemma MayFreeOk(z: State, live: map<nat, nat>, ptr: nat, order: nat)
    requires MayFree(z, live, ptr, order)
    ensures FreeReady(z, ptr, order)
  {
    if FrameOf(z, ptr) in live { FreeExact(z.sys, live, FrameOf(z, ptr)); }
  }

  /** Freeing removes exactly the block whose head is addressed; on any other
      frame it changes nothing. */
  lemma FreeInv(z: State, live: map<nat, nat>, ptr: nat, order: nat)
    requires MayFree(z, live, ptr, order)
    ensures FreeReady(z, ptr, order)
    ensures var z' := ZoneFree(z, ptr, order);
            && ZoneInv(z', live - {FrameOf(z, ptr)})
            && (FrameOf(z, ptr) !in live ==> z' == z)
            && z' == z.(sys := z'.sys, refs := z'.refs)
            && z'.sys.frames == z.sys.frames && z'.sys.orderMax == z.sys.orderMax
  {
    MayFreeOk(z, live, ptr, order);
    var i := FrameOf(z, ptr);
    if i in live {
      FreeExact(z.sys, live, i);
    } else {
      assert live - {i} == live;
    }
  }

  /** A second free of the same address, with any order, changes nothing. */
  lemma DoubleFree(z: State, live: map<nat, nat>, ptr: nat, order: nat, order': nat)
    requires MayFree(z, live, ptr, order) && z.refs[FrameOf(z, ptr)] == 1
    ensures FreeReady(z, ptr, order)
    ensures var z' := ZoneFree(z, ptr, order);
            z' != z && FreeReady(z', ptr, order') && z'.refs[FrameOf(z', ptr)] == 0 && ZoneFree(z', ptr, order') == z'
  {
    FreeInv(z, live, ptr, order);
  }

  // ------------------------------------------------------------------------- in place

  class ZoneSt {
    const addr: nat
    const size: nat
    const frameSize: nat
    const flags: nat
    const buddy: BuddySys
    var refs: seq<nat>

    function View(): State
      reads this, buddy
    {
      State(addr, size, frameSize, flags, buddy.State(), refs)
    }

    constructor (addr: nat, size: nat, frameSize: nat, flags: nat)
      requires frameSize > 0 && size / frameSize < 0x1_0000_0000
      ensures View() == ZoneInit(addr, size, frameSize, flags) && fresh(buddy)
      ensures MapFits(size / frameSize) ==> ZoneInv(View(), InitLive(size / frameSize))
    {
      this.addr, this.size, this.frameSize, this.flags := addr, size, frameSize, flags;
      refs := seq(size / frameSize, _ => 1);
      buddy := new BuddySys(size / frameSize);
      if MapFits(size / frameSize) { InitInv(addr, size, frameSize, flags); }
    }

    method Alloc(order: nat) returns (ptr: nat)
      requires Listed(View().sys) && |refs| == View().sys.frames
      modifies this`refs, buddy
      ensures (ptr, View()) == ZoneAlloc(old(View()), order)
    {
      AllocInRange(buddy.State(), order);
      var frm := buddy.Alloc(order);
      if frm.None? {
        return NULL;
      }
      refs := refs[frm.value := refs[frm.value] + 1];
      ptr := addr + frameSize * frm.value;
    }

    method Free(ptr: nat, order: nat)
      requires FreeReady(View(), ptr, order)
      modifies this`refs, buddy
      ensures View() == ZoneFree(old(View()), ptr, order)
    {
      var i := (ptr - addr) / frameSize;
      if refs[i] > 0 {
        refs := refs[i := refs[i] - 1];
        if refs[i] == 0 {
          buddy.Free(i, order);
        }
      }
    }
  }
}
