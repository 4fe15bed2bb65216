/** The frame layer as it runs: loops over the list of registered zones. */
module FrameAllocator {
  import opened Bits
  import opened Buddy
  import opened BuddyAllocator
  import opened KmallocOps
  import opened Zone
  import opened Frame

  function Buddies(zones: seq<ZoneSt>): set<BuddySys> {
    set z <- zones :: z.buddy
  }

  /** The zones as values. */
  ghost function Views(zones: seq<ZoneSt>): seq<State>
    reads zones, Buddies(zones)
  {
    seq(|zones|, k requires 0 <= k < |zones| reads zones, Buddies(zones) => zones[k].View())
  }

  /** No zone is listed twice, and no two share a buddy system. */
  ghost predicate Separate(zones: seq<ZoneSt>) {
    forall j, k :: 0 <= j < k < |zones| ==> zones[j] != zones[k] && zones[j].buddy != zones[k].buddy
  }

  /** Two lists of views that differ in zone `k` only. */
  lemma OneChanged(zs: seq<State>, zs': seq<State>, k: nat)
    requires k < |zs| == |zs'| && forall j :: 0 <= j < |zs| && j != k ==> zs'[j] == zs[j]
    ensures zs' == zs[k := zs'[k]]
  {
  }

  method AllocAt(zones: seq<ZoneSt>, k: nat, order: nat) returns (ptr: nat)
    requires Separate(zones) && k < |zones|
    requires Listed(zones[k].View().sys) && |zones[k].refs| == zones[k].View().sys.frames && zones[k].addr > 0
    modifies zones[k], zones[k].buddy
    ensures ptr == ZoneAlloc(old(zones[k].View()), order).0
    ensures Views(zones) == old(Views(zones))[k := ZoneAlloc(old(zones[k].View()), order).1]
    ensures ptr == NULL ==> Views(zones) == old(Views(zones))
  {
    NoChange(zones[k].View(), order);
    ptr := zones[k].Alloc(order);
    OneChanged(old(Views(zones)), Views(zones), k);
  }

  method FreeAt(zones: seq<ZoneSt>, k: nat, ptr: nat, order: nat)
    requires Separate(zones) && k < |zones| && FreeReady(zones[k].View(), ptr, order)
    modifies zones[k], zones[k].buddy
    ensures Views(zones) == old(Views(zones))[k := ZoneFree(old(zones[k].View()), ptr, order)]
  {
    zones[k].Free(ptr, order);
    OneChanged(old(Views(zones)), Views(zones), k);
  }

  /** The walk to the zone that takes a block back. */
  method Home(zones: seq<ZoneSt>, ptr: nat, order: nat) returns (k: nat)
    ensures k == Find(Views(zones), 0, ptr, order)
  {
    ghost var zs := Views(zones);
    k := 0;
    while k < |zones|
      invariant k <= |zones| && Find(zs, 0, ptr, order) == Find(zs, k, ptr, order)
    {
      var zone := zones[k];
      assert zs[k] == zone.View();
      if order <= zone.buddy.orderMax && IsWithin(zone.addr, zone.size, ptr, Pow2(order + Log2(zone.frameSize))) {
        return;
      }
      k := k + 1;
    }
  }

  /** Do the orders of the blocks fit the width of an address? */
  method OrdersFit(frames: nat, frameSize: nat) returns (r: bool)
    requires frames < TOP && frameSize < TOP
    ensures r <==> Log2(frameSize) + Log2(frames) < 32
  {
    var orderBit := FloorLog(frameSize);
    var orderMax := FloorLog(frames);
    r := orderBit + orderMax < 32;
  }

  method Push(zones: seq<ZoneSt>, addr: nat, size: nat, frameSize: nat, flags: nat) returns (zones': seq<ZoneSt>)
    requires Separate(zones) && size < TOP && 0 < frameSize
    ensures Separate(zones') && Views(zones') == [ZoneInit(addr, size, frameSize, flags)] + old(Views(zones))
  {
    var zone := new ZoneSt(addr, size, frameSize, flags);
    zones' := [zone] + zones;
  }

  class Frames {
    /** The registered zones, most recent first. */
    var zones: seq<ZoneSt>

    constructor ()
      ensures Separate(zones) && Views(zones) == []
    {
      zones := [];
    }

    method FrameAllocate(order: nat, flags: nat) returns (ptr: nat)
      requires Separate(zones) && Usable(Views(zones))
      modifies zones, Buddies(zones)
      ensures (ptr, Views(zones)) == FrameAlloc(old(Views(zones)), order, flags)
    {
      ghost var zs := Views(zones);
      ptr := NULL;
      var k := 0;
      while k < |zones|
        invariant k <= |zones| && Views(zones) == zs && ptr == NULL
        invariant Server(zs, 0, order, flags) == Server(zs, k, order, flags)
      {
        assert zs[k] == zones[k].View();
        if And(zones[k].flags, flags) == flags {
          ptr := AllocAt(zones, k, order);
          if ptr != NULL {
            return;
          }
        }
        k := k + 1;
      }
    }

    method FrameRelease(ptr: nat, order: nat)
      requires Separate(zones) && Ready(Views(zones), ptr, order)
      modifies zones, Buddies(zones)
      ensures Views(zones) == FrameFree(old(Views(zones)), ptr, order)
    {
      if ptr == NULL {
        return;
      }
      var k := Home(zones, ptr, order);
      if k < |zones| {
        FreeAt(zones, k, ptr, order);
      }
    }

    /** Registers a zone; fails when memory is short, on a zero frame size, and on sizes past
        the address width. */
    method ZoneAdd(addr: nat, size: nat, frameSize: nat, flags: nat, memory: bool) returns (res: int)
      requires Separate(zones) && size < TOP && frameSize < TOP
      modifies this
      ensures Separate(zones)
      ensures res == 0 <==> memory && frameSize > 0 && Log2(frameSize) + Log2(size / frameSize) < 32
      ensures res == 0 ==> Views(zones) == [ZoneInit(addr, size, frameSize, flags)] + old(Views(zones))
      ensures res != 0 ==> res == -1 && zones == old(zones)
    {
      if !memory || frameSize == 0 {
        return -1;
      }
      var fit := OrdersFit(size / frameSize, frameSize);
      if !fit {
        return -1;
      }
      var added := Push(zones, addr, size, frameSize, flags);
      ghost var views := Views(added);
      zones := added;
      assert Views(zones) == views;
      res := 0;
    }
  }

  /** A zone that returns null is as it was. */
  lemma NoChange(z: State, order: nat)
    requires Listed(z.sys) && |z.refs| == z.sys.frames && z.addr > 0
    ensures ZoneAlloc(z, order).0 == NULL ==> ZoneAlloc(z, order).1 == z
  {
  }
}
