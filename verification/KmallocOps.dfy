/** The allocator's size classes as they run. */
module KmallocOps {
  import opened Bits
  import opened Bytes
  import opened Kmalloc

  /** `next_pow2` */
  method RoundUp(val: nat) returns (v: nat)
    requires val < 0x1_0000_0000
    ensures v == NextPow2(val)
  {
    v := if val == 0 then 0xFFFF_FFFF else val - 1;
    v := Or(v, Shr(v, 1));
    v := Or(v, Shr(v, 2));
    v := Or(v, Shr(v, 4));
    v := Or(v, Shr(v, 8));
    v := Or(v, Shr(v, 16));
    v := U32(v + 1);
  }

  /** `fnzb` */
  method HighestBit(val: nat) returns (n: nat)
    ensures n == Fnzb(val)
    ensures 0 < val < 0x1_0000_0000 ==> Pow2(n) <= val < Pow2(n + 1)
  {
    n := 0;
    var v := val;
    if Shr(v, 16) != 0 {
      v, n := Shr(v, 16), n + 16;
    }
    if Shr(v, 8) != 0 {
      v, n := Shr(v, 8), n + 8;
    }
    if Shr(v, 4) != 0 {
      v, n := Shr(v, 4), n + 4;
    }
    if Shr(v, 2) != 0 {
      v, n := Shr(v, 2), n + 2;
    }
    if Shr(v, 1) != 0 {
      n := n + 1;
    }
    if 0 < val < 0x1_0000_0000 { FnzbIs(val); }
  }

  /** For words the highest bit is the logarithm. */
  method FloorLog(val: nat) returns (n: nat)
    requires val < 0x1_0000_0000
    ensures n == Log2(val)
  {
    n := HighestBit(val);
    FnzbLog2(val);
  }

  class Allocator {
    /** The object sizes of the caches. */
    var sizes: seq<nat>

    /** `kmalloc_init`: nineteen caches, each with objects twice as large as the one before. */
    constructor ()
      ensures |sizes| == 19 && forall i :: 0 <= i < 19 ==> sizes[i] == ClassSize(i)
    {
      var size, made: seq<nat> := 16, [];
      while |made| < 19
        invariant |made| <= 19 && size == ClassSize(|made|)
        invariant forall i :: 0 <= i < |made| ==> made[i] == ClassSize(i)
        decreases 19 - |made|
      {
        made := made + [size];
        size := 2 * size;
      }
      sizes := made;
    }

    /** The choice that `kmalloc` and `kfree` share. */
    method Choose(size: nat) returns (i: nat)
      requires size < 0x1_0000_0000
      requires |sizes| == 19 && forall i :: 0 <= i < 19 ==> sizes[i] == ClassSize(i)
      ensures i == Class(size)
      ensures size <= 0x40_0000 ==>
        i < 19 && size <= sizes[i] && (i == 0 || sizes[i - 1] < size)
    {
      i := 16;
      if size >= 16 {
        i := RoundUp(size);
      }
      i := Shr(i, 4);
      i := HighestBit(i);
      if size <= 0x40_0000 {
        ClassIs(size);
        ServedExactly(size);
      }
    }
  }
}
