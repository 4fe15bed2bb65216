/** The memory disk: reads of any range, done in 512-byte blocks through one block buffer. */
module Ramdisk {
  import opened Common
  import opened Bytes

  /** A disk that leaves room for one more block below the top of the address space. */
  predicate Sized(disk: seq<Byte>) { |disk| < 0xFFFF_FE00 }

  /** What a read returns, and the bytes it copies to the caller's buffer. */
  datatype Reply = Reply(ret: int, data: seq<Byte>)

  // ------------------------------------------------------------------------ operations

  /** `ramdisk_rw_block` when reading: a block, the last short one, or an error. */
  function ReadBlock(disk: seq<Byte>, blocknum: nat): (r: Reply)
    requires Sized(disk)
    ensures r.ret == -1 || r.ret == |r.data|
  {
    var off := U32(blocknum * 512);
    if off > |disk| then Reply(-1, [])
    else
      var n := if U32(off + 512) > |disk| then |disk| - off else 512;
      Reply(n, Range(disk, off, off + n))
  }

  /** The loop of `ramdisk_read`, with `left` bytes to go: stops at the first block that is
      not whole. */
  function ReadBlocks(disk: seq<Byte>, nblk: nat, left: nat): (r: seq<Byte>)
    requires Sized(disk)
    ensures |r| <= left
    decreases left
  {
    if left == 0 || ReadBlock(disk, nblk).ret != 512 then []
    else
      var n := Min(512, left);
      Range(ReadBlock(disk, nblk).data, 0, n) + ReadBlocks(disk, U32(nblk + 1), left - n)
  }

  /** `ramdisk_read`. When the first block is not whole its size is returned although
      nothing has been copied. */
  function Read(disk: seq<Byte>, size: nat, off: nat): (r: Reply)
    requires Sized(disk)
    ensures |r.data| <= size
  {
    ReadAt(disk, size, off / 512, off % 512)
  }

  function ReadAt(disk: seq<Byte>, size: nat, nblk: nat, ioff: nat): (r: Reply)
    requires Sized(disk) && ioff < 512
    ensures |r.data| <= size
  {
    var first := ReadBlock(disk, nblk);
    if first.ret != 512 then Reply(first.ret, [])
    else
      var n := Min(512 - ioff, size);
      var data := Range(first.data, ioff, ioff + n) + ReadBlocks(disk, U32(nblk + 1), size - n);
      Reply(|data|, data)
  }

  // ---------------------------------------------------------------------------- theory

  /** The number of whole blocks. */
  function Blocks(disk: seq<Byte>): (b: nat)
    ensures 512 * b <= |disk| < 512 * b + 512
  {
    |disk| / 512
  }

  lemma BlockWhole(disk: seq<Byte>, k: nat)
    requires Sized(disk) && k < Blocks(disk)
    ensures ReadBlock(disk, k) == Reply(512, Range(disk, 512 * k, 512 * k + 512))
    ensures U32(k + 1) == k + 1
  {
  }

  lemma BlockShort(disk: seq<Byte>, k: nat)
    requires Sized(disk) && Blocks(disk) <= k < 0x80_0000
    ensures ReadBlock(disk, k).ret == if k == Blocks(disk) then |disk| - 512 * k else -1
  {
  }

  /** One round of the loop. */
  lemma BlocksStep(disk: seq<Byte>, k: nat, left: nat)
    requires Sized(disk) && k < Blocks(disk) && left > 0
    ensures var n := Min(512, left);
      ReadBlocks(disk, k, left) == Range(disk, 512 * k, 512 * k + n) + ReadBlocks(disk, k + 1, left - n)
  {
    BlockWhole(disk, k);
    RangeRange(disk, 512 * k, 512 * k + 512, 0, Min(512, left));
  }

  lemma BlocksEnd(disk: seq<Byte>, k: nat, left: nat)
    requires Sized(disk) && (left == 0 || k == Blocks(disk))
    ensures ReadBlocks(disk, k, left) == []
  {
    if k == Blocks(disk) { BlockShort(disk, k); }
  }

  /** The end of what a read of `size` bytes from `off` can reach. */
  function End(disk: seq<Byte>, size: nat, off: nat): nat {
    Min(off + size, 512 * Blocks(disk))
  }

  /** The loop copies up to the end of the whole blocks. */
  ghost predicate BlocksGood(disk: seq<Byte>, k: nat, left: nat)
    requires Sized(disk) && k <= Blocks(disk)
  {
    ReadBlocks(disk, k, left) == Range(disk, 512 * k, End(disk, left, 512 * k))
  }

  lemma BlocksBack(disk: seq<Byte>, k: nat, left: nat)
    requires Sized(disk) && k < Blocks(disk) && left > 512 && BlocksGood(disk, k + 1, left - 512)
    ensures BlocksGood(disk, k, left)
  {
    BlocksStep(disk, k, left);
    RangeCat(disk, 512 * k, 512 * k + 512, End(disk, left, 512 * k));
  }

  lemma {:induction false} ReadBlocksIs(disk: seq<Byte>, k: nat, left: nat)
    requires Sized(disk) && k <= Blocks(disk)
    ensures BlocksGood(disk, k, left)
    decreases left
  {
    if left == 0 || k == Blocks(disk) {
      BlocksEnd(disk, k, left);
    } else if left <= 512 {
      BlocksStep(disk, k, left);
      BlocksEnd(disk, k + 1, 0);
    } else {
      ReadBlocksIs(disk, k + 1, left - 512);
      BlocksBack(disk, k, left);
    }
  }

  /** The first block gives `n` bytes, and then the loop goes on at the next one. */
  lemma ReadStep(disk: seq<Byte>, size: nat, nblk: nat, ioff: nat, n: nat)
    requires Sized(disk) && nblk < Blocks(disk) && ioff < 512 && n == Min(512 - ioff, size)
    ensures var data := Range(disk, 512 * nblk + ioff, 512 * nblk + ioff + n) + ReadBlocks(disk, nblk + 1, size - n);
      ReadAt(disk, size, nblk, ioff) == Reply(|data|, data)
  {
    BlockWhole(disk, nblk);
    RangeRange(disk, 512 * nblk, 512 * nblk + 512, ioff, ioff + n);
  }

  lemma ReadJoin(disk: seq<Byte>, size: nat, off: nat, k: nat, n: nat)
    requires Sized(disk) && n <= size && k <= Blocks(disk) && off + n <= 512 * k && (n < size ==> off + n == 512 * k)
    ensures Range(disk, off, off + n) + ReadBlocks(disk, k, size - n) == Range(disk, off, End(disk, size, off))
  {
    if n < size {
      ReadBlocksIs(disk, k, size - n);
      RangeCat(disk, off, off + n, End(disk, size, off));
    } else {
      BlocksEnd(disk, k, 0);
    }
  }

  lemma ReadInside(disk: seq<Byte>, size: nat, off: nat)
    requires Sized(disk) && off < 512 * Blocks(disk)
    ensures var data := Range(disk, off, End(disk, size, off));
      Read(disk, size, off) == Reply(|data|, data)
  {
    var nblk, ioff := off / 512, off % 512;
    assert off == 512 * nblk + ioff && nblk < Blocks(disk);
    var n := Min(512 - ioff, size);
    ReadStep(disk, size, nblk, ioff, n);
    ReadJoin(disk, size, off, nblk + 1, n);
  }

  lemma ReadOutside(disk: seq<Byte>, size: nat, off: nat)
    requires Sized(disk) && 512 * Blocks(disk) <= off < 0x1_0000_0000
    ensures Read(disk, size, off) ==
      Reply(if off < 512 * Blocks(disk) + 512 then |disk| - 512 * Blocks(disk) else -1, [])
  {
    BlockShort(disk, off / 512);
  }

  /** The bytes `off` to `off + size` of a flat array, as far as they exist. */
  function Flat(disk: seq<Byte>, size: nat, off: nat): Reply {
    var data := if off < |disk| then Range(disk, off, Min(off + size, |disk|)) else [];
    Reply(|data|, data)
  }

  /** A read is a read of a flat array exactly if it stays clear of a short last block and
      starts at most one block beyond the end. */
  lemma FlatExactly(disk: seq<Byte>, size: nat, off: nat)
    requires Sized(disk) && off < 0x1_0000_0000
    ensures Read(disk, size, off) == Flat(disk, size, off) <==>
      (off < 512 * Blocks(disk) && off + size <= 512 * Blocks(disk)) || (|disk| % 512 == 0 && off < |disk| + 512)
  {
    if off < 512 * Blocks(disk) {
      ReadInside(disk, size, off);
      assert |Flat(disk, size, off).data| == Min(off + size, |disk|) - off;
    } else {
      ReadOutside(disk, size, off);
    }
  }
}
