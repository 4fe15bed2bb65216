/** The memory disk as it runs: bytes are copied into the caller's buffer, through the
    disk's block buffer. */
module RamdiskOps {
  import opened Common
  import opened Bytes
  import opened Ramdisk

  lemma OneBlock(disk: seq<Byte>, nblk: nat, left: nat, done: seq<Byte>, piece: seq<Byte>)
    requires Sized(disk) && left > 0 && ReadBlock(disk, nblk).ret == 512
    requires piece == Range(ReadBlock(disk, nblk).data, 0, Min(512, left))
    ensures done + ReadBlocks(disk, nblk, left)
      == (done + piece) + ReadBlocks(disk, U32(nblk + 1), left - |piece|)
  {
  }

  lemma FirstAndRest(disk: seq<Byte>, size: nat, nblk: nat, ioff: nat, m: nat)
    requires Sized(disk) && ioff < 512 && ReadBlock(disk, nblk).ret == 512 && m == Min(512 - ioff, size)
    ensures ReadAt(disk, size, nblk, ioff).data
      == Range(ReadBlock(disk, nblk).data, ioff, ioff + m) + ReadBlocks(disk, U32(nblk + 1), size - m)
    ensures ReadAt(disk, size, nblk, ioff).ret == m + |ReadBlocks(disk, U32(nblk + 1), size - m)|
  {
  }

  class Disk {
    /** The memory of the disk. */
    const disk: seq<Byte>
    /** The static block buffer. */
    const blk: array<Byte>

    ghost predicate Valid() { Sized(disk) && blk.Length == 512 }

    constructor (disk: seq<Byte>)
      requires Sized(disk)
      ensures Valid() && this.disk == disk && fresh(blk)
    {
      this.disk := disk;
      blk := new Byte[512](_ => 0);
    }

    /** `ramdisk_read_block`, into the block buffer. */
    method LoadBlock(blocknum: nat) returns (n: int)
      requires Valid()
      modifies blk
      ensures n == ReadBlock(disk, blocknum).ret
      ensures n > 0 ==> n <= 512 && blk[..n] == ReadBlock(disk, blocknum).data
    {
      var off := U32(blocknum * 512);
      if off > |disk| {
        return -1;
      }
      n := 512;
      if U32(off + 512) > |disk| {
        n := |disk| - off;
      }
      ghost var was := blk[..];
      Memcpy(blk, 0, disk, off, n);
      PatchIs(was, 0, Range(disk, off, off + n));
    }

    /** The first block of `ramdisk_read`. */
    method ReadFirst(buf: array<Byte>, at: nat, size: nat, nblk: nat, ioff: nat) returns (ret: int, n: nat)
      requires Valid() && at + size <= buf.Length && buf != blk && ioff < 512
      modifies buf, blk
      ensures ret == ReadBlock(disk, nblk).ret
      ensures ret != 512 ==> n == 0 && buf[..] == old(buf[..])
      ensures ret == 512 ==> n == Min(512 - ioff, size)
      ensures ret == 512 ==> buf[..] == Patch(old(buf[..]), at, Range(ReadBlock(disk, nblk).data, ioff, ioff + n))
    {
      n := 0;
      ret := LoadBlock(nblk);
      if ret == 512 {
        assert blk[..] == blk[..512];
        n := Min(512 - ioff, size);
        Memcpy(buf, at, blk[..], ioff, n);
      }
    }

    /** The loop of `ramdisk_read`. */
    method ReadRest(buf: array<Byte>, at: nat, size: nat, first: nat) returns (left: nat)
      requires Valid() && at + size <= buf.Length && buf != blk
      modifies buf, blk
      ensures size - left == |ReadBlocks(disk, first, size)|
      ensures buf[..] == Patch(old(buf[..]), at, ReadBlocks(disk, first, size))
    {
      var ptr, nblk := at, first;
      left := size;
      ghost var done: seq<Byte> := [];
      ghost var all := ReadBlocks(disk, first, size);
      while left > 0
        invariant ptr + left == at + size && |done| == ptr - at
        invariant buf[..] == Patch(old(buf[..]), at, done)
        invariant all == done + ReadBlocks(disk, nblk, left)
      {
        var n, m := ReadFirst(buf, ptr, left, nblk, 0);
        if n != 512 {
          break;
        }
        ghost var piece := Range(ReadBlock(disk, nblk).data, 0, m);
        OneBlock(disk, nblk, left, done, piece);
        PatchCat(old(buf[..]), at, done, piece);
        done := done + piece;
        left, ptr, nblk := left - m, ptr + m, U32(nblk + 1);
      }
      assert all == done;
    }

    /** `ramdisk_read`: the bytes go to `buf` from place `at` on. */
    method ReadInto(buf: array<Byte>, at: nat, size: nat, off: nat) returns (ret: int)
      requires Valid() && at + size <= buf.Length && buf != blk
      modifies buf, blk
      ensures ret == Read(disk, size, off).ret
      ensures buf[..] == Patch(old(buf[..]), at, Read(disk, size, off).data)
    {
      ret := ReadIntoAt(buf, at, size, off / 512, off % 512);
    }

    method ReadIntoAt(buf: array<Byte>, at: nat, size: nat, nblk: nat, ioff: nat) returns (ret: int)
      requires Valid() && at + size <= buf.Length && buf != blk && ioff < 512
      modifies buf, blk
      ensures ret == ReadAt(disk, size, nblk, ioff).ret
      ensures buf[..] == Patch(old(buf[..]), at, ReadAt(disk, size, nblk, ioff).data)
    {
      var n, m := ReadFirst(buf, at, size, nblk, ioff);
      if n != 512 {
        return n;
      }
      FirstAndRest(disk, size, nblk, ioff, m);
      ghost var piece := Range(ReadBlock(disk, nblk).data, ioff, ioff + m);
      PatchCat(old(buf[..]), at, piece, ReadBlocks(disk, U32(nblk + 1), size - m));
      var left := ReadRest(buf, at + m, size - m, U32(nblk + 1));
      return size - left;
    }
  }
}
