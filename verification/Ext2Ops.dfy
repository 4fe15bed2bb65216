/** `ext2_read` as it runs: block by block into the caller's buffer. */
module Ext2Ops {
  import opened Common
  import opened Bits
  import opened Division
  import opened Bytes
  import opened Ramdisk
  import opened RamdiskOps
  import opened Ext2

  class Ext2Super {
    const dev: Disk
    const blockSize: nat
    const log: nat

    constructor (dev: Disk, blockSize: nat, log: nat)
      requires dev.Valid() && blockSize % 512 == 0 && blockSize >= 1024
      ensures Valid() && this.dev == dev && this.blockSize == blockSize && this.log == log
    {
      this.dev, this.blockSize, this.log := dev, blockSize, log;
    }

    ghost predicate Valid() { dev.Valid() && blockSize % 512 == 0 && blockSize >= 1024 }

    ghost function Model(): Fs
      requires Valid()
    {
      OnRamdisk(dev.disk, blockSize, log)
    }

    /** The indirect half of `offset_to_block`: the indirect block is read into a buffer of
        its own. */
    method ReadIndirect(ino: Inode, k: nat) returns (r: Lookup)
      requires Valid() && Usable(Model(), ino)
      modifies dev.blk
      ensures r == Indirect(Model(), ino, k)
    {
      var ind, dbl, tpl := k % 256, k / 0x100 % 256, k / 0x1_0000 % 256;
      if tpl != 0 || dbl != 0 {
        return Panic;
      }
      var buf := new Byte[blockSize](_ => 0);
      ghost var was := buf[..];
      var n := dev.ReadInto(buf, 0, blockSize, U32(Times(ino.blocks[12], blockSize)));
      if n != blockSize {
        return At(-1);
      }
      ghost var data := Model().dev(blockSize, U32(Times(ino.blocks[12], blockSize))).data;
      PatchIs(was, 0, data);
      assert buf[..] == data;
      return At(I32(Word(buf[..], ind)));
    }

    /** `offset_to_block` */
    method FindBlock(ino: Inode, offset: nat) returns (r: Lookup)
      requires Valid() && Usable(Model(), ino)
      modifies dev.blk
      ensures r == OffsetToBlock(Model(), ino, offset)
    {
      if 10 + log >= 32 {
        return At(-1);
      }
      var k := Shr(offset, 10 + log);
      if offset < U32(12 * blockSize) {
        return Direct(ino, k % 256);
      }
      r := ReadIndirect(ino, U32(k + 0x1_0000_0000 - 12));
    }

    /** What a round has to do, given what it should come to. */
    ghost predicate Rounded(r: Round, was: seq<Byte>, now: seq<Byte>, at: nat, panic: bool, n: int, ret: int) {
      match r
      case Panics => panic && now == was
      case NoBlock => !panic && n == -1 && now == was
      case Gets(m, reply) =>
        !panic && n == m && ret == reply.ret && at + |reply.data| <= |was| && now == Patch(was, at, reply.data)
    }

    ghost predicate PlaysAt(next: Rounds, ino: Inode, o: nat, off: nat, left: nat)
      requires Valid() && Usable(Model(), ino)
    {
      next(o, off, left) == OneRound(Model(), ino, o, off, left)
    }

    /** `next` gives the rounds of this file. */
    ghost predicate Plays(next: Rounds, ino: Inode)
      requires Valid() && Usable(Model(), ino)
    {
      forall o: nat, off: nat, left: nat {:trigger PlaysAt(next, ino, o, off, left)} :: PlaysAt(next, ino, o, off, left)
    }

    /** One round of the loop: find the block, read from it. */
    method TakeRound(ino: Inode, buf: array<Byte>, at: nat, fileOff: nat, off: nat, left: nat, ghost next: Rounds)
      returns (panic: bool, n: int, ret: int)
      requires Valid() && Usable(Model(), ino) && left > 0 && at + left <= buf.Length && buf != dev.blk
      requires Sane(next) && Plays(next, ino)
      modifies buf, dev.blk
      ensures Rounded(next(fileOff, off, left), old(buf[..]), buf[..], at, panic, n, ret)
    {
      assert PlaysAt(next, ino, fileOff, off, left);
      panic, n, ret := false, -1, 0;
      var where := FindBlock(ino, fileOff);
      if where.Panic? {
        panic := true;
      } else if where.block >= 0 {
        var blockOff := Rem(off, blockSize);
        n := Min(left, blockSize - blockOff);
        ret := dev.ReadInto(buf, at, n, U32(Times(where.block, blockSize) + blockOff));
      }
    }

    /** A finished read, given what it should come to. */
    ghost predicate Finished(o: Outcome, panic: bool, ret: int, buf: seq<Byte>) {
      if o.Panicked? then panic else !panic && ret == o.ret && buf == o.buf
    }

    /** What the loop comes to, from what its next round has done. */
    lemma Turn(next: Rounds, was: seq<Byte>, now: seq<Byte>, at: nat, o: nat, off: nat, left: nat, p: bool, n: int,
               ret: int)
      requires Sane(next) && left > 0 && at + left <= |was| && Rounded(next(o, off, left), was, now, at, p, n, ret)
      ensures |now| == |was| && (!p && n >= 0 ==> 0 < n <= left)
      ensures ReadLoop(next, was, at, o, off, left) ==
        if p then Panicked
        else if n < 0 || ret != n then Done(left, now)
        else ReadLoop(next, now, at + n, U32(o + n), 0, left - n)
    {
    }

    /** A round, and whether there is another one after it. */
    method Advance(ino: Inode, buf: array<Byte>, at: nat, o: nat, off: nat, left: nat, ghost next: Rounds)
      returns (panic: bool, n: nat)
      requires Valid() && Usable(Model(), ino) && left > 0 && at + left <= buf.Length && buf != dev.blk
      requires Sane(next) && Plays(next, ino)
      modifies buf, dev.blk
      ensures n <= left
      ensures ReadLoop(next, old(buf[..]), at, o, off, left) ==
        if panic then Panicked
        else if n == 0 then Done(left, buf[..])
        else ReadLoop(next, buf[..], at + n, U32(o + n), 0, left - n)
    {
      var p, m, ret := TakeRound(ino, buf, at, o, off, left, next);
      Turn(next, old(buf[..]), buf[..], at, o, off, left, p, m, ret);
      panic := p;
      n := if p || m < 0 || ret != m then 0 else m;
    }

    /** The loop of `ext2_read`. */
    method ReadPieces(ino: Inode, buf: array<Byte>, off: nat, count: int, ghost next: Rounds)
      returns (panic: bool, left: int)
      requires Valid() && Usable(Model(), ino) && count <= buf.Length && buf != dev.blk
      requires Sane(next) && Plays(next, ino)
      modifies buf, dev.blk
      ensures Finished(ReadLoop(next, old(buf[..]), 0, off, off, count), panic, left, buf[..])
    {
      ghost var goal := ReadLoop(next, buf[..], 0, off, off, count);
      var at: nat, o: nat, start: nat := 0, off, off;
      left := count;
      while left > 0
        invariant at + left <= buf.Length
        invariant goal == ReadLoop(next, buf[..], at, o, start, left)
      {
        var n;
        panic, n := Advance(ino, buf, at, o, start, left, next);
        if panic || n == 0 {
          return;
        }
        left, at, o, start := left - n, at + n, U32(o + n), 0;
      }
      panic := false;
    }

    lemma RoundsPlay(ino: Inode)
      requires Valid() && Usable(Model(), ino)
      ensures Plays(RoundsOf(Model(), ino), ino)
    {
    }

    /** `ext2_read`, given the rounds of the file. */
    method ReadClipped(ino: Inode, buf: array<Byte>, count: nat, off: nat, ghost next: Rounds)
      returns (panic: bool, ret: int)
      requires Valid() && Usable(Model(), ino) && count <= buf.Length && buf != dev.blk
      requires Sane(next) && Plays(next, ino)
      modifies buf, dev.blk
      ensures Finished(ReadWith(next, ino.size, old(buf[..]), count, off), panic, ret, buf[..])
    {
      if ino.size < off {
        return false, 0;
      }
      var n := count;
      if ino.size < U32(off + count) {
        n := ino.size - off;
      }
      var left;
      panic, left := ReadPieces(ino, buf, off, I32(n), next);
      ret := if panic then -1 else I32(n - left);
    }

    /** `ext2_read` */
    method ReadInto(ino: Inode, buf: array<Byte>, count: nat, off: nat) returns (panic: bool, ret: int)
      requires Valid() && Usable(Model(), ino) && count <= buf.Length && buf != dev.blk
      modifies buf, dev.blk
      ensures Finished(ReadFile(Model(), ino, old(buf[..]), count, off), panic, ret, buf[..])
    {
      RoundsPlay(ino);
      panic, ret := ReadClipped(ino, buf, count, off, RoundsOf(Model(), ino));
    }
  }
}
