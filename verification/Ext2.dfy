/** Reading a file of an ext2 file system through its block device. Products with the block
    size and remainders by it are `Times` and `Rem`, which equal `*` and `%`. */
module Ext2 {
  import opened Common
  import opened Bits
  import opened Bytes
  import opened Division
  import opened Ramdisk

  /** An inode in memory: the file size and its fifteen block pointers. */
  datatype Inode = Inode(size: nat, blocks: seq<nat>)

  /** `devfs_read` on the device of the file system: size and offset to reply. */
  type Device = (nat, nat) -> Reply

  /** The device, what it stores, and the block size with its logarithm. */
  datatype Fs = Fs(dev: Device, disk: seq<Byte>, blockSize: nat, log: nat)

  datatype Lookup = At(block: int) | Panic

  datatype Outcome = Done(ret: int, buf: seq<Byte>) | Panicked

  /** A device never copies more than it is asked for, and when it reports a block as read
      it has copied all of it. */
  ghost predicate Usable(fs: Fs, ino: Inode) {
    && fs.blockSize >= 1024
    && |ino.blocks| == 15
    && (forall i :: 0 <= i < 15 ==> ino.blocks[i] < 0x1_0000_0000)
    && (forall size, off :: |fs.dev(size, off).data| <= size)
    && (forall size, off :: size >= 512 && fs.dev(size, off).ret == size ==> |fs.dev(size, off).data| == size)
  }

  // ------------------------------------------------------------------------ operations

  /** `offset_to_block`: the disk block that holds byte `offset` of the file. */
  function OffsetToBlock(fs: Fs, ino: Inode, offset: nat): Lookup
    requires Usable(fs, ino)
  {
    if 10 + fs.log >= 32 then At(-1) else Route(fs, ino, offset, Shr(offset, 10 + fs.log))
  }

  function Route(fs: Fs, ino: Inode, offset: nat, k: nat): Lookup
    requires Usable(fs, ino)
  {
    if offset < U32(12 * fs.blockSize) then Direct(ino, k % 256) else Indirect(fs, ino, U32(k + 0x1_0000_0000 - 12))
  }

  function Direct(ino: Inode, ind: nat): Lookup
    requires |ino.blocks| == 15
  {
    if ind >= 15 then At(-1) else At(I32(ino.blocks[ind]))
  }

  /** Only 256 pointers of the indirect block are in reach. */
  function Indirect(fs: Fs, ino: Inode, k: nat): Lookup
    requires Usable(fs, ino)
  {
    var ind, dbl, tpl := k % 256, k / 0x100 % 256, k / 0x1_0000 % 256;
    if tpl != 0 || dbl != 0 then Panic
    else
      var reply := fs.dev(fs.blockSize, U32(Times(ino.blocks[12], fs.blockSize)));
      if reply.ret != fs.blockSize then At(-1) else At(I32(Word(reply.data, ind)))
  }

  /** One round of `ext2_read`: how much is wanted of the block, and what the device gives. */
  function Piece(fs: Fs, block: nat, off: nat, left: nat): (r: (nat, Reply))
    requires fs.blockSize > 0 && left > 0
    ensures 0 < r.0 <= left && r.1 == fs.dev(r.0, U32(Times(block, fs.blockSize) + Rem(off, fs.blockSize)))
  {
    var blockOff := Rem(off, fs.blockSize);
    var n := Min(left, fs.blockSize - blockOff);
    (n, fs.dev(n, U32(Times(block, fs.blockSize) + blockOff)))
  }

  /** What one round of `ext2_read` comes to. */
  datatype Round = Panics | NoBlock | Gets(n: nat, reply: Reply)

  function OneRound(fs: Fs, ino: Inode, fileOff: nat, off: nat, left: nat): (r: Round)
    requires Usable(fs, ino)
    ensures left > 0 && r.Gets? ==> 0 < r.n <= left && |r.reply.data| <= r.n
  {
    match OffsetToBlock(fs, ino, fileOff)
    case Panic => Panics
    case At(block) =>
      if block < 0 || left == 0 then NoBlock
      else var (n, reply) := Piece(fs, block, off, left); Gets(n, reply)
  }

  /** Rounds as a function of the place in the file, the offset and the bytes to go. */
  type Rounds = (nat, nat, nat) -> Round

  ghost predicate Sane(next: Rounds) {
    forall o, off, left :: left > 0 && next(o, off, left).Gets? ==>
      0 < next(o, off, left).n <= left && |next(o, off, left).reply.data| <= next(o, off, left).n
  }

  /** The loop of `ext2_read`; the result carries the number of bytes not read. */
  function ReadLoop(next: Rounds, buf: seq<Byte>, at: nat, fileOff: nat, off: nat, left: int): (r: Outcome)
    requires Sane(next) && at + left <= |buf|
    ensures r.Done? ==> r.ret <= left
    decreases left
  {
    if left <= 0 then Done(left, buf)
    else
      match next(fileOff, off, left)
      case Panics => Panicked
      case NoBlock => Done(left, buf)
      case Gets(n, reply) =>
        var buf' := Patch(buf, at, reply.data);
        if reply.ret != n then Done(left, buf') else ReadLoop(next, buf', at + n, U32(fileOff + n), 0, left - n)
  }

  /** The rounds of a file. */
  function RoundsOf(fs: Fs, ino: Inode): (next: Rounds)
    requires Usable(fs, ino)
    ensures Sane(next)
  {
    (o: nat, off: nat, left: nat) => OneRound(fs, ino, o, off, left)
  }

  /** `ext2_read` */
  function ReadFile(fs: Fs, ino: Inode, buf: seq<Byte>, count: nat, off: nat): Outcome
    requires Usable(fs, ino) && count <= |buf|
  {
    ReadWith(RoundsOf(fs, ino), ino.size, buf, count, off)
  }

  function ReadWith(next: Rounds, size: nat, buf: seq<Byte>, count: nat, off: nat): Outcome
    requires Sane(next) && count <= |buf|
  {
    if size < off then Done(0, buf)
    else
      var count := if size < U32(off + count) then size - off else count;
      match ReadLoop(next, buf, 0, off, off, I32(count))
      case Panicked => Panicked
      case Done(left, buf') => Done(I32(count - left), buf')
  }

  // ---------------------------------------------------------------------------- theory

  /** Disk block `k` lies on the disk. */
  predicate Present(fs: Fs, k: nat) {
    Times(k, fs.blockSize) + fs.blockSize <= |fs.disk|
  }

  /** If a block that starts at `start` lies on the disk, the device gives any part of it as
      it is stored. */
  ghost predicate Served(fs: Fs, start: nat, i: nat, n: nat) {
    start + fs.blockSize <= |fs.disk| && n > 0 && i + n <= fs.blockSize ==>
      fs.dev(n, start + i) == Reply(n, Range(fs.disk, start + i, start + i + n))
  }

  ghost predicate Serves(fs: Fs) {
    forall k: nat, i: nat, n: nat {:trigger Served(fs, Times(k, fs.blockSize), i, n)} ::
      Served(fs, Times(k, fs.blockSize), i, n)
  }

  /** The disk block that holds block `k` of the file. */
  ghost function Pointer(fs: Fs, ino: Inode, k: nat): nat
    requires Usable(fs, ino) && k < 268
    requires k >= 12 ==> Present(fs, ino.blocks[12])
  {
    if k < 12 then ino.blocks[k]
    else
      var base := Times(ino.blocks[12], fs.blockSize);
      Word(Range(fs.disk, base, base + fs.blockSize), k - 12)
  }

  /** Block `k` of the file lies on the disk, and so does the indirect block if `k` needs it. */
  ghost predicate OnDisk(fs: Fs, ino: Inode, k: nat) {
    && Usable(fs, ino) && k < 268
    && (k >= 12 ==> Present(fs, ino.blocks[12]))
    && Present(fs, Pointer(fs, ino, k))
  }

  /** The block size is 1024 << log and twelve blocks are still addressable. */
  ghost predicate Geometry(fs: Fs) {
    fs.log <= 18 && fs.blockSize == Pow2(10 + fs.log)
  }

  function FileBlock(fs: Fs, o: nat): nat
    requires fs.blockSize > 0
  {
    Quot(o, fs.blockSize)
  }

  /** Every block of the file lies on the disk. */
  ghost predicate Mapped(fs: Fs, ino: Inode) {
    && Usable(fs, ino) && Serves(fs) && |fs.disk| < 0x1_0000_0000
    && ino.size < 0x8000_0000
    && forall o: nat {:trigger FileBlock(fs, o)} :: o < ino.size ==> OnDisk(fs, ino, FileBlock(fs, o))
  }

  /** The disk address of byte `o` of the file. */
  ghost function Address(fs: Fs, ino: Inode, o: nat): (a: nat)
    requires fs.blockSize > 0 && OnDisk(fs, ino, FileBlock(fs, o))
    ensures a < |fs.disk|
  {
    Times(Pointer(fs, ino, FileBlock(fs, o)), fs.blockSize) + Rem(o, fs.blockSize)
  }

  /** The file, byte by byte, as its block pointers define it. */
  ghost function Content(fs: Fs, ino: Inode): (c: seq<Byte>)
    requires Mapped(fs, ino)
    ensures |c| == ino.size
  {
    seq(ino.size, o requires 0 <= o < ino.size => fs.disk[Address(fs, ino, o)])
  }

  // --------------------------------------------------------------------- block pointers

  lemma {:induction false} Pow2Mod(k: nat)
    requires k >= 9
    ensures Pow2(k) % 512 == 0
  {
    if k == 9 {
      assert Pow2(9) == 512;
    } else {
      Pow2Mod(k - 1);
    }
  }

  lemma Sizes(log: nat)
    requires log <= 18
    ensures Pow2(10 + log) % 512 == 0 && 1024 <= Pow2(10 + log) <= 0x1000_0000
  {
    Pow2Mod(10 + log);
    Pow2Mono(10, 10 + log);
    Pow2Mono(10 + log, 28);
    PowerValues();
  }

  lemma Shifted(fs: Fs, o: nat)
    requires Geometry(fs)
    ensures 1024 <= fs.blockSize <= 0x1000_0000 && fs.blockSize % 512 == 0
    ensures Shr(o, 10 + fs.log) == FileBlock(fs, o)
  {
    Sizes(fs.log);
    ShrDiv(o, 10 + fs.log);
    DivisionIs(o, fs.blockSize);
  }

  lemma FirstBlocks(o: nat, m: nat, d: nat)
    requires d > 0
    ensures o < m * d <==> Quot(o, d) < m
  {
    QuotBelow(o, m, d);
    TimesIs(m, d);
  }

  lemma FewBlocks(o: nat, d: nat)
    requires d >= 1024 && o < 0x1_0000_0000
    ensures Quot(o, d) < 0x40_0000
  {
    FirstBlocks(o, 0x40_0000, d);
  }

  /** The lookup by number of the file block. */
  ghost function ByBlock(fs: Fs, ino: Inode, k: nat): Lookup
    requires Usable(fs, ino)
  {
    if k < 12 then Direct(ino, k) else Indirect(fs, ino, k - 12)
  }

  lemma RouteIs(fs: Fs, ino: Inode, o: nat, k: nat)
    requires Usable(fs, ino) && fs.blockSize <= 0x1000_0000 && k < 0x40_0000 && (o < 12 * fs.blockSize <==> k < 12)
    ensures Route(fs, ino, o, k) == ByBlock(fs, ino, k)
  {
    assert k < 12 ==> k % 256 == k;
    assert k >= 12 ==> U32(k + 0x1_0000_0000 - 12) == k - 12;
  }

  lemma Unfold(fs: Fs, ino: Inode, o: nat)
    requires Usable(fs, ino) && Geometry(fs) && o < 0x1_0000_0000
    ensures OffsetToBlock(fs, ino, o) == ByBlock(fs, ino, FileBlock(fs, o))
  {
    Shifted(fs, o);
    FirstBlocks(o, 12, fs.blockSize);
    FewBlocks(o, fs.blockSize);
    RouteIs(fs, ino, o, FileBlock(fs, o));
  }

  /** A block number on the disk is small, and its address does not wrap around. */
  lemma SmallBlock(fs: Fs, k: nat)
    requires |fs.disk| < 0x1_0000_0000 && fs.blockSize >= 1024 && Present(fs, k)
    ensures k < 0x40_0000 && I32(k) == k && U32(Times(k, fs.blockSize)) == Times(k, fs.blockSize)
  {
    TimesBound(k, 1024, fs.blockSize);
    TimesIs(k, 1024);
  }

  lemma IndirectIs(fs: Fs, ino: Inode, k: nat)
    requires OnDisk(fs, ino, k) && k >= 12 && Serves(fs) && |fs.disk| < 0x1_0000_0000
    ensures Indirect(fs, ino, k - 12) == At(I32(Pointer(fs, ino, k)))
  {
    var ind := k - 12;
    assert ind / 0x100 == 0 && ind / 0x1_0000 == 0 && ind % 256 == ind;
    SmallBlock(fs, ino.blocks[12]);
    assert Served(fs, Times(ino.blocks[12], fs.blockSize), 0, fs.blockSize);
  }

  /** Within the mapped blocks the lookup follows the block pointers. */
  lemma LookupIs(fs: Fs, ino: Inode, o: nat)
    requires Mapped(fs, ino) && Geometry(fs) && o < ino.size
    ensures OnDisk(fs, ino, FileBlock(fs, o))
    ensures OffsetToBlock(fs, ino, o) == At(Pointer(fs, ino, FileBlock(fs, o)))
  {
    var k := FileBlock(fs, o);
    Unfold(fs, ino, o);
    SmallBlock(fs, Pointer(fs, ino, k));
    if k >= 12 { IndirectIs(fs, ino, k); }
  }

  lemma PanicsAt(fs: Fs, ino: Inode, k: nat)
    requires Usable(fs, ino) && k < 0x40_0000
    ensures Indirect(fs, ino, k).Panic? <==> k >= 256
  {
    assert k >= 256 && k / 0x1_0000 == 0 ==> k / 0x100 % 256 != 0;
  }

  /** The kernel panics exactly for bytes that need a doubly indirect block. */
  lemma PanicExactly(fs: Fs, ino: Inode, o: nat)
    requires Usable(fs, ino) && Geometry(fs) && o < 0x1_0000_0000
    ensures OffsetToBlock(fs, ino, o).Panic? <==> o >= 268 * fs.blockSize
  {
    var k := FileBlock(fs, o);
    Unfold(fs, ino, o);
    FirstBlocks(o, 268, fs.blockSize);
    FewBlocks(o, fs.blockSize);
    if k >= 12 { PanicsAt(fs, ino, k - 12); }
  }

  // --------------------------------------------------------------------------- contents

  lemma SameByte(fs: Fs, ino: Inode, o: nat, i: nat)
    requires Mapped(fs, ino) && o + i < ino.size && Rem(o, fs.blockSize) + i < fs.blockSize
    ensures OnDisk(fs, ino, FileBlock(fs, o)) && Address(fs, ino, o) + i < |fs.disk|
    ensures Content(fs, ino)[o + i] == fs.disk[Address(fs, ino, o) + i]
  {
    WithinBlock(o, i, fs.blockSize);
    assert FileBlock(fs, o + i) == FileBlock(fs, o);
  }

  /** Bytes of the file that share a block are neighbours on the disk. */
  lemma SameBlock(fs: Fs, ino: Inode, o: nat, n: nat)
    requires Mapped(fs, ino) && n > 0 && o + n <= ino.size && Rem(o, fs.blockSize) + n <= fs.blockSize
    ensures OnDisk(fs, ino, FileBlock(fs, o)) && Address(fs, ino, o) + n <= |fs.disk|
    ensures Range(fs.disk, Address(fs, ino, o), Address(fs, ino, o) + n) == Range(Content(fs, ino), o, o + n)
  {
    SameByte(fs, ino, o, n - 1);
    var a, c := Address(fs, ino, o), Content(fs, ino);
    var l, r := Range(fs.disk, a, a + n), Range(c, o, o + n);
    forall i | 0 <= i < n ensures l[i] == r[i] { SameByte(fs, ino, o, i); }
  }

  /** How much of the file one round reads from `o` on. */
  function PieceSize(bs: nat, o: nat, left: nat): (n: nat)
    requires bs > 0 && left > 0
    ensures 0 < n <= left && Rem(o, bs) + n <= bs
    ensures n < left ==> Rem(o + n, bs) == 0
  {
    NextBlock(o, bs);
    Min(left, bs - Rem(o, bs))
  }

  lemma PieceIs(fs: Fs, block: nat, i: nat, off: nat, n: nat, left: nat)
    requires fs.blockSize >= 1024 && Serves(fs) && |fs.disk| < 0x1_0000_0000 && Present(fs, block)
    requires left > 0 && i == Rem(off, fs.blockSize) && n == Min(left, fs.blockSize - i)
    ensures var a := Times(block, fs.blockSize) + i;
      Piece(fs, block, off, left) == (n, Reply(n, Range(fs.disk, a, a + n)))
  {
    SmallBlock(fs, block);
    assert Served(fs, Times(block, fs.blockSize), i, n);
  }

  lemma RoundUnfold(fs: Fs, ino: Inode, o: nat, off: nat, left: nat, block: nat, n: nat, data: seq<Byte>)
    requires Usable(fs, ino) && left > 0
    requires OffsetToBlock(fs, ino, o) == At(block) && Piece(fs, block, off, left) == (n, Reply(n, data))
    ensures OneRound(fs, ino, o, off, left) == Gets(n, Reply(n, data))
  {
  }

  /** One round copies the next bytes of the file, up to the end of their block. */
  lemma RoundIs(fs: Fs, ino: Inode, o: nat, off: nat, left: nat, n: nat)
    requires Mapped(fs, ino) && Geometry(fs) && o + left <= ino.size && left > 0
    requires Rem(off, fs.blockSize) == Rem(o, fs.blockSize) && n == PieceSize(fs.blockSize, o, left)
    ensures OneRound(fs, ino, o, off, left) == Gets(n, Reply(n, Range(Content(fs, ino), o, o + n)))
  {
    LookupIs(fs, ino, o);
    var block := Pointer(fs, ino, FileBlock(fs, o));
    SameBlock(fs, ino, o, n);
    PieceIs(fs, block, Rem(o, fs.blockSize), off, n, left);
    RoundUnfold(fs, ino, o, off, left, block, n, Range(Content(fs, ino), o, o + n));
  }

  /** The round at `o` gives the next bytes of `c`. */
  ghost predicate GoodRound(next: Rounds, c: seq<Byte>, bs: nat, o: nat, off: nat, left: nat) {
    bs > 0 && left > 0 && o + left <= |c| && Rem(off, bs) == Rem(o, bs) ==>
      var n := PieceSize(bs, o, left); next(o, off, left) == Gets(n, Reply(n, Range(c, o, o + n)))
  }

  ghost predicate Reads(next: Rounds, c: seq<Byte>, bs: nat) {
    && Sane(next) && bs > 0 && |c| < 0x8000_0000
    && forall o: nat, off: nat, left: nat {:trigger GoodRound(next, c, bs, o, off, left)} ::
        GoodRound(next, c, bs, o, off, left)
  }

  lemma RoundsRead(fs: Fs, ino: Inode)
    requires Mapped(fs, ino) && Geometry(fs)
    ensures Reads(RoundsOf(fs, ino), Content(fs, ino), fs.blockSize)
  {
    var next, c, bs := RoundsOf(fs, ino), Content(fs, ino), fs.blockSize;
    forall o: nat, off: nat, left: nat ensures GoodRound(next, c, bs, o, off, left) {
      if left > 0 && o + left <= |c| && Rem(off, bs) == Rem(o, bs) {
        RoundIs(fs, ino, o, off, left, PieceSize(bs, o, left));
      }
    }
  }

  /** The buffer after the bytes `lo` to `hi` of `c` have been copied to `at`. */
  function Copied(c: seq<Byte>, buf: seq<Byte>, at: nat, lo: nat, hi: nat): (r: seq<Byte>)
    requires lo <= hi <= |c| && at + (hi - lo) <= |buf|
    ensures |r| == |buf|
  {
    Patch(buf, at, Range(c, lo, hi))
  }

  lemma CopiedCat(c: seq<Byte>, buf: seq<Byte>, at: nat, lo: nat, mid: nat, hi: nat)
    requires lo <= mid <= hi <= |c| && at + (hi - lo) <= |buf|
    ensures Copied(c, Copied(c, buf, at, lo, mid), at + (mid - lo), mid, hi) == Copied(c, buf, at, lo, hi)
  {
    RangeCat(c, lo, mid, hi);
    PatchCat(buf, at, Range(c, lo, mid), Range(c, mid, hi));
  }

  /** The loop copies the next `left` bytes of `c`. */
  ghost predicate LoopGood(next: Rounds, c: seq<Byte>, buf: seq<Byte>, at: nat, o: nat, off: nat, left: nat)
    requires Sane(next) && o + left <= |c| && at + left <= |buf|
  {
    ReadLoop(next, buf, at, o, off, left) == Done(0, Copied(c, buf, at, o, o + left))
  }

  lemma LoopDone(next: Rounds, c: seq<Byte>, buf: seq<Byte>, at: nat, o: nat, off: nat)
    requires Sane(next) && o <= |c| && at <= |buf|
    ensures LoopGood(next, c, buf, at, o, off, 0)
  {
    assert Range(c, o, o) == [];
  }

  lemma LoopBack(next: Rounds, c: seq<Byte>, buf: seq<Byte>, at: nat, o: nat, off: nat, left: nat, n: nat)
    requires Sane(next) && o + left <= |c| < 0x8000_0000 && at + left <= |buf| && 0 < n <= left
    requires next(o, off, left) == Gets(n, Reply(n, Range(c, o, o + n)))
    requires LoopGood(next, c, Copied(c, buf, at, o, o + n), at + n, o + n, 0, left - n)
    ensures LoopGood(next, c, buf, at, o, off, left)
  {
    CopiedCat(c, buf, at, o, o + n, o + left);
  }

  lemma {:induction false} LoopIs(next: Rounds, c: seq<Byte>, bs: nat, buf: seq<Byte>, at: nat, o: nat, off: nat,
                                  left: nat)
    requires Reads(next, c, bs) && o + left <= |c| && at + left <= |buf| && Rem(off, bs) == Rem(o, bs)
    ensures LoopGood(next, c, buf, at, o, off, left)
    decreases left
  {
    if left == 0 {
      LoopDone(next, c, buf, at, o, off);
    } else {
      var n := PieceSize(bs, o, left);
      var buf' := Copied(c, buf, at, o, o + n);
      if n < left {
        LoopIs(next, c, bs, buf', at + n, o + n, 0, left - n);
      } else {
        LoopDone(next, c, buf', at + n, o + n, 0);
      }
      assert GoodRound(next, c, bs, o, off, left);
      LoopBack(next, c, buf, at, o, off, left, n);
    }
  }

  // ------------------------------------------------------------------------- whole reads

  /** What a read of `count` bytes at `off` should do: copy the bytes of the file from `off`
      to `off + count`, as far as they exist. */
  function Expected(c: seq<Byte>, buf: seq<Byte>, count: nat, off: nat): Outcome
    requires count <= |buf|
  {
    if off < |c| then
      var n := Min(count, |c| - off);
      Done(n, Copied(c, buf, 0, off, off + n))
    else Done(0, buf)
  }

  lemma ReadIsExpected(next: Rounds, c: seq<Byte>, bs: nat, buf: seq<Byte>, count: nat, off: nat)
    requires Reads(next, c, bs) && count <= |buf| && off + count < 0x1_0000_0000
    ensures ReadWith(next, |c|, buf, count, off) == Expected(c, buf, count, off)
  {
    if off <= |c| {
      var n := Min(count, |c| - off);
      LoopIs(next, c, bs, buf, 0, off, off, n);
      assert n == 0 ==> Range(c, off, off + n) == [];
    }
  }

  /** When `off + count` wraps around, nothing is read. */
  lemma ReadWraps(next: Rounds, size: nat, buf: seq<Byte>, count: nat, off: nat)
    requires Sane(next) && count <= |buf| && off < 0x1_0000_0000 && count < 0x1_0000_0000 <= off + count
    requires size < 0x8000_0000
    ensures ReadWith(next, size, buf, count, off) == Done(0, buf)
  {
    if off <= size {
      assert U32(off + count) == off + count - 0x1_0000_0000;
      assert I32(count) == count - 0x1_0000_0000;
    }
  }

  /** A read returns exactly the bytes of the file unless `off + count` wraps around while
      `off` is still inside the file. */
  lemma ReadExactly(fs: Fs, ino: Inode, buf: seq<Byte>, count: nat, off: nat)
    requires Mapped(fs, ino) && Geometry(fs) && count <= |buf| && off < 0x1_0000_0000 && count < 0x1_0000_0000
    ensures ReadFile(fs, ino, buf, count, off) == Expected(Content(fs, ino), buf, count, off) <==>
      off >= ino.size || off + count < 0x1_0000_0000
  {
    var c := Content(fs, ino);
    RoundsRead(fs, ino);
    if off + count < 0x1_0000_0000 {
      ReadIsExpected(RoundsOf(fs, ino), c, fs.blockSize, buf, count, off);
    } else {
      ReadWraps(RoundsOf(fs, ino), ino.size, buf, count, off);
    }
  }

  // ------------------------------------------------------------------ on the memory disk

  /** A file system on the memory disk. */
  function OnRamdisk(disk: seq<Byte>, blockSize: nat, log: nat): Fs
    requires Sized(disk)
  {
    Fs((size: nat, off: nat) => Read(disk, size, off), disk, blockSize, log)
  }

  lemma ReadWhole(disk: seq<Byte>, start: nat, len: nat, i: nat, n: nat)
    requires Sized(disk) && start % 512 == 0 && len % 512 == 0 && start + len <= |disk| && n > 0 && i + n <= len
    ensures Read(disk, n, start + i) == Reply(n, Range(disk, start + i, start + i + n))
  {
    assert (start + len) % 512 == 0;
    assert start + len <= 512 * Blocks(disk);
    ReadInside(disk, n, start + i);
  }

  lemma RamdiskServed(disk: seq<Byte>, blockSize: nat, log: nat, start: nat, i: nat, n: nat)
    requires Sized(disk) && blockSize % 512 == 0 && start % 512 == 0
    ensures Served(OnRamdisk(disk, blockSize, log), start, i, n)
  {
    if start + blockSize <= |disk| && n > 0 && i + n <= blockSize {
      ReadWhole(disk, start, blockSize, i, n);
    }
  }

  lemma FullReply(disk: seq<Byte>, size: nat, off: nat)
    requires Sized(disk) && size >= 512 && Read(disk, size, off).ret == size
    ensures |Read(disk, size, off).data| == size
  {
  }

  /** The memory disk serves every block that lies on it. */
  lemma RamdiskServes(disk: seq<Byte>, blockSize: nat, log: nat, ino: Inode)
    requires Sized(disk) && blockSize % 512 == 0 && blockSize >= 1024
    requires |ino.blocks| == 15 && forall i :: 0 <= i < 15 ==> ino.blocks[i] < 0x1_0000_0000
    ensures Serves(OnRamdisk(disk, blockSize, log)) && Usable(OnRamdisk(disk, blockSize, log), ino)
  {
    var fs := OnRamdisk(disk, blockSize, log);
    forall k: nat, i: nat, n: nat ensures Served(fs, Times(k, blockSize), i, n) {
      TimesMod(k, blockSize);
      RamdiskServed(disk, blockSize, log, Times(k, blockSize), i, n);
    }
    forall size: nat, off: nat | size >= 512 && fs.dev(size, off).ret == size ensures |fs.dev(size, off).data| == size {
      FullReply(disk, size, off);
    }
  }

  /** Every read of a file whose blocks lie on the memory disk returns exactly the bytes that
      the block pointers define, whatever the size of the disk. */
  lemma RamdiskFile(disk: seq<Byte>, log: nat, ino: Inode, buf: seq<Byte>, count: nat, off: nat)
    requires Sized(disk) && log <= 18 && ino.size < 0x8000_0000
    requires |ino.blocks| == 15 && forall i :: 0 <= i < 15 ==> ino.blocks[i] < 0x1_0000_0000
    requires forall o: nat {:trigger FileBlock(OnRamdisk(disk, Pow2(10 + log), log), o)} :: o < ino.size ==>
      OnDisk(OnRamdisk(disk, Pow2(10 + log), log), ino, FileBlock(OnRamdisk(disk, Pow2(10 + log), log), o))
    requires count <= |buf| && off + count < 0x1_0000_0000
    ensures Mapped(OnRamdisk(disk, Pow2(10 + log), log), ino)
    ensures var fs := OnRamdisk(disk, Pow2(10 + log), log);
      ReadFile(fs, ino, buf, count, off) == Expected(Content(fs, ino), buf, count, off)
  {
    Sizes(log);
    RamdiskServes(disk, Pow2(10 + log), log, ino);
    ReadExactly(OnRamdisk(disk, Pow2(10 + log), log), ino, buf, count, off);
  }
}
