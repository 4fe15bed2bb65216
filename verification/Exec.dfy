/** The argument stack of a new program: `stack_init` writes the argument count, the pointer
    tables and the strings into one buffer that is then copied below KVBASE. */
module Exec {
  import opened Common
  import opened Bytes

  /** A C string without its terminator. */
  ghost predicate IsString(s: seq<Byte>) { forall i :: 0 <= i < |s| ==> s[i] != 0 }

  ghost predicate AreStrings(strs: seq<seq<Byte>>) { forall k :: 0 <= k < |strs| ==> IsString(strs[k]) }

  /** Where the buffer ends up in user space: KVBASE - ARG_MAX. */
  const USER: nat := 0xC000_0000 - 1024

  /** The user address of place `o`, computed from the kernel address `base` of the buffer by
      adding the distance between the two tops. */
  function UserAddr(base: nat, o: nat): (a: int)
    ensures a == USER + o
  {
    var delta := 0xC000_0000 - (base + 1024);
    base + o + delta
  }

  // ------------------------------------------------------------------------- words

  function BytesOf(w: nat): (r: seq<Byte>)
    ensures |r| == 4
  {
    [w % 0x100, w / 0x100 % 0x100, w / 0x1_0000 % 0x100, w / 0x100_0000 % 0x100]
  }

  function Put(buf: seq<Byte>, o: nat, w: nat): (r: seq<Byte>)
    requires o + 4 <= |buf|
    ensures |r| == |buf|
  {
    Patch(buf, o, BytesOf(w))
  }

  lemma GetPut(buf: seq<Byte>, o: nat, w: nat)
    requires o + 4 <= |buf| && w < 0x1_0000_0000
    ensures Get(Put(buf, o, w), o) == w
  {
    var d := BytesOf(w);
    PatchAt(buf, o, d, 0);
    PatchAt(buf, o, d, 1);
    PatchAt(buf, o, d, 2);
    PatchAt(buf, o, d, 3);
    Digits(w);
  }

  lemma Digits(w: nat)
    requires w < 0x1_0000_0000
    ensures w == w % 0x100 + 0x100 * (w / 0x100 % 0x100)
              + 0x1_0000 * (w / 0x1_0000 % 0x100) + 0x100_0000 * (w / 0x100_0000 % 0x100)
  {
    assert w / 0x1_0000 == w / 0x100 / 0x100 && w / 0x100_0000 == w / 0x1_0000 / 0x100;
  }

  lemma GetAgrees(a: seq<Byte>, b: seq<Byte>, o: nat)
    requires o + 4 <= |a| && Agree(a, b, o, o + 4)
    ensures Get(a, o) == Get(b, o)
  {
    assert Same(a, b, o) && Same(a, b, o + 1) && Same(a, b, o + 2) && Same(a, b, o + 3);
  }

  // ------------------------------------------------------------------------ operations

  /** The loop of `push_all`, with `n` strings to go: each string is copied below `sp` and its
      user address entered in the table. */
  function PushLoop(base: nat, buf: seq<Byte>, table: nat, sp: nat, strs: seq<seq<Byte>>, n: nat): (r: (seq<Byte>, nat))
    requires n <= |strs| && table + 4 * |strs| <= |buf| && Total(strs, 0) - Total(strs, n) <= sp <= |buf|
    ensures |r.0| == |buf| && r.1 == sp - (Total(strs, 0) - Total(strs, n))
    decreases n
  {
    if n == 0 then (buf, sp)
    else
      FlattenStep(strs, n - 1);
      FlattenMono(strs, 0, n - 1);
      var sp' := sp - (|strs[n - 1]| + 1);
      PushLoop(base, Push(base, buf, sp', strs[n - 1], table + 4 * (n - 1)), table, sp', strs, n - 1)
  }

  /** `push` of a string to `sp`, and its user address stored at place `at`. */
  function Push(base: nat, buf: seq<Byte>, sp: nat, str: seq<Byte>, at: nat): (r: seq<Byte>)
    requires sp + |str| + 1 <= |buf| && at + 4 <= |buf|
    ensures |r| == |buf|
  {
    Put(Patch(buf, sp, str + [0]), at, UserAddr(base, sp))
  }

  /** The space that the strings from `n` on need. */
  function Total(strs: seq<seq<Byte>>, n: nat): nat
    requires n <= |strs|
    decreases |strs| - n
  {
    if n == |strs| then 0 else |strs[n]| + 1 + Total(strs, n + 1)
  }

  /** The strings from `n` on, one after the other, each with its terminator. */
  function Flatten(strs: seq<seq<Byte>>, n: nat): (r: seq<Byte>)
    requires n <= |strs|
    ensures |r| == Total(strs, n)
    decreases |strs| - n
  {
    if n == |strs| then [] else strs[n] + [0] + Flatten(strs, n + 1)
  }

  lemma FlattenStep(strs: seq<seq<Byte>>, n: nat)
    requires n < |strs|
    ensures Total(strs, n) == |strs[n]| + 1 + Total(strs, n + 1)
  {
  }

  lemma {:induction false} FlattenMono(strs: seq<seq<Byte>>, m: nat, n: nat)
    requires m <= n <= |strs|
    ensures Total(strs, m) >= Total(strs, n)
    decreases n - m
  {
    if m < n { FlattenMono(strs, m + 1, n); }
  }

  /** `push_all`: the table starts at `table` and ends with a null word. */
  function PushAll(base: nat, buf: seq<Byte>, table: nat, sp: nat, strs: seq<seq<Byte>>): (r: (seq<Byte>, nat))
    requires table + 4 * |strs| + 4 <= |buf| && Total(strs, 0) <= sp <= |buf|
    ensures |r.0| == |buf| && r.1 == sp - Total(strs, 0)
  {
    PushLoop(base, Put(buf, table + 4 * |strs|, 0), table, sp, strs, |strs|)
  }

  /** Tables and strings fit into the buffer together. */
  predicate Fits(argv: seq<seq<Byte>>, envp: seq<seq<Byte>>) {
    4 * (5 + |argv| + |envp|) + Total(argv, 0) + Total(envp, 0) <= 1024
  }

  /** The first half of `stack_init`: the count, the arguments, and the table's address. */
  function AfterArgs(base: nat, buf: seq<Byte>, argv: seq<seq<Byte>>): (r: seq<Byte>)
    requires |buf| == 1024 && 4 * (4 + |argv|) + Total(argv, 0) <= 1024
    ensures |r| == 1024
  {
    Put(PushAll(base, Put(buf, 0, |argv|), 12, 1024, argv).0, 4, UserAddr(base, 12))
  }

  /** The environment; a null one gives an empty table. */
  function AfterEnv(base: nat, buf: seq<Byte>, table: nat, sp: nat, envp: Option<seq<seq<Byte>>>): (r: seq<Byte>)
    requires sp <= |buf| && table + 4 * |Strings(envp)| + 4 + Total(Strings(envp), 0) <= sp
    ensures |r| == |buf|
  {
    if envp.Some? then PushAll(base, buf, table, sp, envp.value).0 else Put(buf, table, 0)
  }

  /** `stack_init`: count, the two table addresses, then the tables, with the strings at the
      top. */
  function StackInit(base: nat, buf: seq<Byte>, argv: seq<seq<Byte>>, envp: Option<seq<seq<Byte>>>): (r: seq<Byte>)
    requires |buf| == 1024 && Fits(argv, Strings(envp))
    ensures |r| == 1024
  {
    var table := 16 + 4 * |argv|;
    var b := AfterEnv(base, AfterArgs(base, buf, argv), table, 1024 - Total(argv, 0), envp);
    Put(b, 8, UserAddr(base, table))
  }

  function Strings(envp: Option<seq<seq<Byte>>>): seq<seq<Byte>> {
    if envp.Some? then envp.value else []
  }

  // --------------------------------------------------------------------------- decoding

  /** The string that starts at place `o`, if it ends inside the buffer. */
  function DecodeString(buf: seq<Byte>, o: nat): Option<seq<Byte>>
    decreases |buf| - o
  {
    if o >= |buf| then None
    else if buf[o] == 0 then Some([])
    else
      match DecodeString(buf, o + 1)
      case None => None
      case Some(s) => Some([buf[o]] + s)
  }

  /** The strings of the table at user address `a`, up to its null word. */
  function DecodeTable(buf: seq<Byte>, a: nat): Option<seq<seq<Byte>>>
    decreases |buf| + USER - a
  {
    if a < USER || a - USER + 4 > |buf| then None
    else
      var p := Get(buf, a - USER);
      if p == 0 then Some([])
      else if p < USER then None
      else
        match (DecodeString(buf, p - USER), DecodeTable(buf, a + 4))
        case (Some(s), Some(rest)) => Some([s] + rest)
        case (_, _) => None
  }

  /** What the new program finds through its argc, argv and envp words. */
  function Decode(buf: seq<Byte>): (nat, Option<seq<seq<Byte>>>, Option<seq<seq<Byte>>>)
    requires |buf| == 1024
  {
    (Get(buf, 0), DecodeTable(buf, Get(buf, 4)), DecodeTable(buf, Get(buf, 8)))
  }

  // ----------------------------------------------------------------------------- layout

  predicate ByteAt(buf: seq<Byte>, at: nat, data: seq<Byte>, i: nat) {
    i < |data| && at + i < |buf| && buf[at + i] == data[i]
  }

  /** `buf` holds `data` at place `at`. */
  ghost predicate Holds(buf: seq<Byte>, at: nat, data: seq<Byte>) {
    at + |data| <= |buf| && forall i: nat {:trigger ByteAt(buf, at, data, i)} :: i < |data| ==> ByteAt(buf, at, data, i)
  }

  lemma HoldsCat(buf: seq<Byte>, at: nat, a: seq<Byte>, b: seq<Byte>)
    requires Holds(buf, at, a) && Holds(buf, at + |a|, b)
    ensures Holds(buf, at, a + b)
  {
    forall i: nat | i < |a + b| ensures ByteAt(buf, at, a + b, i) {
      if i < |a| {
        assert ByteAt(buf, at, a, i);
      } else {
        assert ByteAt(buf, at + |a|, b, i - |a|);
      }
    }
  }

  lemma HoldsParts(buf: seq<Byte>, at: nat, a: seq<Byte>, b: seq<Byte>)
    requires Holds(buf, at, a + b)
    ensures Holds(buf, at, a) && Holds(buf, at + |a|, b)
  {
    forall i: nat | i < |a| ensures ByteAt(buf, at, a, i) { assert ByteAt(buf, at, a + b, i); }
    var mid := at + |a|;
    forall i: nat | i < |b| ensures ByteAt(buf, mid, b, i) { assert ByteAt(buf, at, a + b, |a| + i); }
  }

  lemma HoldsAgrees(a: seq<Byte>, b: seq<Byte>, at: nat, data: seq<Byte>)
    requires Holds(a, at, data) && Agree(a, b, at, at + |data|)
    ensures Holds(b, at, data)
  {
    forall i: nat | i < |data| ensures ByteAt(b, at, data, i) {
      assert ByteAt(a, at, data, i) && Same(a, b, at + i);
    }
  }

  lemma HoldsPatch(buf: seq<Byte>, at: nat, data: seq<Byte>)
    requires at + |data| <= |buf|
    ensures Holds(Patch(buf, at, data), at, data)
  {
    forall i: nat | i < |data| ensures ByteAt(Patch(buf, at, data), at, data, i) { PatchAt(buf, at, data, i); }
  }

  /** Table entry `k` is the user address of string `k`. */
  ghost predicate Entry(buf: seq<Byte>, table: nat, top: nat, strs: seq<seq<Byte>>, k: nat) {
    && k < |strs| && table + 4 * k + 4 <= |buf|
    && Get(buf, table + 4 * k) == USER + top - Total(strs, k)
  }

  /** The strings from `n` on lie below `top` with their table entries, and the table is
      closed. The tables lie below the strings. */
  ghost predicate Laid(buf: seq<Byte>, table: nat, top: nat, strs: seq<seq<Byte>>, n: nat) {
    && n <= |strs| && top <= |buf| && table + 4 * |strs| + 4 <= top - Total(strs, n)
    && Holds(buf, top - Total(strs, n), Flatten(strs, n))
    && (forall k: nat {:trigger Entry(buf, table, top, strs, k)} :: n <= k < |strs| ==> Entry(buf, table, top, strs, k))
    && Get(buf, table + 4 * |strs|) == 0
  }

  lemma EntryAgrees(a: seq<Byte>, b: seq<Byte>, table: nat, top: nat, strs: seq<seq<Byte>>, k: nat)
    requires Entry(a, table, top, strs, k) && Agree(a, b, table + 4 * k, table + 4 * k + 4)
    ensures Entry(b, table, top, strs, k)
  {
    GetAgrees(a, b, table + 4 * k);
  }

  /** A layout survives changes elsewhere. */
  lemma LaidAgrees(a: seq<Byte>, b: seq<Byte>, table: nat, top: nat, strs: seq<seq<Byte>>, n: nat)
    requires Laid(a, table, top, strs, n)
    requires Agree(a, b, table + 4 * n, table + 4 * |strs| + 4) && Agree(a, b, top - Total(strs, n), top)
    ensures Laid(b, table, top, strs, n)
  {
    HoldsAgrees(a, b, top - Total(strs, n), Flatten(strs, n));
    var lo, hi := table + 4 * n, table + 4 * |strs| + 4;
    forall k: nat | n <= k < |strs| ensures Entry(b, table, top, strs, k) {
      assert Entry(a, table, top, strs, k);
      AgreePart(a, b, lo, hi, table + 4 * k, table + 4 * k + 4);
      EntryAgrees(a, b, table, top, strs, k);
    }
    AgreePart(a, b, lo, hi, hi - 4, hi);
    GetAgrees(a, b, hi - 4);
  }

  /** A string copied to `sp` and a word stored at `at` below it leave the rest alone. */
  lemma OneAgrees(buf: seq<Byte>, sp: nat, str: seq<Byte>, at: nat, w: nat, b1: seq<Byte>, b2: seq<Byte>)
    requires at + 4 <= sp && sp + |str| <= |buf|
    requires b1 == Patch(buf, sp, str) && b2 == Put(b1, at, w)
    ensures Agree(buf, b2, 0, at) && Agree(buf, b2, at + 4, sp) && Agree(buf, b2, sp + |str|, |buf|)
    ensures Holds(b2, sp, str)
  {
    PatchAgrees(buf, sp, str, 0, sp);
    PatchAgrees(buf, sp, str, sp + |str|, |buf|);
    PatchAgrees(b1, at, BytesOf(w), 0, at);
    PatchAgrees(b1, at, BytesOf(w), at + 4, |buf|);
    HoldsPatch(buf, sp, str);
    AgreePart(b1, b2, at + 4, |buf|, sp, sp + |str|);
    HoldsAgrees(b1, b2, sp, str);
    AgreePart(b1, b2, at + 4, |buf|, at + 4, sp);
    AgreePart(b1, b2, at + 4, |buf|, sp + |str|, |buf|);
    AgreePart(buf, b1, 0, sp, 0, at);
    AgreePart(buf, b1, 0, sp, at + 4, sp);
    AgreeTrans(buf, b1, b2, 0, at);
    AgreeTrans(buf, b1, b2, at + 4, sp);
    AgreeTrans(buf, b1, b2, sp + |str|, |buf|);
  }

  /** One string more. */
  lemma LaidOne(base: nat, buf: seq<Byte>, table: nat, top: nat, strs: seq<seq<Byte>>, n: nat, sp: nat, b2: seq<Byte>)
    requires 0 < n && Laid(buf, table, top, strs, n)
    requires sp == top - Total(strs, n - 1) && table + 4 * |strs| + 4 <= sp && |buf| <= 1024
    requires sp + |strs[n - 1]| + 1 <= |buf| && b2 == Push(base, buf, sp, strs[n - 1], table + 4 * (n - 1))
    ensures Laid(b2, table, top, strs, n - 1)
    ensures Rest(buf, b2, table, table + 4 * |strs|, sp, top - Total(strs, n))
  {
    var str, m, at := strs[n - 1] + [0], top - Total(strs, n), table + 4 * (n - 1);
    var b1 := Patch(buf, sp, str);
    FlattenStep(strs, n - 1);
    OneAgrees(buf, sp, str, at, USER + sp, b1, b2);
    AgreePart(buf, b2, 0, at, 0, table);
    AgreePart(buf, b2, at + 4, sp, table + 4 * |strs|, sp);
    AgreePart(buf, b2, at + 4, sp, table + 4 * n, table + 4 * |strs| + 4);
    AgreePart(buf, b2, m, |buf|, m, top);
    LaidAgrees(buf, b2, table, top, strs, n);
    GetPut(b1, at, USER + sp);
    LaidMore(b2, table, top, strs, n, sp);
  }

  lemma LaidMore(buf: seq<Byte>, table: nat, top: nat, strs: seq<seq<Byte>>, n: nat, sp: nat)
    requires 0 < n && Laid(buf, table, top, strs, n)
    requires sp == top - Total(strs, n - 1) && table + 4 * |strs| + 4 <= sp
    requires Holds(buf, sp, strs[n - 1] + [0]) && Get(buf, table + 4 * (n - 1)) == USER + sp
    ensures Laid(buf, table, top, strs, n - 1)
  {
    HoldsMore(buf, top, strs, n, sp);
    assert Entry(buf, table, top, strs, n - 1);
  }

  lemma HoldsMore(buf: seq<Byte>, top: nat, strs: seq<seq<Byte>>, n: nat, sp: nat)
    requires 0 < n <= |strs| && sp + Total(strs, n - 1) == top && Holds(buf, sp, strs[n - 1] + [0])
    requires Total(strs, n) <= top && Holds(buf, top - Total(strs, n), Flatten(strs, n))
    ensures Holds(buf, sp, Flatten(strs, n - 1))
  {
    var str, rest := strs[n - 1] + [0], Flatten(strs, n);
    assert Flatten(strs, n - 1) == str + rest;
    HoldsCat(buf, sp, str, rest);
  }

  lemma PushLoopStep(base: nat, buf: seq<Byte>, table: nat, sp0: nat, strs: seq<seq<Byte>>, n: nat, sp: nat)
    requires 0 < n <= |strs| && table + 4 * |strs| <= |buf|
    requires Total(strs, 0) - Total(strs, n) <= sp0 <= |buf| && sp == sp0 - (|strs[n - 1]| + 1)
    requires Total(strs, 0) - Total(strs, n - 1) <= sp
    ensures PushLoop(base, buf, table, sp0, strs, n)
      == PushLoop(base, Push(base, buf, sp, strs[n - 1], table + 4 * (n - 1)), table, sp, strs, n - 1)
  {
  }

  /** What `push_all` leaves of the buffer `a`. */
  ghost predicate Rest(a: seq<Byte>, b: seq<Byte>, table: nat, tableEnd: nat, sp: nat, top: nat) {
    Agree(a, b, 0, table) && Agree(a, b, tableEnd, sp) && Agree(a, b, top, |a|)
  }

  lemma RestTrans(a: seq<Byte>, b: seq<Byte>, c: seq<Byte>, table: nat, tableEnd: nat, sp: nat, mid: nat, top: nat)
    requires Rest(a, b, table, tableEnd, mid, top) && Rest(b, c, table, tableEnd, sp, mid) && sp <= mid <= top
    ensures Rest(a, c, table, tableEnd, sp, top)
  {
    AgreeTrans(a, b, c, 0, table);
    AgreePart(a, b, tableEnd, mid, tableEnd, sp);
    AgreeTrans(a, b, c, tableEnd, sp);
    AgreePart(b, c, mid, |b|, top, |a|);
    AgreeTrans(a, b, c, top, |a|);
  }

  /** `r` is `buf` with all strings laid, and nothing else changed. */
  ghost predicate Done(buf: seq<Byte>, r: seq<Byte>, table: nat, top: nat, strs: seq<seq<Byte>>, sp: nat) {
    && Total(strs, 0) <= top && Laid(r, table, top, strs, 0)
    && Rest(buf, r, table, table + 4 * |strs|, top - Total(strs, 0), sp)
  }

  /** One round of the loop. */
  lemma PushNext(base: nat, buf: seq<Byte>, table: nat, top: nat, strs: seq<seq<Byte>>, n: nat)
    returns (b: seq<Byte>, sp: nat)
    requires 0 < n && Laid(buf, table, top, strs, n) && |buf| <= 1024 && table + 4 * |strs| + 4 + Total(strs, 0) <= top
    ensures Total(strs, n) <= Total(strs, n - 1) <= Total(strs, 0) && sp == top - Total(strs, n - 1) && |b| == |buf|
    ensures PushLoop(base, buf, table, top - Total(strs, n), strs, n) == PushLoop(base, b, table, sp, strs, n - 1)
    ensures Laid(b, table, top, strs, n - 1) && Rest(buf, b, table, table + 4 * |strs|, sp, top - Total(strs, n))
  {
    FlattenStep(strs, n - 1);
    FlattenMono(strs, 0, n - 1);
    sp := top - Total(strs, n - 1);
    b := Push(base, buf, sp, strs[n - 1], table + 4 * (n - 1));
    PushLoopStep(base, buf, table, top - Total(strs, n), strs, n, sp);
    LaidOne(base, buf, table, top, strs, n, sp, b);
  }

  lemma DoneEmpty(buf: seq<Byte>, table: nat, top: nat, strs: seq<seq<Byte>>, sp: nat)
    requires Laid(buf, table, top, strs, 0) && sp == top - Total(strs, 0)
    ensures Done(buf, buf, table, top, strs, sp)
  {
  }

  lemma DoneTrans(buf: seq<Byte>, b: seq<Byte>, r: seq<Byte>, table: nat, top: nat, strs: seq<seq<Byte>>, mid: nat,
                  sp: nat)
    requires Rest(buf, b, table, table + 4 * |strs|, mid, sp) && Done(b, r, table, top, strs, mid)
    requires top - Total(strs, 0) <= mid <= sp
    ensures Done(buf, r, table, top, strs, sp)
  {
    RestTrans(buf, b, r, table, table + 4 * |strs|, top - Total(strs, 0), mid, sp);
  }

  /** The loop lays all strings and changes nothing but its table and the strings' place. */
  lemma {:induction false} PushLoopLays(base: nat, buf: seq<Byte>, table: nat, top: nat, strs: seq<seq<Byte>>,
                                        n: nat, sp: nat)
    returns (r: seq<Byte>)
    requires Laid(buf, table, top, strs, n) && |buf| <= 1024 && table + 4 * |strs| + 4 + Total(strs, 0) <= top
    requires sp == top - Total(strs, n)
    ensures Total(strs, 0) >= Total(strs, n)
    ensures r == PushLoop(base, buf, table, sp, strs, n).0 && Done(buf, r, table, top, strs, sp)
    decreases n
  {
    if n == 0 {
      r := buf;
      DoneEmpty(buf, table, top, strs, sp);
    } else {
      var b, mid := PushNext(base, buf, table, top, strs, n);
      r := PushLoopLays(base, b, table, top, strs, n - 1, mid);
      DoneTrans(buf, b, r, table, top, strs, mid, sp);
    }
  }

  lemma TableClosed(buf: seq<Byte>, b: seq<Byte>, table: nat, top: nat, strs: seq<seq<Byte>>)
    requires top <= |buf| <= 1024 && table + 4 * |strs| + 4 <= top && b == Put(buf, table + 4 * |strs|, 0)
    ensures Laid(b, table, top, strs, |strs|)
    ensures Agree(buf, b, 0, table) && Agree(buf, b, top, |buf|)
  {
    var at := table + 4 * |strs|;
    GetPut(buf, at, 0);
    PatchAgrees(buf, at, BytesOf(0), 0, table);
    PatchAgrees(buf, at, BytesOf(0), top, |buf|);
  }

  /** `push_all` lays all strings and closes the table. */
  lemma PushAllLays(base: nat, buf: seq<Byte>, table: nat, top: nat, strs: seq<seq<Byte>>) returns (r: seq<Byte>)
    requires top <= |buf| <= 1024 && table + 4 * |strs| + 4 + Total(strs, 0) <= top
    ensures r == PushAll(base, buf, table, top, strs).0
    ensures Laid(r, table, top, strs, 0) && Agree(buf, r, 0, table) && Agree(buf, r, top, |buf|)
  {
    var b := Put(buf, table + 4 * |strs|, 0);
    TableClosed(buf, b, table, top, strs);
    assert Total(strs, |strs|) == 0;
    r := PushLoopLays(base, b, table, top, strs, |strs|, top);
    AgreeTrans(buf, b, r, 0, table);
    AgreeTrans(buf, b, r, top, |buf|);
  }

  // ------------------------------------------------------------------------- round trip

  /** A string is read back from where it lies. */
  lemma {:induction false} StringBack(buf: seq<Byte>, o: nat, s: seq<Byte>)
    requires IsString(s) && Holds(buf, o, s + [0])
    ensures DecodeString(buf, o) == Some(s)
    decreases |s|
  {
    assert ByteAt(buf, o, s + [0], 0);
    if s != [] {
      var t := s[1..];
      assert s == [s[0]] + t;
      assert s + [0] == [s[0]] + (t + [0]);
      HoldsParts(buf, o, [s[0]], t + [0]);
      StringBack(buf, o + 1, t);
    }
  }

  /** A table is read back from entry `k` on. */
  lemma {:induction false} TableBack(buf: seq<Byte>, table: nat, top: nat, strs: seq<seq<Byte>>, k: nat)
    requires Laid(buf, table, top, strs, k) && AreStrings(strs) && |buf| <= 1024
    ensures DecodeTable(buf, USER + table + 4 * k) == Some(strs[k..])
    decreases |strs| - k
  {
    if k < |strs| {
      var sp := top - Total(strs, k);
      assert Entry(buf, table, top, strs, k);
      FlattenStep(strs, k);
      HoldsParts(buf, sp, strs[k] + [0], Flatten(strs, k + 1));
      StringBack(buf, sp, strs[k]);
      LaidTail(buf, table, top, strs, k);
      TableBack(buf, table, top, strs, k + 1);
      assert [strs[k]] + strs[k + 1..] == strs[k..];
    }
  }

  lemma LaidTail(buf: seq<Byte>, table: nat, top: nat, strs: seq<seq<Byte>>, k: nat)
    requires Laid(buf, table, top, strs, k) && k < |strs|
    ensures Laid(buf, table, top, strs, k + 1)
  {
    FlattenStep(strs, k);
    HoldsParts(buf, top - Total(strs, k), strs[k] + [0], Flatten(strs, k + 1));
  }

  lemma PutAgrees(buf: seq<Byte>, o: nat, w: nat)
    requires o + 4 <= |buf|
    ensures Agree(buf, Put(buf, o, w), 0, o) && Agree(buf, Put(buf, o, w), o + 4, |buf|)
  {
    PatchAgrees(buf, o, BytesOf(w), 0, o);
    PatchAgrees(buf, o, BytesOf(w), o + 4, |buf|);
  }

  /** The argument half of `stack_init`. */
  lemma ArgsLaid(base: nat, buf: seq<Byte>, argv: seq<seq<Byte>>, b2: seq<Byte>)
    requires |buf| == 1024 && 4 * (4 + |argv|) + Total(argv, 0) <= 1024 && b2 == AfterArgs(base, buf, argv)
    ensures Laid(b2, 12, 1024, argv, 0) && Get(b2, 0) == |argv| && Get(b2, 4) == USER + 12
  {
    var b0 := Put(buf, 0, |argv|);
    GetPut(buf, 0, |argv|);
    var b1 := PushAllLays(base, b0, 12, 1024, argv);
    AgreePart(b0, b1, 0, 12, 0, 4);
    GetAgrees(b0, b1, 0);
    GetPut(b1, 4, USER + 12);
    PutAgrees(b1, 4, USER + 12);
    GetAgrees(b1, b2, 0);
    LaidAgrees(b1, b2, 12, 1024, argv, 0);
  }

  /** The environment half. */
  lemma EnvLaid(base: nat, b2: seq<Byte>, table: nat, sp: nat, envp: Option<seq<seq<Byte>>>, b3: seq<Byte>)
    requires sp <= |b2| <= 1024 && table + 4 * |Strings(envp)| + 4 + Total(Strings(envp), 0) <= sp
    requires b3 == AfterEnv(base, b2, table, sp, envp)
    ensures Laid(b3, table, sp, Strings(envp), 0) && Agree(b2, b3, 0, table) && Agree(b2, b3, sp, |b2|)
  {
    if envp.Some? {
      var r := PushAllLays(base, b2, table, sp, envp.value);
    } else {
      TableClosed(b2, b3, table, sp, []);
    }
  }

  lemma FinalLaid(b2: seq<Byte>, b3: seq<Byte>, b4: seq<Byte>, argv: seq<seq<Byte>>, env: seq<seq<Byte>>, table: nat,
                  sp: nat)
    requires |b2| == 1024 && Laid(b2, 12, 1024, argv, 0) && Laid(b3, table, sp, env, 0)
    requires table == 16 + 4 * |argv| && sp == 1024 - Total(argv, 0)
    requires Agree(b2, b3, 0, table) && Agree(b2, b3, sp, 1024) && b4 == Put(b3, 8, USER + table)
    ensures Laid(b4, 12, 1024, argv, 0) && Laid(b4, table, sp, env, 0)
    ensures Get(b4, 0) == Get(b2, 0) && Get(b4, 4) == Get(b2, 4) && Get(b4, 8) == USER + table
  {
    PutAgrees(b3, 8, USER + table);
    GetPut(b3, 8, USER + table);
    GetAgrees(b2, b3, 0);
    GetAgrees(b2, b3, 4);
    GetAgrees(b3, b4, 0);
    GetAgrees(b3, b4, 4);
    LaidAgrees(b2, b3, 12, 1024, argv, 0);
    LaidAgrees(b3, b4, 12, 1024, argv, 0);
    LaidAgrees(b3, b4, table, sp, env, 0);
  }

  lemma Decoded(buf: seq<Byte>, argv: seq<seq<Byte>>, env: seq<seq<Byte>>, table: nat, sp: nat)
    requires |buf| == 1024 && AreStrings(argv) && AreStrings(env)
    requires Laid(buf, 12, 1024, argv, 0) && Laid(buf, table, sp, env, 0)
    requires Get(buf, 0) == |argv| && Get(buf, 4) == USER + 12 && Get(buf, 8) == USER + table
    ensures Decode(buf) == (|argv|, Some(argv), Some(env))
  {
    TableBack(buf, 12, 1024, argv, 0);
    TableBack(buf, table, sp, env, 0);
    assert argv[0..] == argv && env[0..] == env;
  }

  /** Whatever fits comes back: the new program finds the count, the arguments and the
      environment it was started with. */
  lemma RoundTrip(base: nat, buf: seq<Byte>, argv: seq<seq<Byte>>, envp: Option<seq<seq<Byte>>>)
    requires |buf| == 1024 && Fits(argv, Strings(envp)) && AreStrings(argv) && AreStrings(Strings(envp))
    ensures Decode(StackInit(base, buf, argv, envp)) == (|argv|, Some(argv), Some(Strings(envp)))
  {
    var b2, b3, table, sp := HalvesLaid(base, buf, argv, envp);
    HalvesDecode(b2, b3, argv, Strings(envp), table, sp);
  }

  /** The buffer after each half of `stack_init`. */
  lemma HalvesLaid(base: nat, buf: seq<Byte>, argv: seq<seq<Byte>>, envp: Option<seq<seq<Byte>>>)
      returns (b2: seq<Byte>, b3: seq<Byte>, table: nat, sp: nat)
    requires |buf| == 1024 && Fits(argv, Strings(envp))
    ensures |b2| == |b3| == 1024 && table == 16 + 4 * |argv| && sp == 1024 - Total(argv, 0)
    ensures Laid(b2, 12, 1024, argv, 0) && Laid(b3, table, sp, Strings(envp), 0)
    ensures Agree(b2, b3, 0, table) && Agree(b2, b3, sp, 1024) && Get(b2, 0) == |argv| && Get(b2, 4) == USER + 12
    ensures StackInit(base, buf, argv, envp) == Put(b3, 8, USER + table)
  {
    table, sp, b2 := 16 + 4 * |argv|, 1024 - Total(argv, 0), AfterArgs(base, buf, argv);
    ArgsLaid(base, buf, argv, b2);
    b3 := AfterEnv(base, b2, table, sp, envp);
    EnvLaid(base, b2, table, sp, envp, b3);
  }

  /** Both halves are there, and the last word is stored. */
  lemma HalvesDecode(b2: seq<Byte>, b3: seq<Byte>, argv: seq<seq<Byte>>, env: seq<seq<Byte>>, table: nat, sp: nat)
    requires |b2| == |b3| == 1024 && AreStrings(argv) && AreStrings(env)
    requires Laid(b2, 12, 1024, argv, 0) && Laid(b3, table, sp, env, 0)
    requires table == 16 + 4 * |argv| && sp == 1024 - Total(argv, 0)
    requires Agree(b2, b3, 0, table) && Agree(b2, b3, sp, 1024) && Get(b2, 0) == |argv| && Get(b2, 4) == USER + 12
    ensures Decode(Put(b3, 8, USER + table)) == (|argv|, Some(argv), Some(env))
  {
    var b4 := Put(b3, 8, USER + table);
    FinalLaid(b2, b3, b4, argv, env, table, sp);
    Decoded(b4, argv, env, table, sp);
  }
}
