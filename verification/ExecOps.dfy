/** `stack_init` as it runs: the buffer is filled in place, the strings from the top down. */
module ExecOps {
  import opened Common
  import opened Bytes
  import opened Exec

  class ArgStack {
    /** The kernel buffer of ARG_MAX bytes, and its address. */
    const buf: array<Byte>
    const base: nat

    constructor (base: nat)
      ensures buf.Length == 1024 && fresh(buf) && this.base == base
    {
      this.base := base;
      buf := new Byte[1024](_ => 0);
    }

    method Store(o: nat, w: nat)
      requires o + 4 <= buf.Length
      modifies buf
      ensures buf[..] == Put(old(buf[..]), o, w)
    {
      Memcpy(buf, o, BytesOf(w), 0, 4);
      assert Range(BytesOf(w), 0, 4) == BytesOf(w);
    }

    /** `push`: the string and its terminator go below `sp`. */
    method PushString(sp: nat, str: seq<Byte>) returns (at: nat)
      requires |str| + 1 <= sp <= buf.Length
      modifies buf
      ensures at == sp - (|str| + 1)
      ensures buf[..] == Patch(old(buf[..]), at, str + [0])
    {
      at := sp - (|str| + 1);
      Memcpy(buf, at, str + [0], 0, |str| + 1);
      assert Range(str + [0], 0, |str| + 1) == str + [0];
    }

    /** A string, and its user address at place `at`. */
    method PushEntry(top: nat, str: seq<Byte>, at: nat) returns (sp: nat)
      requires |str| + 1 <= top <= buf.Length && at + 4 <= buf.Length
      modifies buf
      ensures sp == top - (|str| + 1) && buf[..] == Push(base, old(buf[..]), sp, str, at)
    {
      sp := PushString(top, str);
      Store(at, UserAddr(base, sp));
    }

    /** `push_all` */
    method PushStrings(table: nat, top: nat, strs: seq<seq<Byte>>) returns (sp: nat)
      requires table + 4 * |strs| + 4 <= buf.Length && Total(strs, 0) <= top <= buf.Length
      modifies buf
      ensures buf[..] == PushAll(base, old(buf[..]), table, top, strs).0
      ensures sp == top - Total(strs, 0)
    {
      ghost var goal := PushAll(base, buf[..], table, top, strs);
      var n: nat := |strs|;
      Store(table + 4 * n, 0);
      sp := top;
      while n > 0
        invariant n <= |strs| && Total(strs, n) <= Total(strs, 0) && sp == top - Total(strs, n)
        invariant goal == PushLoop(base, buf[..], table, sp, strs, n)
      {
        n := n - 1;
        FlattenStep(strs, n);
        FlattenMono(strs, 0, n);
        PushLoopStep(base, buf[..], table, sp, strs, n + 1, sp - (|strs[n]| + 1));
        sp := PushEntry(sp, strs[n], table + 4 * n);
      }
    }

    /** The arguments. */
    method InitArgs(argv: seq<seq<Byte>>) returns (sp: nat)
      requires buf.Length == 1024 && 4 * (4 + |argv|) + Total(argv, 0) <= 1024
      modifies buf
      ensures sp == 1024 - Total(argv, 0) && buf[..] == AfterArgs(base, old(buf[..]), argv)
      ensures Get(buf[..], 0) == |argv|
    {
      ghost var was := buf[..];
      Store(0, |argv|);
      sp := PushStrings(12, 1024, argv);
      Store(4, UserAddr(base, 12));
      ArgsLaid(base, was, argv, buf[..]);
    }

    /** `stack_init`: the count is read back from the buffer to place the environment. */
    method Init(argv: seq<seq<Byte>>, envp: Option<seq<seq<Byte>>>)
      requires buf.Length == 1024 && Fits(argv, Strings(envp))
      modifies buf
      ensures buf[..] == StackInit(base, old(buf[..]), argv, envp)
    {
      var sp := InitArgs(argv);
      var argc := Get(buf[..], 0);
      if envp.Some? {
        sp := PushStrings(16 + 4 * argc, sp, envp.value);
      } else {
        Store(16 + 4 * argc, 0);
      }
      Store(8, UserAddr(base, 16 + 4 * argc));
    }
  }
}
