/** Open files shared between descriptors of any number of tasks, with a reference
    count per file. */
module Fds {
  import opened Common

  type Tid = nat
  type Fid = nat

  /** The two bits that mean close-on-exec: the one that `open` stores and exec tests, and the
      one that `dup` and `dup2` clear. */
  datatype Flag = O_CLOEXEC | FD_CLOEXEC

  /** A descriptor: the open file it points at, and its flags. */
  datatype Fd = Fd(fil: Option<Fid>, flags: set<Flag>)

  const CLOSED: Fd := Fd(None, {})

  /** Exec closes the descriptor. */
  predicate Marked(d: Fd) {
    O_CLOEXEC in d.flags
  }

  /** The copy that `dup` and `dup2` make. */
  function Copied(d: Fd): Fd {
    d.(flags := d.flags - {FD_CLOEXEC})
  }

  /** Descriptor tables of 32 slots, and the reference counts of the open files. */
  datatype Sys = Sys(tasks: map<Tid, seq<Fd>>, refs: map<Fid, nat>)

  const EBADF: int := 9
  const EMFILE: int := 24
  const ENOMEM: int := 12

  // ------------------------------------------------------------------ primitive changes

  function SetSlot(tasks: map<Tid, seq<Fd>>, t: Tid, i: nat, d: Fd): map<Tid, seq<Fd>>
    requires t in tasks && i < |tasks[t]|
  {
    tasks[t := tasks[t][i := d]]
  }

  predicate IsOpen(s: Sys, t: Tid, i: int) {
    t in s.tasks && 0 <= i < |s.tasks[t]| && s.tasks[t][i].fil.Some?
  }

  /** Clears an open slot and drops its reference; the file goes with its last one. */
  function Release(s: Sys, t: Tid, i: nat): Sys
    requires IsOpen(s, t, i)
  {
    var f := s.tasks[t][i].fil.value;
    var tasks := SetSlot(s.tasks, t, i, CLOSED);
    if f !in s.refs then Sys(tasks, s.refs)
    else if s.refs[f] <= 1 then Sys(tasks, s.refs - {f})
    else Sys(tasks, s.refs[f := s.refs[f] - 1])
  }

  /** Points a slot at an open file and counts the reference. */
  function Attach(s: Sys, t: Tid, i: nat, d: Fd): Sys
    requires t in s.tasks && i < |s.tasks[t]| && d.fil.Some?
  {
    var f := d.fil.value;
    Sys(SetSlot(s.tasks, t, i, d), s.refs[f := if f in s.refs then s.refs[f] + 1 else 1])
  }

  /** The first free slot at or after `i`. */
  function FirstFree(fds: seq<Fd>, i: nat): (r: nat)
    ensures i <= r
    ensures r < |fds| ==> fds[r].fil.None?
    ensures forall j :: i <= j < r && j < |fds| ==> fds[j].fil.Some?
    decreases |fds| - i
  {
    if i >= |fds| || fds[i].fil.None? then i else FirstFree(fds, i + 1)
  }

  // ------------------------------------------------------------------------ system calls

  function Close(s: Sys, t: Tid, fd: int): (int, Sys)
    requires t in s.tasks && |s.tasks[t]| == 32
  {
    if !(0 <= fd < 32) || s.tasks[t][fd].fil.None? then (-EBADF, s)
    else (0, Release(s, t, fd))
  }

  /** The descriptor part of `open`: `fil` is the new file, if there was memory for it. */
  function Open(s: Sys, t: Tid, cloexec: bool, fil: Option<Fid>): (int, Sys)
    requires t in s.tasks && |s.tasks[t]| == 32
  {
    var n := FirstFree(s.tasks[t], 0);
    if n >= 32 then (-EMFILE, s)
    else if fil.None? then (-ENOMEM, s)
    else (n, Attach(s, t, n, Fd(fil, if cloexec then {O_CLOEXEC} else {})))
  }

  function Dup(s: Sys, t: Tid, oldfd: int): (int, Sys)
    requires t in s.tasks && |s.tasks[t]| == 32
  {
    if !(0 <= oldfd < 32) || s.tasks[t][oldfd].fil.None? then (-EBADF, s)
    else
      var n := FirstFree(s.tasks[t], 0);
      if n >= 32 then (-EMFILE, s)
      else (n, Attach(s, t, n, Copied(s.tasks[t][oldfd])))
  }

  function Dup2(s: Sys, t: Tid, oldfd: int, newfd: int): (int, Sys)
    requires t in s.tasks && |s.tasks[t]| == 32
  {
    if !(0 <= oldfd < 32) || !(0 <= newfd < 32) || s.tasks[t][oldfd].fil.None? then (-EBADF, s)
    else if oldfd == newfd then (oldfd, s)
    else
      var s1 := if s.tasks[t][newfd].fil.Some? then Close(s, t, newfd).1 else s;
      (newfd, Attach(s1, t, newfd, Copied(s1.tasks[t][oldfd])))
  }

  /** A slot with a file stored in it, and its flags left as they are. */
  function Filled(s: Sys, t: Tid, i: nat, f: Fid): Fd
    requires t in s.tasks && i < |s.tasks[t]|
  {
    s.tasks[t][i].(fil := Some(f))
  }

  /** `pipe`: two free slots, two new files if there was memory for them. */
  function Pipe(s: Sys, t: Tid, files: Option<(Fid, Fid)>): (int, Sys)
    requires t in s.tasks && |s.tasks[t]| == 32
  {
    var fd0 := FirstFree(s.tasks[t], 0);
    var fd1 := FirstFree(s.tasks[t], fd0 + 1);
    if fd1 >= 32 then (-EMFILE, s)
    else if files.None? then (-1, s)
    else (0, Attach(Attach(s, t, fd0, Filled(s, t, fd0, files.value.0)), t, fd1, Filled(s, t, fd1, files.value.1)))
  }

  /** The child's table from slot `i` on: every open file of the parent gains a reference. */
  function CopyFrom(s: Sys, parent: Tid, child: Tid, i: nat): Sys
    requires parent in s.tasks && child in s.tasks && |s.tasks[parent]| == 32 && |s.tasks[child]| == 32
    requires parent != child
    decreases 32 - i
  {
    if i >= 32 then s
    else
      var d := s.tasks[parent][i];
      CopyFrom(if d.fil.Some? then Attach(s, child, i, d) else s, parent, child, i + 1)
  }

  function Fork(s: Sys, parent: Tid, child: Tid): Sys
    requires parent in s.tasks && |s.tasks[parent]| == 32 && child !in s.tasks
  {
    CopyFrom(s.(tasks := s.tasks[child := seq(32, _ => CLOSED)]), parent, child, 0)
  }

  /** Closes the open slots from `i` on, all or those marked close-on-exec. */
  function CloseFrom(s: Sys, t: Tid, i: nat, execOnly: bool): Sys
    requires t in s.tasks && |s.tasks[t]| == 32
    decreases 32 - i
  {
    if i >= 32 then s
    else
      var d := s.tasks[t][i];
      CloseFrom(if d.fil.Some? && (execOnly ==> Marked(d)) then Close(s, t, i).1 else s, t, i + 1, execOnly)
  }

  // -------------------------------------------------------------------------- invariant

  /** The slots that point at `f`. */
  ghost function Slots(tasks: map<Tid, seq<Fd>>, f: Fid): set<(Tid, nat)> {
    set t, i: nat | t in tasks && i < |tasks[t]| && tasks[t][i].fil == Some(f) :: (t, i)
  }

  /** Each open file is counted once for every slot that points at it, there is such a
      slot, and every slot points at an open file or at none. */
  ghost predicate Inv(s: Sys) {
    && (forall t :: t in s.tasks ==> |s.tasks[t]| == 32)
    && (forall t, i: nat {:trigger PointsOk(s, t, i)} :: PointsOk(s, t, i))
    && (forall f {:trigger CountOk(s, f)} :: CountOk(s, f))
  }

  ghost predicate PointsOk(s: Sys, t: Tid, i: nat) {
    IsOpen(s, t, i) ==> s.tasks[t][i].fil.value in s.refs
  }

  ghost predicate CountOk(s: Sys, f: Fid) {
    f in s.refs ==> s.refs[f] > 0 && s.refs[f] == |Slots(s.tasks, f)|
  }

  /** Changing one slot changes the slot sets by that slot. */
  lemma SlotDelta(tasks: map<Tid, seq<Fd>>, t: Tid, i: nat, d: Fd, f: Fid)
    requires t in tasks && i < |tasks[t]|
    ensures Slots(SetSlot(tasks, t, i, d), f) ==
            if d.fil == Some(f) then Slots(tasks, f) + {(t, i)} else Slots(tasks, f) - {(t, i)}
    ensures (t, i) in Slots(tasks, f) <==> tasks[t][i].fil == Some(f)
  {
    var r := SetSlot(tasks, t, i, d);
    var a, b := Slots(r, f), if d.fil == Some(f) then Slots(tasks, f) + {(t, i)} else Slots(tasks, f) - {(t, i)};
    forall u: Tid, j: nat ensures (u, j) in a <==> (u, j) in b {
    }
  }

  lemma ReleaseCounts(s: Sys, t: Tid, i: nat, g: Fid)
    requires Inv(s) && IsOpen(s, t, i)
    ensures CountOk(Release(s, t, i), g)
  {
    assert PointsOk(s, t, i) && CountOk(s, g);
    SlotDelta(s.tasks, t, i, CLOSED, g);
  }

  lemma ReleasePoints(s: Sys, t: Tid, i: nat, u: Tid, j: nat)
    requires Inv(s) && IsOpen(s, t, i)
    ensures PointsOk(Release(s, t, i), u, j)
  {
    var s', f := Release(s, t, i), s.tasks[t][i].fil.value;
    assert PointsOk(s, t, i) && PointsOk(s, u, j) && CountOk(s, f);
    if IsOpen(s', u, j) && s'.tasks[u][j].fil.value == f {
      SlotDelta(s.tasks, t, i, CLOSED, f);
      assert (u, j) in Slots(s'.tasks, f);
      assert |Slots(s.tasks, f)| == |Slots(s'.tasks, f)| + 1;
    }
  }

  lemma ReleaseKeeps(s: Sys, t: Tid, i: nat)
    requires Inv(s) && IsOpen(s, t, i)
    ensures Inv(Release(s, t, i))
  {
    var s' := Release(s, t, i);
    forall g ensures CountOk(s', g) { ReleaseCounts(s, t, i, g); }
    forall u, j: nat ensures PointsOk(s', u, j) { ReleasePoints(s, t, i, u, j); }
  }

  lemma Unpointed(s: Sys, g: Fid)
    requires Inv(s) && g !in s.refs
    ensures Slots(s.tasks, g) == {}
  {
    if p :| p in Slots(s.tasks, g) { Pointed(s, p.0, p.1, g); }
  }

  lemma Pointed(s: Sys, t: Tid, i: nat, g: Fid)
    requires Inv(s) && (t, i) in Slots(s.tasks, g)
    ensures g in s.refs
  {
    assert PointsOk(s, t, i);
  }

  lemma AttachCounts(s: Sys, t: Tid, i: nat, d: Fd, g: Fid)
    requires Inv(s) && t in s.tasks && i < 32 && s.tasks[t][i].fil.None? && d.fil.Some?
    ensures CountOk(Attach(s, t, i, d), g)
  {
    assert CountOk(s, g);
    SlotDelta(s.tasks, t, i, d, g);
    if g !in s.refs { Unpointed(s, g); }
  }

  /** An open file gains a slot, or a new file gets its first one. */
  lemma AttachKeeps(s: Sys, t: Tid, i: nat, d: Fd)
    requires Inv(s) && t in s.tasks && i < 32 && s.tasks[t][i].fil.None? && d.fil.Some?
    ensures Inv(Attach(s, t, i, d))
  {
    var s' := Attach(s, t, i, d);
    forall g ensures CountOk(s', g) { AttachCounts(s, t, i, d, g); }
    forall u, j: nat ensures PointsOk(s', u, j) { assert PointsOk(s, u, j); }
  }

  // -------------------------------------------------------------- every call keeps it

  lemma CloseKeeps(s: Sys, t: Tid, fd: int)
    requires Inv(s) && t in s.tasks
    ensures Inv(Close(s, t, fd).1)
  {
    if 0 <= fd < 32 && s.tasks[t][fd].fil.Some? { ReleaseKeeps(s, t, fd); }
  }

  /** A file disappears exactly with its last slot. */
  lemma CloseFrees(s: Sys, t: Tid, fd: int, f: Fid)
    requires Inv(s) && t in s.tasks && f in s.refs
    ensures f !in Close(s, t, fd).1.refs <==> Slots(s.tasks, f) == {(t, fd)}
  {
    if 0 <= fd < 32 { SlotDelta(s.tasks, t, fd, CLOSED, f); }
    if 0 <= fd < 32 && s.tasks[t][fd].fil == Some(f) {
      var q := Slots(s.tasks, f);
      assert CountOk(s, f);
      if |q| == 1 { assert |q - {(t, fd)}| == 0; assert q == {(t, fd)}; }
    } else {
      assert (t, fd) !in Slots(s.tasks, f);
    }
  }

  lemma Dup2Keeps(s: Sys, t: Tid, oldfd: int, newfd: int)
    requires Inv(s) && t in s.tasks
    ensures Inv(Dup2(s, t, oldfd, newfd).1)
  {
    if 0 <= oldfd < 32 && 0 <= newfd < 32 && s.tasks[t][oldfd].fil.Some? && oldfd != newfd {
      CloseKeeps(s, t, newfd);
      var s1 := if s.tasks[t][newfd].fil.Some? then Close(s, t, newfd).1 else s;
      AttachKeeps(s1, t, newfd, Copied(s1.tasks[t][oldfd]));
    }
  }

  lemma PipeKeeps(s: Sys, t: Tid, files: Option<(Fid, Fid)>)
    requires Inv(s) && t in s.tasks
    ensures Inv(Pipe(s, t, files).1)
  {
    var fd0 := FirstFree(s.tasks[t], 0);
    var fd1 := FirstFree(s.tasks[t], fd0 + 1);
    if fd1 < 32 && files.Some? {
      var (file0, file1) := files.value;
      AttachKeeps(s, t, fd0, Filled(s, t, fd0, file0));
      AttachKeeps(Attach(s, t, fd0, Filled(s, t, fd0, file0)), t, fd1, Filled(s, t, fd1, file1));
    }
  }

  lemma {:induction false} CopyKeeps(s: Sys, parent: Tid, child: Tid, i: nat)
    requires Inv(s) && parent in s.tasks && child in s.tasks && parent != child
    requires forall j :: i <= j < 32 ==> s.tasks[child][j] == CLOSED
    ensures var s' := CopyFrom(s, parent, child, i);
            && Inv(s') && s'.tasks.Keys == s.tasks.Keys
            && (forall t :: t in s.tasks && t != child ==> s'.tasks[t] == s.tasks[t])
            && (forall j :: 0 <= j < 32 ==>
                  s'.tasks[child][j] == if j < i || s.tasks[parent][j].fil.None?
                    then s.tasks[child][j] else s.tasks[parent][j])
    decreases 32 - i
  {
    if i < 32 {
      var d := s.tasks[parent][i];
      if d.fil.Some? { AttachKeeps(s, child, i, d); }
      CopyKeeps(if d.fil.Some? then Attach(s, child, i, d) else s, parent, child, i + 1);
    }
  }

  /** After a fork the child has the parent's open descriptors, with their marks, and nobody
      else's have changed. */
  lemma ForkKeeps(s: Sys, parent: Tid, child: Tid)
    requires Inv(s) && parent in s.tasks && child !in s.tasks
    ensures Inv(Fork(s, parent, child)) && Fork(s, parent, child).tasks.Keys == s.tasks.Keys + {child}
    ensures forall j :: 0 <= j < 32 ==>
      Fork(s, parent, child).tasks[child][j] == if s.tasks[parent][j].fil.Some? then s.tasks[parent][j] else CLOSED
    ensures forall t :: t in s.tasks ==> Fork(s, parent, child).tasks[t] == s.tasks[t]
  {
    var s1 := s.(tasks := s.tasks[child := seq(32, _ => CLOSED)]);
    forall f ensures CountOk(s1, f) {
      assert CountOk(s, f);
      assert Slots(s1.tasks, f) == Slots(s.tasks, f);
    }
    forall t, i: nat ensures PointsOk(s1, t, i) { assert PointsOk(s, t, i); }
    CopyKeeps(s1, parent, child, 0);
  }

  /** The slots that a loop over all descriptors closes. */
  predicate Chosen(d: Fd, execOnly: bool) {
    d.fil.Some? && (execOnly ==> Marked(d))
  }

  lemma OneClosed(s: Sys, t: Tid, i: nat, execOnly: bool)
    requires Inv(s) && t in s.tasks && |s.tasks[t]| == 32 && i < 32
    ensures var d := s.tasks[t][i];
      var s1 := if Chosen(d, execOnly) then Close(s, t, i).1 else s;
      Inv(s1) && s1.tasks == s.tasks[t := s.tasks[t][i := if Chosen(d, execOnly) then CLOSED else d]]
  {
    CloseKeeps(s, t, i);
    var fds := s.tasks[t];
    assert fds[i := fds[i]] == fds && s.tasks[t := fds] == s.tasks;
  }

  lemma {:induction false} CloseFromKeeps(s: Sys, t: Tid, i: nat, execOnly: bool)
    requires Inv(s) && t in s.tasks
    ensures var s' := CloseFrom(s, t, i, execOnly);
            && Inv(s') && s'.tasks.Keys == s.tasks.Keys
            && (forall u :: u in s.tasks && u != t ==> s'.tasks[u] == s.tasks[u])
            && (forall j :: 0 <= j < 32 ==>
                  s'.tasks[t][j] == if i <= j && Chosen(s.tasks[t][j], execOnly) then CLOSED else s.tasks[t][j])
    decreases 32 - i
  {
    if i < 32 {
      OneClosed(s, t, i, execOnly);
      var s1 := if Chosen(s.tasks[t][i], execOnly) then Close(s, t, i).1 else s;
      CloseFromKeeps(s1, t, i + 1, execOnly);
    }
  }

  // ------------------------------------------------------------- what the callers see

  /** The tables differ at most in slot `i` of task `t`. */
  ghost predicate OnlySlot(s: Sys, s': Sys, t: Tid, i: nat) {
    && s'.tasks.Keys == s.tasks.Keys
    && (forall u :: u in s.tasks ==> |s'.tasks[u]| == |s.tasks[u]|)
    && forall u, j: nat :: u in s.tasks && j < |s.tasks[u]| && (u != t || j != i) ==> s'.tasks[u][j] == s.tasks[u][j]
  }

  /** Slot `i` is the lowest one that is free. */
  ghost predicate Lowest(fds: seq<Fd>, i: nat) {
    i < |fds| && fds[i].fil.None? && forall j :: 0 <= j < i ==> fds[j].fil.Some?
  }

  lemma LowestIsFirst(fds: seq<Fd>)
    ensures FirstFree(fds, 0) < |fds| <==> exists i: nat :: Lowest(fds, i)
    ensures FirstFree(fds, 0) < |fds| ==> Lowest(fds, FirstFree(fds, 0))
  {
    if FirstFree(fds, 0) < |fds| { assert Lowest(fds, FirstFree(fds, 0)); }
  }

  /** `open` succeeds iff a slot is free and there is memory for the file; then it returns the
      lowest free slot, which holds the file and is marked as asked, nothing else changes, and
      the new file is counted once. Otherwise nothing changes, and the error says which of the
      two is short. */
  lemma OpenTakes(s: Sys, t: Tid, cloexec: bool, fil: Option<Fid>)
    requires t in s.tasks && |s.tasks[t]| == 32 && (fil.Some? ==> fil.value !in s.refs)
    ensures var (r, s') := Open(s, t, cloexec, fil);
      && (r >= 0 <==> fil.Some? && exists i: nat :: Lowest(s.tasks[t], i))
      && (r >= 0 ==> Lowest(s.tasks[t], r) && OnlySlot(s, s', t, r) && s'.refs == s.refs[fil.value := 1])
      && (r >= 0 ==> var d := s'.tasks[t][r]; d.fil == fil && (Marked(d) <==> cloexec) && FD_CLOEXEC !in d.flags)
      && (r < 0 ==> s' == s && r == if exists i: nat :: Lowest(s.tasks[t], i) then -ENOMEM else -EMFILE)
  {
    LowestIsFirst(s.tasks[t]);
  }

  /** `close` succeeds iff the descriptor is open; then exactly its slot is cleared, and one
      reference to its file goes, and with the last one the file. */
  lemma CloseClears(s: Sys, t: Tid, fd: int)
    requires Inv(s) && t in s.tasks
    ensures var (r, s') := Close(s, t, fd);
      && (r == 0 <==> IsOpen(s, t, fd))
      && (r != 0 ==> r == -EBADF && s' == s)
      && (r == 0 ==>
            var f := s.tasks[t][fd].fil.value;
            && s'.tasks[t][fd] == Fd(None, {}) && OnlySlot(s, s', t, fd) && f in s.refs
            && s'.refs - {f} == s.refs - {f}
            && if s.refs[f] == 1 then f !in s'.refs else f in s'.refs && s'.refs[f] == s.refs[f] - 1)
  {
    if 0 <= fd < 32 {
      assert PointsOk(s, t, fd);
      if IsOpen(s, t, fd) { assert CountOk(s, s.tasks[t][fd].fil.value); }
    }
  }

  /** `dup` succeeds iff the descriptor is open and a slot is free; then the lowest free slot
      shares the file and the mark that exec tests, and nothing else changes. */
  lemma DupShares(s: Sys, t: Tid, oldfd: int)
    requires t in s.tasks && |s.tasks[t]| == 32
    ensures var (r, s') := Dup(s, t, oldfd);
      && (r >= 0 <==> IsOpen(s, t, oldfd) && exists i: nat :: Lowest(s.tasks[t], i))
      && (r < 0 ==> s' == s)
      && (r >= 0 ==> Lowest(s.tasks[t], r) && SharedBy(s, s', t, oldfd, r) && OnlySlot(s, s', t, r))
  {
    LowestIsFirst(s.tasks[t]);
  }

  /** `dup2` succeeds iff both numbers are in range and the first is open; then the second, if
      it is another one, shares the file and the mark that exec tests, whatever it held before,
      and nothing else changes. */
  lemma Dup2Shares(s: Sys, t: Tid, oldfd: int, newfd: int)
    requires t in s.tasks && |s.tasks[t]| == 32
    ensures var (r, s') := Dup2(s, t, oldfd, newfd);
      && (r >= 0 <==> IsOpen(s, t, oldfd) && 0 <= newfd < 32)
      && (r < 0 || oldfd == newfd ==> s' == s)
      && (r >= 0 ==> r == newfd && OnlySlot(s, s', t, r))
      && (r >= 0 && oldfd != newfd ==> SharedBy(s, s', t, oldfd, r))
  {
  }

  /** Slot `j` of `s'` has the file and the mark of slot `i` of `s`, and not the other flag. */
  ghost predicate SharedBy(s: Sys, s': Sys, t: Tid, i: nat, j: nat)
    requires t in s.tasks && t in s'.tasks && i < |s.tasks[t]| && j < |s'.tasks[t]|
  {
    var d, d' := s.tasks[t][i], s'.tasks[t][j];
    d'.fil == d.fil && (Marked(d') <==> Marked(d)) && FD_CLOEXEC !in d'.flags
  }

  /** Slots `i` and `j` are the two lowest free ones, and hold the two files in `s'`. */
  ghost predicate TwoLowest(s: Sys, s': Sys, t: Tid, i: nat, j: nat, files: (Fid, Fid))
    requires t in s.tasks
  {
    && i < j && Lowest(s.tasks[t], i)
    && var d0 := Filled(s, t, i, files.0);
       && Lowest(s.tasks[t][i := d0], j)
       && s'.tasks == s.tasks[t := s.tasks[t][i := d0][j := Filled(s, t, j, files.1)]]
  }

  ghost predicate TwoFree(fds: seq<Fd>) {
    exists i: nat, j: nat :: i < j < |fds| && fds[i].fil.None? && fds[j].fil.None?
  }

  /** `pipe` puts its two files in the two lowest free slots. It fails, changing nothing, when
      there are no two, or no memory. */
  lemma PipeTakes(s: Sys, t: Tid, files: Option<(Fid, Fid)>)
    requires t in s.tasks && |s.tasks[t]| == 32
    ensures var (r, s') := Pipe(s, t, files);
      && (r == 0 <==> TwoFree(s.tasks[t]) && files.Some?)
      && (r != 0 ==> r == (if TwoFree(s.tasks[t]) then -1 else -EMFILE) && s' == s)
      && (r == 0 ==> exists i: nat, j: nat :: TwoLowest(s, s', t, i, j, files.value))
  {
    var fd0 := FirstFree(s.tasks[t], 0);
    var fd1 := FirstFree(s.tasks[t], fd0 + 1);
    if fd1 < 32 && files.Some? { assert TwoLowest(s, Pipe(s, t, files).1, t, fd0, fd1, files.value); }
  }

  // ------------------------------------------------------------------------------- runs

  datatype Call = CloseCall(t: Tid, fd: int) | OpenCall(t: Tid, cloexec: bool, fil: Option<Fid>)
                | DupCall(t: Tid, fd: int) | Dup2Call(t: Tid, oldfd: int, newfd: int)
                | PipeCall(t: Tid, files: Option<(Fid, Fid)>) | ForkCall(t: Tid, child: Tid)
                | ExecCall(t: Tid) | ExitCall(t: Tid) | ReapCall(t: Tid)

  predicate AllClosed(fds: seq<Fd>) {
    forall i :: 0 <= i < |fds| ==> fds[i].fil.None?
  }

  /** New files are really new; a child is a new task; only exited tasks are reaped. */
  predicate Legal(s: Sys, a: Call) {
    a.t in s.tasks &&
    match a
    case OpenCall(_, _, fil) => fil.Some? ==> fil.value !in s.refs
    case PipeCall(_, files) =>
      files.Some? ==> files.value.0 !in s.refs && files.value.1 !in s.refs && files.value.0 != files.value.1
    case ForkCall(_, child) => child !in s.tasks
    case ReapCall(t) => AllClosed(s.tasks[t])
    case _ => true
  }

  function Step(s: Sys, a: Call): Sys
    requires Legal(s, a) && forall t :: t in s.tasks ==> |s.tasks[t]| == 32
  {
    match a
    case CloseCall(t, fd) => Close(s, t, fd).1
    case OpenCall(t, cloexec, fil) => Open(s, t, cloexec, fil).1
    case DupCall(t, fd) => Dup(s, t, fd).1
    case Dup2Call(t, oldfd, newfd) => Dup2(s, t, oldfd, newfd).1
    case PipeCall(t, files) => Pipe(s, t, files).1
    case ForkCall(t, child) => Fork(s, t, child)
    case ExecCall(t) => CloseFrom(s, t, 0, true)
    case ExitCall(t) => CloseFrom(s, t, 0, false)
    case ReapCall(t) => s.(tasks := s.tasks - {t})
  }

  lemma ReapKeeps(s: Sys, t: Tid)
    requires Inv(s) && t in s.tasks && AllClosed(s.tasks[t])
    ensures Inv(s.(tasks := s.tasks - {t}))
  {
    var s' := s.(tasks := s.tasks - {t});
    forall f ensures CountOk(s', f) {
      assert CountOk(s, f);
      assert Slots(s'.tasks, f) == Slots(s.tasks, f);
    }
    forall u, i: nat ensures PointsOk(s', u, i) { assert PointsOk(s, u, i); }
  }

  lemma StepKeeps(s: Sys, a: Call)
    requires Inv(s) && Legal(s, a)
    ensures Inv(Step(s, a))
  {
    match a
    case CloseCall(t, fd) => CloseKeeps(s, t, fd);
    case OpenCall(t, cloexec, fil) =>
      var n := FirstFree(s.tasks[t], 0);
      if n < 32 && fil.Some? { AttachKeeps(s, t, n, Fd(fil, if cloexec then {O_CLOEXEC} else {})); }
    case DupCall(t, fd) =>
      var n := FirstFree(s.tasks[t], 0);
      if 0 <= fd < 32 && s.tasks[t][fd].fil.Some? && n < 32 { AttachKeeps(s, t, n, Copied(s.tasks[t][fd])); }
    case Dup2Call(t, oldfd, newfd) => Dup2Keeps(s, t, oldfd, newfd);
    case PipeCall(t, files) => PipeKeeps(s, t, files);
    case ForkCall(t, child) => ForkKeeps(s, t, child);
    case ExecCall(t) => CloseFromKeeps(s, t, 0, true);
    case ExitCall(t) => CloseFromKeeps(s, t, 0, false);
    case ReapCall(t) => ReapKeeps(s, t);
  }

  ghost predicate Follows(r: Sys, a: Call, s: Sys) {
    Legal(r, a) && (forall t :: t in r.tasks ==> |r.tasks[t]| == 32) && s == Step(r, a)
  }

  /** `run` leads from one task without open files to `s`. */
  ghost predicate Reaches(run: seq<Call>, s: Sys) {
    if run == [] then s == Sys(map[0 := seq(32, _ => CLOSED)], map[])
    else exists r :: Reaches(Front(run), r) && Follows(r, Last(run), s)
  }

  /** In every run of any number of tasks, a file's count is the number of slots pointing
      at it, an open file has one, and no slot points at a file that is gone. */
  lemma {:induction false} RunCounts(run: seq<Call>, s: Sys)
    requires Reaches(run, s)
    ensures Inv(s)
    ensures forall f :: f in s.refs <==> Slots(s.tasks, f) != {}
    decreases |run|
  {
    if run != [] {
      var r :| Reaches(Front(run), r) && Follows(r, Last(run), s);
      RunCounts(Front(run), r);
      StepKeeps(r, Last(run));
    }
    forall f ensures f in s.refs <==> Slots(s.tasks, f) != {} {
      assert CountOk(s, f);
      if f !in s.refs { Unpointed(s, f); }
    }
  }

  // ---------------------------------------------------------------------- close-on-exec

  /** After an exec a descriptor made by `dup` is open exactly if the original was not marked:
      the flag that `dup` clears is not the one that exec tests. */
  lemma DupExec(s: Sys, t: Tid, oldfd: nat, newfd: nat)
    requires Inv(s) && IsOpen(s, t, oldfd) && Lowest(s.tasks[t], newfd)
    ensures var s' := Dup(s, t, oldfd).1;
      t in s'.tasks && |s'.tasks[t]| == 32 &&
      (IsOpen(CloseFrom(s', t, 0, true), t, newfd) <==> !Marked(s.tasks[t][oldfd]))
  {
    LowestIsFirst(s.tasks[t]);
    var s' := Dup(s, t, oldfd).1;
    StepKeeps(s, DupCall(t, oldfd));
    DupShares(s, t, oldfd);
    CloseFromKeeps(s', t, 0, true);
  }

  /** The same for `dup2`. */
  lemma Dup2Exec(s: Sys, t: Tid, oldfd: nat, newfd: nat)
    requires Inv(s) && IsOpen(s, t, oldfd) && newfd < 32
    ensures var s' := Dup2(s, t, oldfd, newfd).1;
      t in s'.tasks && |s'.tasks[t]| == 32 &&
      (IsOpen(CloseFrom(s', t, 0, true), t, newfd) <==> !Marked(s.tasks[t][oldfd]))
  {
    var s' := Dup2(s, t, oldfd, newfd).1;
    Dup2Keeps(s, t, oldfd, newfd);
    Dup2Shares(s, t, oldfd, newfd);
    CloseFromKeeps(s', t, 0, true);
  }

  /** No slot of the table has the flag that `dup` clears, and free slots have no flags. */
  ghost predicate Tidy(fds: seq<Fd>) {
    forall i :: 0 <= i < |fds| ==> TidySlot(fds[i])
  }

  predicate TidySlot(d: Fd) {
    FD_CLOEXEC !in d.flags && (d.fil.None? ==> d == CLOSED)
  }

  ghost predicate AllTidy(s: Sys) {
    forall t {:trigger s.tasks[t]} :: t in s.tasks ==> Tidy(s.tasks[t])
  }

  lemma AttachTidy(s: Sys, t: Tid, i: nat, d: Fd)
    requires AllTidy(s) && t in s.tasks && i < |s.tasks[t]| && d.fil.Some? && TidySlot(d)
    ensures AllTidy(Attach(s, t, i, d))
  {
  }

  lemma CloseTidy(s: Sys, t: Tid, fd: int)
    requires AllTidy(s) && t in s.tasks && |s.tasks[t]| == 32
    ensures AllTidy(Close(s, t, fd).1)
  {
  }

  lemma PipeTidy(s: Sys, t: Tid, files: Option<(Fid, Fid)>)
    requires AllTidy(s) && t in s.tasks && |s.tasks[t]| == 32
    ensures AllTidy(Pipe(s, t, files).1)
  {
    var fd0 := FirstFree(s.tasks[t], 0);
    var fd1 := FirstFree(s.tasks[t], fd0 + 1);
    if fd1 < 32 && files.Some? {
      AttachTidy(s, t, fd0, Filled(s, t, fd0, files.value.0));
      AttachTidy(Attach(s, t, fd0, Filled(s, t, fd0, files.value.0)), t, fd1, Filled(s, t, fd1, files.value.1));
    }
  }

  lemma Dup2Tidy(s: Sys, t: Tid, oldfd: int, newfd: int)
    requires AllTidy(s) && t in s.tasks && |s.tasks[t]| == 32
    ensures AllTidy(Dup2(s, t, oldfd, newfd).1)
  {
    if IsOpen(s, t, oldfd) && 0 <= newfd < 32 && oldfd != newfd {
      CloseTidy(s, t, newfd);
      var s1 := if s.tasks[t][newfd].fil.Some? then Close(s, t, newfd).1 else s;
      AttachTidy(s1, t, newfd, Copied(s1.tasks[t][oldfd]));
    }
  }

  lemma StepTidy(s: Sys, a: Call)
    requires Inv(s) && Legal(s, a) && AllTidy(s)
    ensures AllTidy(Step(s, a))
  {
    match a
    case CloseCall(t, fd) => CloseTidy(s, t, fd);
    case Dup2Call(t, oldfd, newfd) => Dup2Tidy(s, t, oldfd, newfd);
    case PipeCall(t, files) => PipeTidy(s, t, files);
    case ForkCall(t, child) => ForkKeeps(s, t, child);
    case ExecCall(t) => CloseFromKeeps(s, t, 0, true);
    case ExitCall(t) => CloseFromKeeps(s, t, 0, false);
    case _ =>
  }

  /** In every run the flag that `dup` and `dup2` clear is never set, so that they copy the mark
      as it is, and free slots carry no mark for `pipe` to inherit. */
  lemma {:induction false} RunTidy(run: seq<Call>, s: Sys)
    requires Reaches(run, s)
    ensures AllTidy(s)
    decreases |run|
  {
    if run != [] {
      var r :| Reaches(Front(run), r) && Follows(r, Last(run), s);
      RunCounts(Front(run), r);
      RunTidy(Front(run), r);
      StepTidy(r, Last(run));
    }
  }

  /** A file opened with close-on-exec and duplicated: exec closes both descriptors. */
  lemma MarkIsKept(f: Fid) returns (s: Sys, s': Sys)
    ensures Reaches([OpenCall(0, true, Some(f)), Dup2Call(0, 0, 1)], s)
    ensures IsOpen(s, 0, 0) && IsOpen(s, 0, 1)
    ensures Reaches([OpenCall(0, true, Some(f)), Dup2Call(0, 0, 1), ExecCall(0)], s')
    ensures !IsOpen(s', 0, 0) && !IsOpen(s', 0, 1)
  {
    var a, b, c := OpenCall(0, true, Some(f)), Dup2Call(0, 0, 1), ExecCall(0);
    var s0 := Sys(map[0 := seq(32, _ => CLOSED)], map[]);
    assert [] + [a] == [a] && [a] + [b] == [a, b] && [a, b] + [c] == [a, b, c];
    var s1 := RunStep([], s0, a);
    FirstOpened(s0, s1, f);
    RunCounts([a], s1);
    BothClosed(s1);
    s := RunStep([a], s1, b);
    RunCounts([a, b], s);
    s' := RunStep([a, b], s, c);
  }

  lemma FirstOpened(s: Sys, s1: Sys, f: Fid)
    requires s == Sys(map[0 := seq(32, _ => CLOSED)], map[]) && s1 == Open(s, 0, true, Some(f)).1
    ensures IsOpen(s1, 0, 0) && Marked(s1.tasks[0][0]) && s1.tasks.Keys == {0} && |s1.tasks[0]| == 32
  {
  }

  lemma BothClosed(s: Sys)
    requires Inv(s) && IsOpen(s, 0, 0) && Marked(s.tasks[0][0])
    ensures var s' := Dup2(s, 0, 0, 1).1;
      && Inv(s') && IsOpen(s', 0, 0) && IsOpen(s', 0, 1)
      && var s'' := CloseFrom(s', 0, 0, true); !IsOpen(s'', 0, 0) && !IsOpen(s'', 0, 1)
  {
    Dup2Keeps(s, 0, 0, 1);
    Dup2Shares(s, 0, 0, 1);
    CloseFromKeeps(Dup2(s, 0, 0, 1).1, 0, 0, true);
  }

  /** One call more. */
  lemma RunStep(run: seq<Call>, r: Sys, a: Call) returns (s: Sys)
    requires Reaches(run, r) && Legal(r, a) && forall t :: t in r.tasks ==> |r.tasks[t]| == 32
    ensures s == Step(r, a) && Reaches(run + [a], s)
  {
    s := Step(r, a);
    assert Front(run + [a]) == run && Last(run + [a]) == a;
    assert Follows(r, a, s);
  }
}
