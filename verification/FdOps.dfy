/** Descriptor tables as they run: slots searched and written, counts updated in place. */
module FdOps {
  import opened Common
  import opened Fds

  lemma OpenCounted(s: Sys, t: Tid)
    requires Inv(s) && t in s.tasks
    ensures forall i :: IsOpen(s, t, i) ==> s.tasks[t][i].fil.value in s.refs && s.refs[s.tasks[t][i].fil.value] > 0
  {
    forall i: nat | IsOpen(s, t, i) ensures s.tasks[t][i].fil.value in s.refs && s.refs[s.tasks[t][i].fil.value] > 0 {
      assert PointsOk(s, t, i) && CountOk(s, s.tasks[t][i].fil.value);
    }
  }

  class Files {
    var tasks: map<Tid, seq<Fd>>
    var refs: map<Fid, nat>

    function State(): Sys
      reads this
    {
      Sys(tasks, refs)
    }

    ghost predicate Ready(t: Tid)
      reads this
    {
      t in tasks && |tasks[t]| == 32
      && forall i :: IsOpen(State(), t, i) ==> tasks[t][i].fil.value in refs && refs[tasks[t][i].fil.value] > 0
    }

    method SlotFrom(t: Tid, from: nat) returns (n: nat)
      requires t in tasks && |tasks[t]| == 32
      ensures n == FirstFree(tasks[t], from)
    {
      n := from;
      while n < 32
        invariant from <= n && FirstFree(tasks[t], n) == FirstFree(tasks[t], from)
      {
        if tasks[t][n].fil.None? {
          return;
        }
        n := n + 1;
      }
    }

    method SysClose(t: Tid, fd: int) returns (r: int)
      requires Ready(t)
      modifies this
      ensures (r, State()) == Close(old(State()), t, fd)
    {
      if fd < 0 || 32 <= fd || tasks[t][fd].fil.None? {
        return -EBADF;
      }
      assert IsOpen(State(), t, fd);
      var fil := tasks[t][fd].fil.value;
      tasks := tasks[t := tasks[t][fd := CLOSED]];
      refs := refs[fil := refs[fil] - 1];
      if refs[fil] == 0 {
        refs := refs - {fil};
        assert refs == old(refs) - {fil};
      }
      r := 0;
    }

    method SysOpen(t: Tid, cloexec: bool, fil: Option<Fid>) returns (r: int)
      requires Ready(t) && (fil.Some? ==> fil.value !in refs)
      modifies this
      ensures (r, State()) == Open(old(State()), t, cloexec, fil)
    {
      var fdn := SlotFrom(t, 0);
      if fdn >= 32 {
        return -EMFILE;
      }
      if fil.None? {
        return -ENOMEM;
      }
      refs := refs[fil.value := 1];
      tasks := tasks[t := tasks[t][fdn := Fd(fil, if cloexec then {O_CLOEXEC} else {})]];
      r := fdn;
    }

    method SysDup(t: Tid, oldfd: int) returns (r: int)
      requires Ready(t)
      modifies this
      ensures (r, State()) == Dup(old(State()), t, oldfd)
    {
      if oldfd < 0 || oldfd >= 32 || tasks[t][oldfd].fil.None? {
        return -EBADF;
      }
      assert IsOpen(State(), t, oldfd) && PointsOk(State(), t, oldfd);
      var newfd := SlotFrom(t, 0);
      if newfd >= 32 {
        return -EMFILE;
      }
      var d := Copied(tasks[t][oldfd]);
      tasks := tasks[t := tasks[t][newfd := d]];
      refs := refs[d.fil.value := refs[d.fil.value] + 1];
      r := newfd;
    }

    method SysDup2(t: Tid, oldfd: int, newfd: int) returns (r: int)
      requires Inv(State()) && t in tasks
      modifies this
      ensures (r, State()) == Dup2(old(State()), t, oldfd, newfd)
    {
      if oldfd < 0 || oldfd >= 32 || newfd < 0 || newfd >= 32 || tasks[t][oldfd].fil.None? {
        return -EBADF;
      }
      if oldfd == newfd {
        return oldfd;
      }
      CloseKeeps(State(), t, newfd);
      if tasks[t][newfd].fil.Some? {
        OpenCounted(State(), t);
        var status := SysClose(t, newfd);
      }
      assert IsOpen(State(), t, oldfd) && PointsOk(State(), t, oldfd);
      var d := Copied(tasks[t][oldfd]);
      tasks := tasks[t := tasks[t][newfd := d]];
      refs := refs[d.fil.value := refs[d.fil.value] + 1];
      r := newfd;
    }

    method PipeCreate(t: Tid, files: Option<(Fid, Fid)>) returns (r: int)
      requires Ready(t)
      requires files.Some? ==> files.value.0 !in refs && files.value.1 !in refs && files.value.0 != files.value.1
      modifies this
      ensures (r, State()) == Pipe(old(State()), t, files)
    {
      var fd0 := SlotFrom(t, 0);
      var fd1 := SlotFrom(t, fd0 + 1);
      if fd1 >= 32 {
        return -EMFILE;
      }
      if files.None? {
        return -1;
      }
      var (file0, file1) := files.value;
      refs := refs[file0 := 1][file1 := 1];
      tasks := tasks[t := tasks[t][fd0 := tasks[t][fd0].(fil := Some(file0))]];
      tasks := tasks[t := tasks[t][fd1 := tasks[t][fd1].(fil := Some(file1))]];
      r := 0;
    }

    /** Copies one slot to the child, counting the reference. */
    method CopySlot(t: Tid, child: Tid, i: nat)
      requires Ready(t) && child in tasks && |tasks[child]| == 32 && child != t && i < 32
      modifies this
      ensures State() == if old(tasks[t][i]).fil.Some? then Attach(old(State()), child, i, old(tasks[t][i]))
                         else old(State())
      ensures Ready(t)
    {
      if tasks[t][i].fil.Some? {
        assert IsOpen(State(), t, i);
        var fil := tasks[t][i].fil.value;
        tasks := tasks[child := tasks[child][i := tasks[t][i]]];
        refs := refs[fil := refs[fil] + 1];
      }
      assert forall j :: IsOpen(State(), t, j) ==> IsOpen(old(State()), t, j);
    }

    /** Gives a new task its parent's open files. */
    method TaskInit(t: Tid, child: Tid)
      requires Ready(t) && child !in tasks
      modifies this
      ensures State() == Fork(old(State()), t, child)
    {
      tasks := tasks[child := seq(32, _ => CLOSED)];
      assert forall j :: IsOpen(State(), t, j) ==> IsOpen(old(State()), t, j);
      var i := 0;
      while i < 32
        invariant 0 <= i <= 32 && Ready(t) && child in tasks && |tasks[child]| == 32
        invariant CopyFrom(State(), t, child, i) == Fork(old(State()), t, child)
      {
        CopySlot(t, child, i);
        i := i + 1;
      }
    }

    method CloseSlot(t: Tid, i: nat, execOnly: bool)
      requires Inv(State()) && t in tasks && i < 32
      modifies this
      ensures Inv(State()) && t in tasks
      ensures State() == if old(tasks[t][i]).fil.Some? && (execOnly ==> Marked(old(tasks[t][i])))
                         then Close(old(State()), t, i).1 else old(State())
    {
      CloseKeeps(State(), t, i);
      if tasks[t][i].fil.Some? && (execOnly ==> Marked(tasks[t][i])) {
        OpenCounted(State(), t);
        var status := SysClose(t, i);
      }
    }

    /** Closes everything (on exit) or what is marked close-on-exec (on exec). */
    method CloseAll(t: Tid, execOnly: bool)
      requires Inv(State()) && t in tasks
      modifies this
      ensures State() == CloseFrom(old(State()), t, 0, execOnly)
    {
      var i := 0;
      while i < 32
        invariant 0 <= i <= 32 && Inv(State()) && t in tasks
        invariant CloseFrom(State(), t, i, execOnly) == CloseFrom(old(State()), t, 0, execOnly)
      {
        CloseSlot(t, i, execOnly);
        i := i + 1;
      }
    }
  }
}
