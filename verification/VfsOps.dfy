/** Path walking as it runs: scans of the mount list that start over at every hop, and
    a path written backwards into a buffer. */
module VfsOps {
  import opened Common
  import opened Vfs
  import opened VfsTheory

  const ENAMETOOLONG: int := 36

  ghost predicate IsUp(ms: seq<Mount>, u: map<nat, nat>) {
    && (forall k :: 0 <= k < |ms| ==> ms[k].root in u && u[ms[k].root] == ms[k].mntpt)
    && (forall r :: r in u ==> exists k :: 0 <= k < |ms| && ms[k].root == r)
  }

  ghost predicate IsDown(ms: seq<Mount>, v: map<nat, nat>) {
    && (forall k :: 0 <= k < |ms| ==> ms[k].mntpt in v && v[ms[k].mntpt] == ms[k].root)
    && (forall r :: r in v ==> exists k :: 0 <= k < |ms| && ms[k].mntpt == r)
  }

  lemma TablesAre(fs: Fs, rank: seq<nat>)
    requires WellFormed(fs, rank)
    ensures IsUp(fs.mounts, UpMap(fs.mounts)) && IsDown(fs.mounts, DownMap(fs.mounts))
    ensures |rank| == |fs.dents| && Falls(UpMap(fs.mounts), rank) && Falls(DownMap(fs.mounts), Flipped(rank))
  {
    TableMaps(fs, rank);
    MapsAre(fs.mounts);
  }

  lemma {:induction false} JoinAppend(a: seq<string>, b: seq<string>)
    ensures Join(a + b) == Join(a) + Join(b)
    decreases |b|
  {
    if b == [] {
      assert a + b == a;
    } else {
      assert Front(a + b) == a + Front(b) && Last(a + b) == Last(b);
      JoinAppend(a, Front(b));
      assert Join(a) + (Join(Front(b)) + ("/" + Last(b))) == Join(a) + Join(Front(b)) + ("/" + Last(b));
    }
  }

  lemma {:induction false} SkipSlashesAt(path: string, i: nat)
    requires i <= |path| && (forall k :: 0 <= k < i ==> path[k] == '/') && (i == |path| || path[i] != '/')
    ensures SkipSlashes(path) == path[i..]
    decreases i
  {
    if i > 0 { SkipSlashesAt(path[1..], i - 1); }
  }

  lemma {:induction false} ElemLenAt(path: string, i: nat)
    requires i <= |path| && (forall k :: 0 <= k < i ==> path[k] != '/') && (i == |path| || path[i] == '/')
    ensures ElemLen(path) == i
    decreases i
  {
    if i > 0 { ElemLenAt(path[1..], i - 1); }
  }

  /** Once an element is not found the rest of the path does not matter. */
  lemma {:induction false} StepsStop(fs: Fs, disk: Disk, d: nat, a: seq<string>, b: seq<string>)
    requires Closed(fs) && d < |fs.dents| && Steps(fs, disk, d, a).0.None?
    ensures Steps(fs, disk, d, a + b) == (None, Steps(fs, disk, d, a).1)
    decreases |b|
  {
    if b == [] {
      assert a + b == a;
    } else {
      assert Front(a + b) == a + Front(b);
      StepsStop(fs, disk, d, a, Front(b));
    }
  }

  lemma StepsMore(fs: Fs, disk: Disk, d: nat, a: seq<string>, name: string)
    requires Closed(fs) && d < |fs.dents| && Steps(fs, disk, d, a).0.Some?
    ensures Steps(fs, disk, d, a + [name]) == var (o, fs') := Steps(fs, disk, d, a); Step(fs', disk, o.value, name)
  {
    assert Front(a + [name]) == a;
  }

  lemma OneElem(path: string, done: seq<string>, rest: string, name: string, rest': string)
    requires Split(path) == done + Split(rest) && SkipElem(rest) == Some((name, rest'))
    ensures name in Split(path) && Split(path) == (done + [name]) + Split(rest')
  {
    assert Split(rest) == [name] + Split(rest');
    assert Split(path)[|done|] == name;
  }

  /** One round of the climb: the top, or one more name. */
  lemma OneUp(fs: Fs, d: nat, pre: seq<string>)
    requires Closed(fs) && d < |fs.dents| && Above(fs, d) < |fs.dents| && IsPath(fs, d, pre)
    ensures var x := Above(fs, d);
      && (fs.dents[x].parent == x ==> pre == [])
      && (fs.dents[x].parent != x ==> pre != [] && pre == Front(pre) + [fs.dents[x].name])
      && (fs.dents[x].parent != x ==> IsPath(fs, fs.dents[x].parent, Front(pre)))
      && (fs.dents[x].parent != x ==> |Join(pre)| > |fs.dents[x].name|)
  {
  }

  class Kernel {
    var dents: seq<Dentry>
    var mounts: seq<Mount>

    function State(): Fs
      reads this
    {
      Fs(dents, mounts)
    }

    /** Skips slashes from position `from`. */
    method Slashes(path: string, from: nat) returns (i: nat)
      requires from <= |path|
      ensures from <= i <= |path| && path[i..] == SkipSlashes(path[from..])
    {
      i := from;
      while i < |path| && path[i] == '/'
        invariant from <= i <= |path| && forall k :: from <= k < i ==> path[k] == '/'
      {
        i := i + 1;
      }
      SkipSlashesAt(path[from..], i - from);
      assert path[from..][i - from..] == path[i..];
    }

    /** Finds the end of the element at position `from`. */
    method ElemEnd(path: string, from: nat) returns (i: nat)
      requires from <= |path|
      ensures from <= i <= |path| && i - from == ElemLen(path[from..])
    {
      i := from;
      while i < |path| && path[i] != '/'
        invariant from <= i <= |path| && forall k :: from <= k < i ==> path[k] != '/'
      {
        i := i + 1;
      }
      ElemLenAt(path[from..], i - from);
    }

    method NextElem(path: string) returns (r: Option<(string, string)>)
      ensures r == SkipElem(path)
    {
      assert path[0..] == path;
      var s := Slashes(path, 0);
      if s == |path| {
        return None;
      }
      var t := ElemEnd(path, s);
      var name;
      if t - s >= NAME_MAX {
        name := path[s..s + NAME_MAX];
        assert name == path[s..][..NAME_MAX];
      } else {
        name := path[s..t];
      }
      var i := Slashes(path, t);
      assert path[s..][..t - s] == path[s..t] && path[s..][t - s..] == path[t..];
      r := Some((name, path[i..]));
    }

    /** `follow_up` over a table that `u` describes. */
    method ScanUp(d: nat, ghost u: map<nat, nat>, ghost w: seq<nat>) returns (res: nat)
      requires IsUp(mounts, u) && Falls(u, w) && d < |w|
      ensures res == Chase(u, d) && res < |w|
    {
      res := d;
      var k := 0;
      while k < |mounts|
        invariant k <= |mounts| && res < |w|
        invariant Chase(u, res) == Chase(u, d)
        invariant forall i :: 0 <= i < k ==> mounts[i].root != res
        decreases w[res], |mounts| - k
      {
        if mounts[k].root == res {
          ChaseHop(u, w, res);
          res := mounts[k].mntpt;
          k := 0;
        } else {
          k := k + 1;
        }
      }
    }

    method GoUp(d: nat, ghost rank: seq<nat>) returns (res: nat)
      requires WellFormed(State(), rank) && d < |dents|
      ensures res == FollowUp(State(), d) && res < |dents|
    {
      TablesAre(State(), rank);
      res := ScanUp(d, UpMap(mounts), rank);
    }

    /** `follow_down` over a table that `v` describes. */
    method ScanDown(d: nat, ghost v: map<nat, nat>, ghost w: seq<nat>) returns (res: nat)
      requires IsDown(mounts, v) && Falls(v, w) && d < |w|
      ensures res == Chase(v, d) && res < |w|
    {
      res := d;
      var k := 0;
      while k < |mounts|
        invariant k <= |mounts| && res < |w|
        invariant Chase(v, res) == Chase(v, d)
        invariant forall i :: 0 <= i < k ==> mounts[i].mntpt != res
        decreases w[res], |mounts| - k
      {
        if mounts[k].mntpt == res {
          ChaseHop(v, w, res);
          res := mounts[k].root;
          k := 0;
        } else {
          k := k + 1;
        }
      }
    }

    method GoDown(d: nat, ghost rank: seq<nat>) returns (res: nat)
      requires WellFormed(State(), rank) && d < |dents|
      ensures res == FollowDown(State(), d) && res < |dents|
    {
      TablesAre(State(), rank);
      res := ScanDown(d, DownMap(mounts), Flipped(rank));
    }

    method Lookup(d: nat, name: string) returns (r: Option<nat>)
      requires Closed(State()) && d < |dents|
      ensures r == FindChild(dents, dents[d].child, name)
    {
      var kids := dents[d].child;
      var i := 0;
      while i < |kids|
        invariant i <= |kids| && forall c :: c in kids[i..] ==> c in kids
        invariant FindChild(dents, kids, name) == FindChild(dents, kids[i..], name)
      {
        assert kids[i] in kids;
        if dents[kids[i]].name == name {
          return Some(kids[i]);
        }
        i := i + 1;
      }
      r := None;
    }

    /** `do_mount`; fails when there is no memory for the table entry. */
    method DoMountOn(mntpt: nat, root: nat, memory: bool) returns (r: int)
      requires mntpt < |dents|
      modifies this
      ensures r == if memory then 0 else -1
      ensures State() == if memory then DoMount(old(State()), mntpt, root) else old(State())
    {
      if !memory {
        return -1;
      }
      r := 0;
      mounts := [Mount(mntpt, root)] + mounts;
      dents := dents[mntpt := dents[mntpt].(mounted := true)];
    }

    method Get(disk: Disk, d: nat, name: string) returns (r: Option<nat>)
      requires Closed(State()) && d < |dents|
      modifies this
      ensures (r, State()) == Dget(old(State()), disk, d, name)
    {
      r := Lookup(d, name);
      if r.None? {
        if !dents[d].dir || disk(d, name).None? {
          return;
        }
        r := Some(|dents|);
        dents := dents[d := dents[d].(child := dents[d].child + [|dents|])]
               + [Dentry(name, d, [], disk(d, name).value, false)];
      }
    }

    /** One element of a path; fails on anything that is not a directory. */
    method TakeStep(disk: Disk, d: nat, name: string, ghost rank: seq<nat>) returns (r: Option<nat>)
      requires WellFormed(State(), rank) && d < |dents|
      modifies this
      ensures (r, State()) == Step(old(State()), disk, d, name)
    {
      FollowClosed(State(), d);
      if !dents[d].dir {
        return None;
      }
      if name == "." {
        return Some(d);
      }
      var x := d;
      if name == ".." {
        if dents[d].name == "/" {
          x := GoUp(d, rank);
        }
        return Some(dents[x].parent);
      }
      if dents[d].mounted {
        x := GoDown(d, rank);
      }
      r := Get(disk, x, name);
    }

    /** The element loop of `named`. */
    method WalkPath(disk: Disk, start: nat, path: string, ghost rank: seq<nat>)
      returns (r: Option<nat>, ghost rk: seq<nat>)
      requires WellFormed(State(), rank) && start < |dents|
      requires forall n :: n in Split(path) ==> |n| < NAME_MAX
      modifies this
      ensures WellFormed(State(), rk) && (r.Some? ==> r.value < |dents|)
      ensures Steps(old(State()), disk, start, Split(path)) == (r, State())
    {
      SplitNames(path);
      var dent: nat, rest := start, path;
      ghost var done: seq<string> := [];
      rk := rank;
      ghost var fs := State();
      var elem := NextElem(rest);
      while elem.Some?
        invariant WellFormed(State(), rk) && dent < |dents|
        invariant elem == SkipElem(rest)
        invariant Split(path) == done + Split(rest)
        invariant Steps(fs, disk, start, done) == (Some(dent), State())
        decreases |rest|
      {
        var (name, rest') := elem.value;
        OneElem(path, done, rest, name, rest');
        StepsMore(fs, disk, start, done, name);
        ghost var rk' := StepKeeps(State(), rk, disk, dent, name);
        var next := TakeStep(disk, dent, name, rk);
        rk := rk';
        done := done + [name];
        if next.None? {
          StepsStop(fs, disk, start, done, Split(rest'));
          return None, rk;
        }
        dent, rest := next.value, rest';
        elem := NextElem(rest);
      }
      assert Split(path) == done;
      r := Some(dent);
    }

    method Resolve(disk: Disk, root: nat, cwd: nat, path: string, ghost rank: seq<nat>) returns (r: Option<nat>)
      requires WellFormed(State(), rank) && root < |dents| && cwd < |dents|
      requires forall n :: n in Split(path) ==> |n| < NAME_MAX
      modifies this
      ensures (r, State()) == Named(old(State()), disk, root, cwd, path)
    {
      if path == [] {
        return None;
      }
      ghost var rk;
      r, rk := WalkPath(disk, if path[0] == '/' then root else cwd, path, rank);
      if r.Some? && dents[r.value].dir && dents[r.value].mounted {
        var dent := GoDown(r.value, rk);
        r := Some(dent);
      }
    }

    /** Puts `name` and a slash before it in front of position `j`. */
    method Prepend(buf: array<char>, j: nat, name: string) returns (j': nat)
      requires |name| < j <= buf.Length
      modifies buf
      ensures j' == j - |name| - 1 && buf[j'..j] == "/" + name
      ensures buf[..j'] == old(buf[..j']) && buf[j..] == old(buf[j..])
    {
      forall i | 0 <= i < |name| {
        buf[j - |name| + i] := name[i];
      }
      j' := j - |name| - 1;
      buf[j'] := '/';
    }

    /** Moves the text at `j .. size` to the front and terminates it. */
    method Shift(buf: array<char>, j: nat, size: nat)
      requires j <= size && buf.Length == size + 1
      modifies buf
      ensures buf[..size - j] == old(buf[j..size]) && buf[size - j] == 0 as char
      ensures j > 0 ==> buf[size] == old(buf[size])
    {
      var n := size - j;
      forall i | 0 <= i < n {
        buf[i] := buf[j + i];
      }
      buf[n] := 0 as char;
    }

    /** The name of `d`, or of what its tree is mounted on, and the parent; none at the top. */
    method NameOf(d: nat, ghost rank: seq<nat>) returns (top: bool, name: string, parent: nat)
      requires WellFormed(State(), rank) && d < |dents|
      ensures parent < |dents| && Above(State(), d) < |dents|
      ensures var x := Above(State(), d);
        top == (dents[x].parent == x) && name == dents[x].name && parent == dents[x].parent
    {
      FollowClosed(State(), d);
      var x := d;
      if dents[d].name == "/" {
        x := GoUp(d, rank);
      }
      top, name, parent := x == dents[x].parent, dents[x].name, dents[x].parent;
    }

    /** Adds a name in front of the path written so far. */
    method AddName(buf: array<char>, j: nat, size: nat, name: string, ghost suf: seq<string>) returns (j': nat)
      requires buf.Length == size + 1 && |name| < j <= size && buf[j..size] == Join(suf)
      modifies buf
      ensures j' == j - |name| - 1 && buf[j'..size] == Join([name] + suf) && buf[size] == old(buf[size])
    {
      JoinCons(name, suf);
      j' := Prepend(buf, j, name);
      assert buf[j'..size] == buf[j'..j] + buf[j..][..size - j];
      assert buf[j..][size - j] == buf[size];
    }

    /** Goes up from `d`, writing names towards the front of the buffer while they fit. */
    method Climb(d: nat, buf: array<char>, size: nat, ghost rank: seq<nat>)
      returns (ok: bool, j: nat, ghost names: seq<string>)
      requires WellFormed(State(), rank) && d < |dents| && buf.Length == size + 1
      modifies buf
      ensures IsPath(State(), d, names)
      ensures ok <==> |Join(names)| <= size
      ensures ok ==> j + |Join(names)| == size && buf[j..size] == Join(names)
      ensures buf[size] == old(buf[size])
    {
      names := PathExists(State(), rank, d);
      ghost var pre, suf := names, [];
      ghost var fs := State();
      var curr: nat := d;
      j, ok := size, true;
      while true
        invariant names == pre + suf && curr < |dents| && IsPath(fs, curr, pre)
        invariant j + |Join(suf)| == size && buf[j..size] == Join(suf)
        invariant buf[size] == old(buf[size])
        decreases |pre|
      {
        var top, name, parent := NameOf(curr, rank);
        OneUp(fs, curr, pre);
        if top {
          assert names == suf;
          return;
        }
        if |name| >= j {
          JoinAppend(pre, suf);
          return false, j, names;
        }
        j := AddName(buf, j, size, name, suf);
        assert pre + suf == Front(pre) + ([name] + suf);
        pre, suf := Front(pre), [name] + suf;
        curr := parent;
      }
    }

    /** Writes the path of `d` into the first `size` bytes of `buf`. It succeeds exactly
        when the path fits; the terminator then goes right after it, which is past the
        buffer when the path fills it. */
    method PathOf(d: nat, buf: array<char>, size: nat, ghost rank: seq<nat>)
      returns (res: int, ghost names: seq<string>)
      requires WellFormed(State(), rank) && d < |dents|
      requires size > 0 && buf.Length == size + 1
      modifies buf
      ensures IsPath(State(), d, names)
      ensures res == 0 <==> |PathString(names)| <= size
      ensures res == 0 || res == -ENAMETOOLONG
      ensures res == 0 ==> var n := |PathString(names)|; buf[..n] == PathString(names) && buf[n] == 0 as char
      ensures |PathString(names)| != size ==> buf[size] == old(buf[size])
    {
      var ok, j;
      ok, j, names := Climb(d, buf, size, rank);
      if !ok {
        return -ENAMETOOLONG, names;
      }
      if j == size {
        j := j - 1;
        buf[j] := '/';
        assert buf[j..size] == "/";
      }
      Shift(buf, j, size);
      res := 0;
    }
  }
}
