/** Directory entries, the mount table, and the two walks over them: from a path
    to an entry (`named`) and from an entry to its path (`dentry_path`). */
module Vfs {
  import opened Common

  /** Entries are numbered; an entry is its own parent when it is the root of a tree. */
  datatype Dentry = Dentry(name: string, parent: nat, child: seq<nat>, dir: bool, mounted: bool)

  datatype Mount = Mount(mntpt: nat, root: nat)

  /** All entries, and the mounts, most recent first. */
  datatype Fs = Fs(dents: seq<Dentry>, mounts: seq<Mount>)

  /** What the file system under a directory entry holds: for a name, whether it is a directory. */
  type Disk = (nat, string) -> Option<bool>

  const NAME_MAX: nat := 64

  // ---------------------------------------------------------------------- path strings

  function SkipSlashes(path: string): (r: string)
    ensures |r| <= |path|
  {
    if path != [] && path[0] == '/' then SkipSlashes(path[1..]) else path
  }

  /** Length of the leading element. */
  function ElemLen(path: string): (n: nat)
    ensures n <= |path|
  {
    if path == [] || path[0] == '/' then 0 else 1 + ElemLen(path[1..])
  }

  /** The next path element and what follows it. Names are cut at NAME_MAX. */
  function SkipElem(path: string): (r: Option<(string, string)>)
    ensures r.Some? ==> |r.value.1| < |path|
  {
    var s := SkipSlashes(path);
    if s == [] then None
    else
      SkippedHead(path);
      var n := ElemLen(s);
      Some((if n >= NAME_MAX then s[..NAME_MAX] else s[..n], SkipSlashes(s[n..])))
  }

  lemma {:induction false} SkippedHead(path: string)
    ensures SkipSlashes(path) != [] ==> SkipSlashes(path)[0] != '/'
  {
    if path != [] && path[0] == '/' { SkippedHead(path[1..]); }
  }

  /** All elements of a path. */
  function Split(path: string): seq<string>
    decreases |path|
  {
    match SkipElem(path)
    case None => []
    case Some((name, rest)) => [name] + Split(rest)
  }

  // ---------------------------------------------------------------------------- mounts

  /** Mount root to mount point; the first entry in the table counts. */
  function UpMap(ms: seq<Mount>): map<nat, nat> {
    if ms == [] then map[] else UpMap(ms[1..])[ms[0].root := ms[0].mntpt]
  }

  /** Mount point to mount root; the first entry in the table counts. */
  function DownMap(ms: seq<Mount>): map<nat, nat> {
    if ms == [] then map[] else DownMap(ms[1..])[ms[0].mntpt := ms[0].root]
  }

  /** Follows `m` as far as it goes, using each entry once. */
  function Chase(m: map<nat, nat>, d: nat): nat
    decreases |m|
  {
    if d in m then
      assert (m - {d}).Keys == m.Keys - {d};
      Chase(m - {d}, m[d])
    else d
  }

  function FollowUp(fs: Fs, d: nat): nat {
    Chase(UpMap(fs.mounts), d)
  }

  function FollowDown(fs: Fs, d: nat): nat {
    Chase(DownMap(fs.mounts), d)
  }

  // --------------------------------------------------------------------------- entries

  /** All references are to existing entries. */
  ghost predicate Closed(fs: Fs) {
    && (forall d :: 0 <= d < |fs.dents| ==> fs.dents[d].parent < |fs.dents|)
    && (forall d, c :: 0 <= d < |fs.dents| && c in fs.dents[d].child ==> c < |fs.dents|)
    && (forall k :: 0 <= k < |fs.mounts| ==> fs.mounts[k].mntpt < |fs.dents| && fs.mounts[k].root < |fs.dents|)
  }

  /** The first entry of `kids` called `name`. */
  function FindChild(dents: seq<Dentry>, kids: seq<nat>, name: string): (r: Option<nat>)
    requires forall c :: c in kids ==> c < |dents|
    ensures r.Some? ==> r.value in kids && dents[r.value].name == name
    ensures r.None? ==> forall c :: c in kids ==> dents[c].name != name
  {
    if kids == [] then None
    else
    assert kids[0] in kids && forall c :: c in kids[1..] ==> c in kids;
    if dents[kids[0]].name == name then Some(kids[0])
    else FindChild(dents, kids[1..], name)
  }

  /** A new entry at the end of its parent's children; without a parent it is a root
      and heads its own children. */
  function Create(fs: Fs, name: string, parent: Option<nat>, dir: bool): Fs
    requires parent.Some? ==> parent.value < |fs.dents|
  {
    var id := |fs.dents|;
    match parent
    case None => fs.(dents := fs.dents + [Dentry(name, id, [id], dir, false)])
    case Some(p) =>
      var pd := fs.dents[p];
      fs.(dents := fs.dents[p := pd.(child := pd.child + [id])] + [Dentry(name, p, [], dir, false)])
  }

  /** The child of `d` called `name`: cached, or read from the file system and cached. */
  function Dget(fs: Fs, disk: Disk, d: nat, name: string): (Option<nat>, Fs)
    requires Closed(fs) && d < |fs.dents|
  {
    match FindChild(fs.dents, fs.dents[d].child, name)
    case Some(c) => (Some(c), fs)
    case None =>
      if fs.dents[d].dir && disk(d, name).Some? then
        (Some(|fs.dents|), Create(fs, name, Some(d), disk(d, name).value))
      else (None, fs)
  }

  /** Where `..` and the upward walk start: tree roots stand for what they are mounted on. */
  function Above(fs: Fs, d: nat): nat
    requires d < |fs.dents|
  {
    if fs.dents[d].name == "/" then FollowUp(fs, d) else d
  }

  function Below(fs: Fs, d: nat): nat
    requires d < |fs.dents|
  {
    if fs.dents[d].mounted then FollowDown(fs, d) else d
  }

  lemma {:induction false} ChaseClosed(m: map<nat, nat>, d: nat, n: nat)
    requires d < n && forall k :: k in m ==> m[k] < n
    ensures Chase(m, d) < n
    decreases |m|
  {
    if d in m {
      assert (m - {d}).Keys == m.Keys - {d};
      ChaseClosed(m - {d}, m[d], n);
    }
  }

  lemma {:induction false} MapsClosed(ms: seq<Mount>, n: nat)
    requires forall k :: 0 <= k < |ms| ==> ms[k].mntpt < n && ms[k].root < n
    ensures forall r :: r in UpMap(ms) ==> UpMap(ms)[r] < n
    ensures forall r :: r in DownMap(ms) ==> DownMap(ms)[r] < n
  {
    if ms != [] { MapsClosed(ms[1..], n); }
  }

  lemma FollowClosed(fs: Fs, d: nat)
    requires Closed(fs) && d < |fs.dents|
    ensures FollowUp(fs, d) < |fs.dents| && FollowDown(fs, d) < |fs.dents|
    ensures Above(fs, d) < |fs.dents| && Below(fs, d) < |fs.dents|
  {
    MapsClosed(fs.mounts, |fs.dents|);
    ChaseClosed(UpMap(fs.mounts), d, |fs.dents|);
    ChaseClosed(DownMap(fs.mounts), d, |fs.dents|);
  }

  lemma CreateClosed(fs: Fs, name: string, parent: Option<nat>, dir: bool)
    requires Closed(fs) && (parent.Some? ==> parent.value < |fs.dents|)
    ensures Closed(Create(fs, name, parent, dir))
  {
  }

  /** Mounts `root` on `mntpt`. */
  function DoMount(fs: Fs, mntpt: nat, root: nat): Fs
    requires mntpt < |fs.dents|
  {
    Fs(fs.dents[mntpt := fs.dents[mntpt].(mounted := true)], [Mount(mntpt, root)] + fs.mounts)
  }

  // ------------------------------------------------------------------------- resolution

  /** One element of a path, taken at entry `d`. */
  function Step(fs: Fs, disk: Disk, d: nat, name: string): (r: (Option<nat>, Fs))
    requires Closed(fs) && d < |fs.dents|
    ensures Closed(r.1) && |r.1.dents| >= |fs.dents| && (r.0.Some? ==> r.0.value < |r.1.dents|)
  {
    FollowClosed(fs, d);
    if !fs.dents[d].dir then (None, fs)
    else if name == "." then (Some(d), fs)
    else if name == ".." then (Some(fs.dents[Above(fs, d)].parent), fs)
    else
      CreateClosed(fs, name, Some(Below(fs, d)), true);
      CreateClosed(fs, name, Some(Below(fs, d)), false);
      Dget(fs, disk, Below(fs, d), name)
  }

  /** The elements one after the other, from entry `d`. */
  function Steps(fs: Fs, disk: Disk, d: nat, names: seq<string>): (r: (Option<nat>, Fs))
    requires Closed(fs) && d < |fs.dents|
    ensures Closed(r.1) && |r.1.dents| >= |fs.dents| && (r.0.Some? ==> r.0.value < |r.1.dents|)
    decreases |names|
  {
    if names == [] then (Some(d), fs)
    else
      var (o, fs') := Steps(fs, disk, d, Front(names));
      if o.None? then (None, fs') else Step(fs', disk, o.value, Last(names))
  }

  /** A path that ends at a mount point stands for what is mounted there. */
  function Arrive(fs: Fs, d: nat): nat
    requires d < |fs.dents|
  {
    if fs.dents[d].dir && fs.dents[d].mounted then FollowDown(fs, d) else d
  }

  /** `named`, for a task with the given root and working directory. */
  function Named(fs: Fs, disk: Disk, root: nat, cwd: nat, path: string): (Option<nat>, Fs)
    requires Closed(fs) && root < |fs.dents| && cwd < |fs.dents|
  {
    if path == [] then (None, fs)
    else
      var (o, fs') := Steps(fs, disk, if path[0] == '/' then root else cwd, Split(path));
      if o.None? then (None, fs') else (Some(Arrive(fs', o.value)), fs')
  }

  // --------------------------------------------------------------------- path of an entry

  /** `names` are the elements from the root of everything down to `d`. */
  ghost predicate IsPath(fs: Fs, d: nat, names: seq<string>)
    requires Closed(fs) && d < |fs.dents|
    decreases |names|
  {
    FollowClosed(fs, d);
    var x := Above(fs, d);
    var p := fs.dents[x].parent;
    if p == x then names == []
    else names != [] && Last(names) == fs.dents[x].name && IsPath(fs, p, Front(names))
  }

  /** Each element after a slash. */
  function Join(names: seq<string>): string {
    if names == [] then "" else Join(Front(names)) + "/" + Last(names)
  }

  function PathString(names: seq<string>): string {
    if names == [] then "/" else Join(names)
  }
}
