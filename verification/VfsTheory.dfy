/** Resolving the path of an entry gives the entry back. */
module VfsTheory {
  import opened Common
  import opened Vfs

  // -------------------------------------------------------------------- well-formedness

  predicate GoodName(name: string) {
    name != "" && '/' !in name && name != "." && name != ".." && |name| < NAME_MAX
  }

  ghost predicate DentryOk(fs: Fs, d: nat)
    requires Closed(fs) && d < |fs.dents|
  {
    var e := fs.dents[d];
    && (e.parent == d ==> e.name == "/")
    && (e.parent != d ==> GoodName(e.name) && d in fs.dents[e.parent].child && fs.dents[e.parent].dir)
    && (forall c :: c in e.child ==> fs.dents[c].parent == d)
    && (forall c, c' :: c in e.child && c' in e.child && fs.dents[c].name == fs.dents[c'].name ==> c == c')
  }

  predicate IsMountPoint(ms: seq<Mount>, d: nat) {
    exists k :: 0 <= k < |ms| && ms[k].mntpt == d
  }

  ghost predicate IsMountRoot(ms: seq<Mount>, d: nat) {
    exists k :: 0 <= k < |ms| && ms[k].root == d
  }

  /** Each mount has its own point and its own root; points are directories, and only
      they carry the mark. */
  ghost predicate TableOk(fs: Fs)
    requires Closed(fs)
  {
    && (forall i, j :: 0 <= i < j < |fs.mounts| ==>
          fs.mounts[i].mntpt != fs.mounts[j].mntpt && fs.mounts[i].root != fs.mounts[j].root)
    && (forall k :: 0 <= k < |fs.mounts| ==> fs.dents[fs.mounts[k].mntpt].dir)
    && (forall d :: 0 <= d < |fs.dents| ==> (fs.dents[d].mounted <==> IsMountPoint(fs.mounts, d)))
  }

  /** Parents come before children and mount points before what is mounted on them:
      nothing is above itself. */
  ghost predicate Ranked(fs: Fs, rank: seq<nat>)
    requires Closed(fs)
  {
    && |rank| == |fs.dents|
    && (forall d :: 0 <= d < |fs.dents| && fs.dents[d].parent != d ==> rank[fs.dents[d].parent] < rank[d])
    && (forall k :: 0 <= k < |fs.mounts| ==> rank[fs.mounts[k].mntpt] < rank[fs.mounts[k].root])
  }

  ghost predicate WellFormed(fs: Fs, rank: seq<nat>) {
    && Closed(fs)
    && (forall d: nat {:trigger DentryOk(fs, d)} :: d < |fs.dents| ==> DentryOk(fs, d))
    && TableOk(fs)
    && Ranked(fs, rank)
  }

  // ------------------------------------------------------------------------ mount chains

  /** Along `m` the weight drops, so that no chain returns to where it was. */
  ghost predicate Falls(m: map<nat, nat>, w: seq<nat>) {
    forall d :: d in m ==> d < |w| && m[d] < |w| && w[m[d]] < w[d]
  }

  lemma {:induction false} ChaseDrop(m: map<nat, nat>, w: seq<nat>, x: nat, e: nat)
    requires Falls(m, w) && x < |w| && e < |w| && w[e] < w[x]
    ensures Chase(m - {x}, e) == Chase(m, e)
    decreases |m|
  {
    if e in m {
      assert (m - {e}).Keys == m.Keys - {e};
      assert m - {x} - {e} == m - {e} - {x};
      ChaseDrop(m - {e}, w, x, m[e]);
    }
  }

  /** One hop of a chain. */
  lemma ChaseHop(m: map<nat, nat>, w: seq<nat>, d: nat)
    requires Falls(m, w) && d in m
    ensures Chase(m, d) == Chase(m, m[d])
  {
    ChaseDrop(m, w, d, m[d]);
  }

  ghost predicate Inverse(u: map<nat, nat>, v: map<nat, nat>) {
    && (forall r :: r in u ==> u[r] in v && v[u[r]] == r)
    && (forall r :: r in v ==> v[r] in u && u[v[r]] == r)
  }

  /** Going up and then down ends where going down from the start does. */
  lemma {:induction false} UpThenDown(u: map<nat, nat>, v: map<nat, nat>, w: seq<nat>, w': seq<nat>, d: nat)
    requires Inverse(u, v) && Falls(u, w) && Falls(v, w') && d < |w|
    ensures Chase(v, Chase(u, d)) == Chase(v, d)
    decreases w[d]
  {
    if d in u {
      ChaseHop(u, w, d);
      UpThenDown(u, v, w, w', u[d]);
      ChaseHop(v, w', u[d]);
    }
  }

  lemma {:induction false} UpMapIs(ms: seq<Mount>)
    requires forall i, j :: 0 <= i < j < |ms| ==> ms[i].root != ms[j].root
    ensures forall k :: 0 <= k < |ms| ==> ms[k].root in UpMap(ms) && UpMap(ms)[ms[k].root] == ms[k].mntpt
    ensures forall r :: r in UpMap(ms) ==> exists k :: 0 <= k < |ms| && ms[k].root == r && ms[k].mntpt == UpMap(ms)[r]
  {
    if ms != [] {
      var t := ms[1..];
      assert forall k :: 0 < k < |ms| ==> ms[k] == t[k - 1];
      UpMapIs(t);
      forall r | r in UpMap(ms) ensures exists k :: 0 <= k < |ms| && ms[k].root == r && ms[k].mntpt == UpMap(ms)[r] {
        if r != ms[0].root {
          var k :| 0 <= k < |t| && t[k].root == r && t[k].mntpt == UpMap(t)[r];
          assert ms[k + 1] == t[k];
        }
      }
    }
  }

  lemma {:induction false} DownMapIs(ms: seq<Mount>)
    requires forall i, j :: 0 <= i < j < |ms| ==> ms[i].mntpt != ms[j].mntpt
    ensures forall k :: 0 <= k < |ms| ==> ms[k].mntpt in DownMap(ms) && DownMap(ms)[ms[k].mntpt] == ms[k].root
    ensures forall r :: r in DownMap(ms) ==>
      exists k :: 0 <= k < |ms| && ms[k].mntpt == r && ms[k].root == DownMap(ms)[r]
  {
    if ms != [] {
      var t := ms[1..];
      assert forall k :: 0 < k < |ms| ==> ms[k] == t[k - 1];
      DownMapIs(t);
      forall r | r in DownMap(ms)
        ensures exists k :: 0 <= k < |ms| && ms[k].mntpt == r && ms[k].root == DownMap(ms)[r]
      {
        if r != ms[0].mntpt {
          var k :| 0 <= k < |t| && t[k].mntpt == r && t[k].root == DownMap(t)[r];
          assert ms[k + 1] == t[k];
        }
      }
    }
  }

  lemma MapsAre(ms: seq<Mount>)
    requires forall i, j :: 0 <= i < j < |ms| ==> ms[i].mntpt != ms[j].mntpt && ms[i].root != ms[j].root
    ensures forall k :: 0 <= k < |ms| ==> ms[k].root in UpMap(ms) && UpMap(ms)[ms[k].root] == ms[k].mntpt
    ensures forall k :: 0 <= k < |ms| ==> ms[k].mntpt in DownMap(ms) && DownMap(ms)[ms[k].mntpt] == ms[k].root
    ensures forall r :: r in UpMap(ms) ==> exists k :: 0 <= k < |ms| && ms[k].root == r && ms[k].mntpt == UpMap(ms)[r]
    ensures forall r :: r in DownMap(ms) ==>
      exists k :: 0 <= k < |ms| && ms[k].mntpt == r && ms[k].root == DownMap(ms)[r]
  {
    UpMapIs(ms);
    DownMapIs(ms);
  }

  /** A number above all ranks. */
  ghost function Ceiling(rank: seq<nat>): (n: nat)
    ensures forall i :: 0 <= i < |rank| ==> rank[i] < n
  {
    if rank == [] then 0
    else
      var n := Ceiling(Front(rank));
      assert forall i :: 0 <= i < |rank| - 1 ==> rank[i] == Front(rank)[i];
      if n <= Last(rank) then Last(rank) + 1 else n
  }

  ghost function Flip(rank: seq<nat>, i: nat): nat
    requires i < |rank|
  {
    Ceiling(rank) - rank[i]
  }

  /** Ranks counted from the top. */
  ghost function Flipped(rank: seq<nat>): (w: seq<nat>)
    ensures |w| == |rank| && forall i :: 0 <= i < |w| ==> w[i] == Ceiling(rank) - rank[i]
  {
    seq(|rank|, i requires 0 <= i < |rank| => Flip(rank, i))
  }

  lemma TableMaps(fs: Fs, rank: seq<nat>)
    requires WellFormed(fs, rank)
    ensures Inverse(UpMap(fs.mounts), DownMap(fs.mounts))
    ensures Falls(UpMap(fs.mounts), rank) && Falls(DownMap(fs.mounts), Flipped(rank))
    ensures forall d :: d in DownMap(fs.mounts) <==> IsMountPoint(fs.mounts, d)
  {
    MapsAre(fs.mounts);
    MapsInverse(fs.mounts);
    MapsFall(fs, rank);
  }

  lemma MapsInverse(ms: seq<Mount>)
    requires forall i, j :: 0 <= i < j < |ms| ==> ms[i].mntpt != ms[j].mntpt && ms[i].root != ms[j].root
    ensures Inverse(UpMap(ms), DownMap(ms))
  {
    MapsAre(ms);
    forall r | r in UpMap(ms) ensures UpMap(ms)[r] in DownMap(ms) && DownMap(ms)[UpMap(ms)[r]] == r {
      var k :| 0 <= k < |ms| && ms[k].root == r && ms[k].mntpt == UpMap(ms)[r];
    }
    forall r | r in DownMap(ms) ensures DownMap(ms)[r] in UpMap(ms) && UpMap(ms)[DownMap(ms)[r]] == r {
      var k :| 0 <= k < |ms| && ms[k].mntpt == r && ms[k].root == DownMap(ms)[r];
    }
  }

  lemma MapsFall(fs: Fs, rank: seq<nat>)
    requires WellFormed(fs, rank)
    ensures Falls(UpMap(fs.mounts), rank) && Falls(DownMap(fs.mounts), Flipped(rank))
  {
    MapsAre(fs.mounts);
    var u, v := UpMap(fs.mounts), DownMap(fs.mounts);
    forall r | r in u ensures r < |rank| && u[r] < |rank| && rank[u[r]] < rank[r] {
      var k :| 0 <= k < |fs.mounts| && fs.mounts[k].root == r && fs.mounts[k].mntpt == u[r];
      MountRank(fs, rank, k);
    }
    var w := Flipped(rank);
    forall r | r in v ensures r < |w| && v[r] < |w| && w[v[r]] < w[r] {
      var k :| 0 <= k < |fs.mounts| && fs.mounts[k].mntpt == r && fs.mounts[k].root == v[r];
      MountRank(fs, rank, k);
    }
  }

  lemma MountRank(fs: Fs, rank: seq<nat>, k: nat)
    requires WellFormed(fs, rank) && k < |fs.mounts|
    ensures var m, w := fs.mounts[k], Flipped(rank);
      && m.mntpt < |rank| && m.root < |rank| && rank[m.mntpt] < rank[m.root] && w[m.root] < w[m.mntpt]
  {
  }

  /** An entry that is reached by going up leads back down to where a plain descent leads. */
  lemma AboveBelow(fs: Fs, rank: seq<nat>, d: nat)
    requires WellFormed(fs, rank) && d < |fs.dents|
    ensures Above(fs, d) < |fs.dents|
    ensures Below(fs, Above(fs, d)) == FollowDown(fs, d)
    ensures Arrive(fs, Above(fs, d)) == FollowDown(fs, d)
    ensures Above(fs, d) == d || (fs.dents[Above(fs, d)].mounted && fs.dents[Above(fs, d)].dir)
  {
    TableMaps(fs, rank);
    FollowClosed(fs, d);
    UpThenDown(UpMap(fs.mounts), DownMap(fs.mounts), rank, Flipped(rank), d);
    var x := Above(fs, d);
    if x != d { ChaseEnds(UpMap(fs.mounts), DownMap(fs.mounts), d); }
    if fs.dents[x].mounted {
      var k :| 0 <= k < |fs.mounts| && fs.mounts[k].mntpt == x;
    }
  }

  lemma {:induction false} ChaseEnds(u: map<nat, nat>, v: map<nat, nat>, d: nat)
    requires forall r :: r in u ==> u[r] in v
    requires Chase(u, d) != d
    ensures Chase(u, d) in v
    decreases |u|
  {
    if d in u && Chase(u, d) != u[d] {
      assert (u - {d}).Keys == u.Keys - {d};
      ChaseEnds(u - {d}, v, u[d]);
    }
  }

  // -------------------------------------------------------------------------- path strings

  lemma {:induction false} JoinCons(name: string, names: seq<string>)
    ensures Join([name] + names) == "/" + name + Join(names)
    decreases |names|
  {
    if names == [] {
      assert [name] + names == [name] && Front([name]) == [];
    } else {
      assert Front([name] + names) == [name] + Front(names);
      JoinCons(name, Front(names));
    }
  }

  lemma {:induction false} ElemLenOf(name: string, rest: string)
    requires '/' !in name && (rest == [] || rest[0] == '/')
    ensures ElemLen(name + rest) == |name|
  {
    if name != [] {
      assert (name + rest)[1..] == name[1..] + rest;
      ElemLenOf(name[1..], rest);
    }
  }

  lemma JoinHead(names: seq<string>)
    requires names != [] && forall n :: n in names ==> GoodName(n)
    ensures Join(names) != [] && Join(names)[0] == '/'
    ensures SkipSlashes(Join(names)) == names[0] + Join(names[1..])
  {
    var t := names[1..];
    assert names == [names[0]] + t;
    JoinCons(names[0], t);
    assert GoodName(names[0]) && names[0][0] in names[0];
    SkipOne(names[0], Join(t));
  }

  lemma SkipOne(name: string, rest: string)
    requires name != "" && name[0] != '/'
    ensures SkipSlashes("/" + name + rest) == name + rest
  {
    var s := name + rest;
    assert "/" + name + rest == "/" + s && ("/" + s)[1..] == s && s[0] == name[0];
  }

  /** Cutting a path built from names gives the names back. */
  lemma {:induction false} SplitJoin(names: seq<string>)
    requires forall n :: n in names ==> GoodName(n)
    ensures Split(Join(names)) == names
    ensures Split(SkipSlashes(Join(names))) == names
    decreases |names|
  {
    if names != [] {
      var name, t := names[0], names[1..];
      var rest := Join(t);
      JoinHead(names);
      assert GoodName(name);
      if t != [] { JoinHead(t); }
      ElemLenOf(name, rest);
      var s := name + rest;
      assert s[..|name|] == name && s[|name|..] == rest;
      SplitJoin(t);
      assert SkipElem(Join(names)) == Some((name, SkipSlashes(rest)));
      assert name[0] in name;
      assert SkipSlashes(s) == s;
      assert names == [name] + t;
    }
  }

  // ------------------------------------------------------------------------- round trip

  /** `d` is reached by `names` from `root`, or from what `root` is mounted on, and no directory
      on the way is hidden under a mount. (`d` itself may be.) */
  ghost predicate Reached(fs: Fs, root: nat, d: nat, names: seq<string>)
    requires Closed(fs) && d < |fs.dents|
    decreases |names|
  {
    FollowClosed(fs, d);
    var x := Above(fs, d);
    var p := fs.dents[x].parent;
    if p == x then names == [] && FollowDown(fs, x) == FollowDown(fs, root)
    else
      && names != [] && Last(names) == fs.dents[x].name
      && !IsMountPoint(fs.mounts, p)
      && Reached(fs, root, p, Front(names))
  }

  lemma {:induction false} ReachedIsPath(fs: Fs, root: nat, d: nat, names: seq<string>)
    requires Closed(fs) && d < |fs.dents| && Reached(fs, root, d, names)
    ensures IsPath(fs, d, names)
    decreases |names|
  {
    FollowClosed(fs, d);
    if names != [] { ReachedIsPath(fs, root, fs.dents[Above(fs, d)].parent, Front(names)); }
  }

  lemma {:induction false} IsPathUnique(fs: Fs, d: nat, names: seq<string>, names': seq<string>)
    requires Closed(fs) && d < |fs.dents| && IsPath(fs, d, names) && IsPath(fs, d, names')
    ensures names == names'
    decreases |names|
  {
    FollowClosed(fs, d);
    if names != [] && names' != [] {
      IsPathUnique(fs, fs.dents[Above(fs, d)].parent, Front(names), Front(names'));
      assert names == Front(names) + [Last(names)] && names' == Front(names') + [Last(names')];
    }
  }

  lemma UncoveredStays(fs: Fs, rank: seq<nat>, d: nat)
    requires WellFormed(fs, rank) && d < |fs.dents|
    ensures FollowDown(fs, d) == d <==> !IsMountPoint(fs.mounts, d)
  {
    TableMaps(fs, rank);
    var m := DownMap(fs.mounts);
    if d in m {
      ChaseHop(m, Flipped(rank), d);
      ChaseFalls(m, Flipped(rank), m[d]);
    }
  }

  lemma {:induction false} ChaseFalls(m: map<nat, nat>, w: seq<nat>, d: nat)
    requires Falls(m, w) && d < |w|
    ensures Chase(m, d) < |w| && w[Chase(m, d)] <= w[d]
    decreases |m|
  {
    if d in m {
      assert (m - {d}).Keys == m.Keys - {d};
      ChaseFalls(m - {d}, w, m[d]);
    }
  }

  /** In a well-formed forest both ways of going down are the same. */
  lemma Descend(fs: Fs, rank: seq<nat>, d: nat)
    requires WellFormed(fs, rank) && d < |fs.dents|
    ensures Below(fs, d) == FollowDown(fs, d) == Arrive(fs, d)
    ensures FollowDown(fs, d) < |fs.dents| && !IsMountPoint(fs.mounts, FollowDown(fs, d))
    ensures FollowDown(fs, d) != d ==> fs.dents[d].dir
  {
    TableMaps(fs, rank);
    FollowClosed(fs, d);
    UncoveredStays(fs, rank, d);
    ChaseOut(DownMap(fs.mounts), Flipped(rank), d);
    if fs.dents[d].mounted {
      var k :| 0 <= k < |fs.mounts| && fs.mounts[k].mntpt == d;
    }
  }

  /** One element: from anything that leads down to directory `p`, its child `x` is found. */
  lemma StepToChild(fs: Fs, rank: seq<nat>, disk: Disk, e: nat, x: nat)
    requires WellFormed(fs, rank) && x < |fs.dents| && fs.dents[x].parent != x
    requires e < |fs.dents| && FollowDown(fs, e) == fs.dents[x].parent
    ensures Step(fs, disk, e, fs.dents[x].name) == (Some(x), fs)
  {
    var p, name := fs.dents[x].parent, fs.dents[x].name;
    assert DentryOk(fs, x) && DentryOk(fs, p);
    Descend(fs, rank, e);
    var r := FindChild(fs.dents, fs.dents[p].child, name);
    assert r == Some(x);
  }

  lemma {:induction false} PathNames(fs: Fs, rank: seq<nat>, d: nat, names: seq<string>)
    requires WellFormed(fs, rank) && d < |fs.dents| && IsPath(fs, d, names)
    ensures forall n :: n in names ==> GoodName(n)
    decreases |names|
  {
    FollowClosed(fs, d);
    var x := Above(fs, d);
    if names != [] {
      PathNames(fs, rank, fs.dents[x].parent, Front(names));
      assert DentryOk(fs, x);
      assert names == Front(names) + [Last(names)];
    }
  }

  /** A chain of mounts: each entry but the last is the mount point of the next. */
  ghost predicate Chained(ms: seq<Mount>, c: seq<nat>) {
    c != [] && forall i :: 0 <= i < |c| - 1 ==> Mount(c[i], c[i + 1]) in ms
  }

  /** From `d` down through all mounts. */
  ghost predicate Bottom(ms: seq<Mount>, d: nat, q: nat) {
    !IsMountPoint(ms, q) && exists c: seq<nat> :: Chained(ms, c) && c[0] == d && Last(c) == q
  }

  /** From `d` up through all mounts. */
  ghost predicate Top(ms: seq<Mount>, d: nat, q: nat) {
    !IsMountRoot(ms, q) && exists c: seq<nat> :: Chained(ms, c) && c[0] == q && Last(c) == d
  }

  /** One element of a path leads from directory `d` to `e`: `.` to the directory itself, `..` to
      the parent, for the root of a tree that of the topmost place where it is mounted, and a name
      to the entry of that name in what is mounted at `d`. */
  ghost predicate Goes(fs: Fs, d: nat, name: string, e: nat) {
    && d < |fs.dents| && e < |fs.dents| && fs.dents[d].dir
    && if name == "." then e == d
       else if name == ".." then
         exists x: nat :: x < |fs.dents| && e == fs.dents[x].parent
                          && if fs.dents[d].name == "/" then Top(fs.mounts, d, x) else x == d
       else Bottom(fs.mounts, d, fs.dents[e].parent) && fs.dents[e].parent != e && fs.dents[e].name == name
  }

  /** `e` is seen at `names` from `start`. */
  ghost predicate Seen(fs: Fs, start: nat, e: nat, names: seq<string>)
    decreases |names|
  {
    if names == [] then e == start < |fs.dents|
    else exists e': nat :: Seen(fs, start, e', Front(names)) && Goes(fs, e', Last(names), e)
  }

  lemma {:induction false} ChainDown(fs: Fs, rank: seq<nat>, c: seq<nat>)
    requires WellFormed(fs, rank) && Chained(fs.mounts, c) && !IsMountPoint(fs.mounts, Last(c))
    ensures FollowDown(fs, c[0]) == Last(c)
    decreases |c|
  {
    TableMaps(fs, rank);
    if |c| > 1 {
      assert Mount(c[0], c[1]) in fs.mounts;
      MapsAre(fs.mounts);
      ChaseHop(DownMap(fs.mounts), Flipped(rank), c[0]);
      ChainRest(fs.mounts, c);
      ChainDown(fs, rank, c[1..]);
    }
  }

  lemma ChainRest(ms: seq<Mount>, c: seq<nat>)
    requires Chained(ms, c) && |c| > 1
    ensures Chained(ms, c[1..]) && Last(c[1..]) == Last(c) && c[1..][0] == c[1]
    ensures Chained(ms, Front(c)) && Last(Front(c)) == c[|c| - 2] && Front(c)[0] == c[0]
  {
    var t := c[1..];
    forall i | 0 <= i < |t| - 1 ensures Mount(t[i], t[i + 1]) in ms { assert Mount(c[i + 1], c[i + 2]) in ms; }
  }

  lemma {:induction false} ChainUp(fs: Fs, rank: seq<nat>, c: seq<nat>)
    requires WellFormed(fs, rank) && Chained(fs.mounts, c) && !IsMountRoot(fs.mounts, c[0])
    ensures FollowUp(fs, Last(c)) == c[0]
    decreases |c|
  {
    TableMaps(fs, rank);
    MapsAre(fs.mounts);
    if |c| > 1 {
      var k := |c| - 2;
      assert Mount(c[k], c[k + 1]) in fs.mounts;
      ChaseHop(UpMap(fs.mounts), rank, Last(c));
      ChainRest(fs.mounts, c);
      ChainUp(fs, rank, Front(c));
    } else {
      assert c[0] !in UpMap(fs.mounts);
    }
  }

  lemma {:induction false} DownChain(fs: Fs, rank: seq<nat>, d: nat) returns (c: seq<nat>)
    requires WellFormed(fs, rank) && d < |fs.dents|
    ensures Chained(fs.mounts, c) && c[0] == d && !IsMountPoint(fs.mounts, Last(c))
    decreases Flipped(rank)[d]
  {
    c := [d];
    if IsMountPoint(fs.mounts, d) {
      var k :| 0 <= k < |fs.mounts| && fs.mounts[k].mntpt == d;
      MountRank(fs, rank, k);
      var t := DownChain(fs, rank, fs.mounts[k].root);
      c := [d] + t;
      assert fs.mounts[k] == Mount(d, t[0]);
      assert forall i :: 0 < i < |c| ==> c[i] == t[i - 1];
    }
  }

  lemma {:induction false} UpChain(fs: Fs, rank: seq<nat>, d: nat) returns (c: seq<nat>)
    requires WellFormed(fs, rank) && d < |fs.dents|
    ensures Chained(fs.mounts, c) && Last(c) == d && !IsMountRoot(fs.mounts, c[0])
    decreases rank[d]
  {
    c := [d];
    if IsMountRoot(fs.mounts, d) {
      var k :| 0 <= k < |fs.mounts| && fs.mounts[k].root == d;
      MountRank(fs, rank, k);
      var t := UpChain(fs, rank, fs.mounts[k].mntpt);
      c := t + [d];
      assert fs.mounts[k] == Mount(Last(t), d);
    }
  }

  /** The scans of the mount table go all the way. */
  lemma BottomIs(fs: Fs, rank: seq<nat>, d: nat, q: nat)
    requires WellFormed(fs, rank) && d < |fs.dents|
    ensures Bottom(fs.mounts, d, q) <==> FollowDown(fs, d) == q
  {
    if Bottom(fs.mounts, d, q) {
      var c: seq<nat> :| Chained(fs.mounts, c) && c[0] == d && Last(c) == q;
      ChainDown(fs, rank, c);
    } else if FollowDown(fs, d) == q {
      var c := DownChain(fs, rank, d);
      ChainDown(fs, rank, c);
    }
  }

  lemma TopIs(fs: Fs, rank: seq<nat>, d: nat, q: nat)
    requires WellFormed(fs, rank) && d < |fs.dents|
    ensures Top(fs.mounts, d, q) <==> FollowUp(fs, d) == q
  {
    if Top(fs.mounts, d, q) {
      var c: seq<nat> :| Chained(fs.mounts, c) && c[0] == q && Last(c) == d;
      ChainUp(fs, rank, c);
    } else if FollowUp(fs, d) == q {
      var c := UpChain(fs, rank, d);
      ChainUp(fs, rank, c);
    }
  }

  /** Where an element leads, the walk goes, and it creates nothing. */
  lemma GoesIsStepped(fs: Fs, rank: seq<nat>, disk: Disk, d: nat, name: string, e: nat)
    requires WellFormed(fs, rank) && Goes(fs, d, name, e)
    ensures Step(fs, disk, d, name) == (Some(e), fs)
  {
    if name == "." {
    } else if name == ".." {
      var x: nat :| x < |fs.dents| && e == fs.dents[x].parent
                    && if fs.dents[d].name == "/" then Top(fs.mounts, d, x) else x == d;
      TopIs(fs, rank, d, x);
    } else {
      BottomIs(fs, rank, d, fs.dents[e].parent);
      StepToChild(fs, rank, disk, d, e);
    }
  }

  /** What is seen is walked to, and the walk creates nothing. */
  lemma {:induction false} SeenIsWalked(fs: Fs, rank: seq<nat>, disk: Disk, root: nat, e: nat, names: seq<string>)
    requires WellFormed(fs, rank) && root < |fs.dents| && Seen(fs, root, e, names)
    ensures Steps(fs, disk, root, names) == (Some(e), fs)
    decreases |names|
  {
    if names != [] {
      var e': nat :| Seen(fs, root, e', Front(names)) && Goes(fs, e', Last(names), e);
      SeenIsWalked(fs, rank, disk, root, e', Front(names));
      GoesIsStepped(fs, rank, disk, e', Last(names), e);
    }
  }

  /** An entry that no mount hides is seen, or leads down to where something seen does. */
  lemma {:induction false} ReachedIsSeen(fs: Fs, rank: seq<nat>, root: nat, d: nat, names: seq<string>)
      returns (e: nat)
    requires WellFormed(fs, rank) && root < |fs.dents| && d < |fs.dents| && Reached(fs, root, d, names)
    ensures Seen(fs, root, e, names) && FollowDown(fs, e) == FollowDown(fs, d)
    ensures e == if names == [] then root else Above(fs, d)
    decreases |names|
  {
    FollowClosed(fs, d);
    AboveBelow(fs, rank, d);
    var x := Above(fs, d);
    Descend(fs, rank, x);
    if names == [] {
      e := root;
    } else {
      var p := fs.dents[x].parent;
      var e' := ReachedIsSeen(fs, rank, root, p, Front(names));
      UncoveredStays(fs, rank, p);
      BottomIs(fs, rank, e', p);
      Descend(fs, rank, e');
      assert DentryOk(fs, x);
      assert GoodName(fs.dents[x].name) && Goes(fs, e', Last(names), x);
      e := x;
    }
  }

  /** Resolving the path of an entry that no mount hides gives the top of what is mounted on it:
      the entry itself exactly when it is not a mount point. The walk creates nothing. */
  lemma RoundTrip(fs: Fs, rank: seq<nat>, disk: Disk, root: nat, cwd: nat, d: nat, names: seq<string>)
    requires WellFormed(fs, rank) && root < |fs.dents| && cwd < |fs.dents| && d < |fs.dents|
    requires Reached(fs, root, d, names)
    ensures IsPath(fs, d, names)
    ensures Named(fs, disk, root, cwd, PathString(names)) == (Some(FollowDown(fs, d)), fs)
    ensures Named(fs, disk, root, cwd, PathString(names)).0 == Some(d) <==> !IsMountPoint(fs.mounts, d)
  {
    ReachedIsPath(fs, root, d, names);
    PathNames(fs, rank, d, names);
    SplitPath(names);
    var e := ReachedIsSeen(fs, rank, root, d, names);
    SeenIsWalked(fs, rank, disk, root, e, names);
    Descend(fs, rank, e);
    UncoveredStays(fs, rank, d);
  }

  lemma SplitPath(names: seq<string>)
    requires forall n :: n in names ==> GoodName(n)
    ensures var path := PathString(names); path != [] && path[0] == '/' && Split(path) == names
  {
    if names == [] {
      assert SkipSlashes("/") == SkipSlashes("/"[1..]) == "";
    } else {
      SplitJoin(names);
      JoinHead(names);
    }
  }

  /** Every entry has a path. */
  lemma {:induction false} PathExists(fs: Fs, rank: seq<nat>, d: nat) returns (names: seq<string>)
    requires WellFormed(fs, rank) && d < |fs.dents|
    ensures IsPath(fs, d, names)
    decreases rank[d]
  {
    FollowClosed(fs, d);
    TableMaps(fs, rank);
    ChaseFalls(UpMap(fs.mounts), rank, d);
    var x := Above(fs, d);
    var p := fs.dents[x].parent;
    if p == x {
      names := [];
    } else {
      var up := PathExists(fs, rank, p);
      names := up + [fs.dents[x].name];
      assert Front(names) == up;
    }
  }

  // ----------------------------------------------------------- what the operations keep

  /** `e` is directly above `d`: its parent, or the point it is mounted on. */
  ghost predicate DirectlyAbove(fs: Fs, d: nat, e: nat) {
    && d < |fs.dents| && e < |fs.dents|
    && ((fs.dents[d].parent == e && e != d) || Mount(e, d) in fs.mounts)
  }

  /** Going up from `d`, by parents and mount points, one can come to `r`. */
  ghost predicate Under(fs: Fs, rank: seq<nat>, d: nat, r: nat)
    requires WellFormed(fs, rank) && d < |fs.dents|
    decreases rank[d]
  {
    d == r || exists e: nat :: DirectlyAbove(fs, d, e) && rank[e] < rank[d] && Under(fs, rank, e, r)
  }

  ghost function Lifted(fs: Fs, rank: seq<nat>, root: nat, k: nat): (r: seq<nat>)
    requires WellFormed(fs, rank)
    ensures |r| == |rank|
    ensures forall d :: 0 <= d < |r| ==> r[d] == rank[d] + if Under(fs, rank, d, root) then k else 0
  {
    seq(|rank|, d requires 0 <= d < |rank| => rank[d] + if Under(fs, rank, d, root) then k else 0)
  }

  /** What a caller of `do_mount` has to see to. */
  ghost predicate MayMount(fs: Fs, mntpt: nat, root: nat) {
    && mntpt < |fs.dents| && root < |fs.dents|
    && fs.dents[mntpt].dir && !IsMountPoint(fs.mounts, mntpt) && !IsMountRoot(fs.mounts, root)
  }

  lemma MountTable(fs: Fs, rank: seq<nat>, mntpt: nat, root: nat)
    requires WellFormed(fs, rank) && MayMount(fs, mntpt, root)
    ensures Closed(DoMount(fs, mntpt, root)) && TableOk(DoMount(fs, mntpt, root))
  {
    var fs' := DoMount(fs, mntpt, root);
    var ms, ms' := fs.mounts, fs'.mounts;
    assert forall k :: 0 < k < |ms'| ==> ms'[k] == ms[k - 1];
    forall d | 0 <= d < |fs'.dents| ensures fs'.dents[d].mounted <==> IsMountPoint(ms', d) {
      if d == mntpt {
        assert ms'[0].mntpt == d;
      } else if IsMountPoint(ms, d) {
        var k :| 0 <= k < |ms| && ms[k].mntpt == d;
        assert ms'[k + 1].mntpt == d;
      }
    }
  }

  lemma MountForest(fs: Fs, rank: seq<nat>, mntpt: nat, root: nat)
    requires WellFormed(fs, rank) && MayMount(fs, mntpt, root)
    ensures Closed(DoMount(fs, mntpt, root)) && TableOk(DoMount(fs, mntpt, root))
    ensures forall d: nat {:trigger DentryOk(DoMount(fs, mntpt, root), d)} ::
      d < |fs.dents| ==> DentryOk(DoMount(fs, mntpt, root), d)
  {
    MountTable(fs, rank, mntpt, root);
    var fs' := DoMount(fs, mntpt, root);
    forall d: nat | d < |fs.dents| ensures DentryOk(fs', d) { assert DentryOk(fs, d); }
  }

  /** Lifting what lies under `root` keeps every step upwards a step down in rank. */
  lemma LiftedFalls(fs: Fs, rank: seq<nat>, root: nat, k: nat, d: nat, e: nat)
    requires WellFormed(fs, rank) && DirectlyAbove(fs, d, e) && rank[e] < rank[d]
    ensures Lifted(fs, rank, root, k)[e] < Lifted(fs, rank, root, k)[d]
  {
    if Under(fs, rank, e, root) { assert Under(fs, rank, d, root); }
  }

  /** Mounting keeps everything in order unless the mount point lies under the new root ... */
  lemma MountKeeps(fs: Fs, rank: seq<nat>, mntpt: nat, root: nat) returns (rank': seq<nat>)
    requires WellFormed(fs, rank) && MayMount(fs, mntpt, root) && !Under(fs, rank, mntpt, root)
    ensures WellFormed(DoMount(fs, mntpt, root), rank')
  {
    MountForest(fs, rank, mntpt, root);
    rank' := Lifted(fs, rank, root, rank[mntpt] + 1);
    MountRanked(fs, rank, mntpt, root);
  }

  lemma MountRanked(fs: Fs, rank: seq<nat>, mntpt: nat, root: nat)
    requires WellFormed(fs, rank) && MayMount(fs, mntpt, root) && !Under(fs, rank, mntpt, root)
    requires Closed(DoMount(fs, mntpt, root))
    ensures Ranked(DoMount(fs, mntpt, root), Lifted(fs, rank, root, rank[mntpt] + 1))
  {
    var fs', k := DoMount(fs, mntpt, root), rank[mntpt] + 1;
    var rank' := Lifted(fs, rank, root, k);
    forall d | 0 <= d < |fs'.dents| && fs'.dents[d].parent != d ensures rank'[fs'.dents[d].parent] < rank'[d] {
      assert DirectlyAbove(fs, d, fs.dents[d].parent);
      LiftedFalls(fs, rank, root, k, d, fs.dents[d].parent);
    }
    assert rank'[mntpt] < rank'[root] by { assert Under(fs, rank, root, root); }
    forall i | 0 <= i < |fs.mounts| ensures rank'[fs.mounts[i].mntpt] < rank'[fs.mounts[i].root] {
      MountFalls(fs, rank, root, k, i);
    }
    assert forall i :: 0 < i < |fs'.mounts| ==> fs'.mounts[i] == fs.mounts[i - 1];
  }

  lemma MountFalls(fs: Fs, rank: seq<nat>, root: nat, k: nat, i: nat)
    requires WellFormed(fs, rank) && i < |fs.mounts|
    ensures Lifted(fs, rank, root, k)[fs.mounts[i].mntpt] < Lifted(fs, rank, root, k)[fs.mounts[i].root]
  {
    var m := fs.mounts[i];
    assert m == Mount(m.mntpt, m.root) && m in fs.mounts;
    LiftedFalls(fs, rank, root, k, m.root, m.mntpt);
  }

  /** ... and then it never does: some entry would lie above itself. */
  lemma {:induction false} UnderIsHigher(fs: Fs, rank: seq<nat>, d: nat, root: nat, mntpt: nat, rank': seq<nat>)
    requires WellFormed(fs, rank) && d < |fs.dents| && root < |fs.dents| && mntpt < |fs.dents|
    requires Under(fs, rank, d, root)
    requires Closed(DoMount(fs, mntpt, root)) && Ranked(DoMount(fs, mntpt, root), rank')
    ensures rank'[root] <= rank'[d]
    decreases rank[d]
  {
    if d != root {
      var e: nat :| DirectlyAbove(fs, d, e) && rank[e] < rank[d] && Under(fs, rank, e, root);
      UnderIsHigher(fs, rank, e, root, mntpt, rank');
      var fs' := DoMount(fs, mntpt, root);
      assert fs'.dents[d].parent == fs.dents[d].parent;
      if Mount(e, d) in fs.mounts {
        var k :| 0 <= k < |fs.mounts| && fs.mounts[k] == Mount(e, d);
        assert fs'.mounts[k + 1] == Mount(e, d);
      }
    }
  }

  /** A mount keeps everything in order exactly if its point is a directory on which nothing is
      mounted yet, its root is mounted nowhere yet, and the point does not lie under the root. */
  lemma MountExactly(fs: Fs, rank: seq<nat>, mntpt: nat, root: nat)
    requires WellFormed(fs, rank) && mntpt < |fs.dents| && root < |fs.dents|
    ensures (exists rank' :: WellFormed(DoMount(fs, mntpt, root), rank')) <==>
      MayMount(fs, mntpt, root) && !Under(fs, rank, mntpt, root)
  {
    if MayMount(fs, mntpt, root) && !Under(fs, rank, mntpt, root) {
      var rank' := MountKeeps(fs, rank, mntpt, root);
    } else {
      forall rank' ensures !WellFormed(DoMount(fs, mntpt, root), rank') {
        if WellFormed(DoMount(fs, mntpt, root), rank') { MountNeeds(fs, rank, mntpt, root, rank'); }
      }
    }
  }

  lemma MountNeeds(fs: Fs, rank: seq<nat>, mntpt: nat, root: nat, rank': seq<nat>)
    requires WellFormed(fs, rank) && mntpt < |fs.dents| && root < |fs.dents|
    requires WellFormed(DoMount(fs, mntpt, root), rank')
    ensures MayMount(fs, mntpt, root) && !Under(fs, rank, mntpt, root)
  {
    var fs' := DoMount(fs, mntpt, root);
    assert fs'.mounts[0] == Mount(mntpt, root);
    assert fs'.dents[mntpt].dir == fs.dents[mntpt].dir;
    NewInTable(fs.mounts, fs'.mounts, mntpt, root);
    if Under(fs, rank, mntpt, root) { UnderIsHigher(fs, rank, mntpt, root, mntpt, rank'); }
  }

  /** In a table without repetitions the first entry's point and root occur only there. */
  lemma NewInTable(ms: seq<Mount>, ms': seq<Mount>, mntpt: nat, root: nat)
    requires ms' == [Mount(mntpt, root)] + ms
    requires forall i, j :: 0 <= i < j < |ms'| ==> ms'[i].mntpt != ms'[j].mntpt && ms'[i].root != ms'[j].root
    ensures !IsMountPoint(ms, mntpt) && !IsMountRoot(ms, root)
  {
    forall k | 0 <= k < |ms| ensures ms[k].mntpt != mntpt && ms[k].root != root {
      assert ms'[k + 1] == ms[k] && ms'[0] == Mount(mntpt, root);
    }
  }

  /** A new child keeps everything in order when its name is new and can be written in a path. */
  lemma CreateOld(fs: Fs, rank: seq<nat>, name: string, p: nat, dir: bool, d: nat)
    requires WellFormed(fs, rank) && p < |fs.dents| && fs.dents[p].dir && GoodName(name) && d < |fs.dents|
    requires forall c :: c in fs.dents[p].child ==> fs.dents[c].name != name
    requires Closed(Create(fs, name, Some(p), dir))
    ensures DentryOk(Create(fs, name, Some(p), dir), d)
  {
    var fs', id := Create(fs, name, Some(p), dir), |fs.dents|;
    assert DentryOk(fs, d);
    var e, e' := fs.dents[d], fs'.dents[d];
    assert e'.name == e.name && e'.parent == e.parent && e'.dir == e.dir;
    assert forall c :: c in e'.child <==> c in e.child || (d == p && c == id);
    assert forall c :: 0 <= c < id ==>
      fs'.dents[c].name == fs.dents[c].name && fs'.dents[c].parent == fs.dents[c].parent;
  }

  lemma CreateKeeps(fs: Fs, rank: seq<nat>, name: string, p: nat, dir: bool) returns (rank': seq<nat>)
    requires WellFormed(fs, rank) && p < |fs.dents| && fs.dents[p].dir && GoodName(name)
    requires forall c :: c in fs.dents[p].child ==> fs.dents[c].name != name
    ensures WellFormed(Create(fs, name, Some(p), dir), rank')
  {
    var fs' := Create(fs, name, Some(p), dir);
    CreateClosed(fs, name, Some(p), dir);
    rank' := rank + [rank[p] + 1];
    var id := |fs.dents|;
    forall d: nat | d < |fs'.dents| ensures DentryOk(fs', d) {
      if d < id { CreateOld(fs, rank, name, p, dir, d); }
    }
    assert forall d :: 0 <= d < id ==> fs'.dents[d].parent == fs.dents[d].parent
                                       && fs'.dents[d].dir == fs.dents[d].dir
                                       && fs'.dents[d].mounted == fs.dents[d].mounted;
    assert !IsMountPoint(fs.mounts, id);
  }

  /** A new tree keeps everything in order. */
  lemma NewTreeKeeps(fs: Fs, rank: seq<nat>) returns (rank': seq<nat>)
    requires WellFormed(fs, rank)
    ensures WellFormed(Create(fs, "/", None, true), rank')
  {
    var fs' := Create(fs, "/", None, true);
    CreateClosed(fs, "/", None, true);
    rank' := rank + [0];
    var id := |fs.dents|;
    forall d | 0 <= d < |fs'.dents| ensures DentryOk(fs', d) {
      if d < id { assert DentryOk(fs, d); }
    }
    assert !IsMountPoint(fs.mounts, id);
  }

  lemma {:induction false} ElemNoSlash(path: string)
    ensures '/' !in path[..ElemLen(path)]
  {
    if path != [] && path[0] != '/' {
      ElemNoSlash(path[1..]);
      assert path[..ElemLen(path)] == [path[0]] + path[1..][..ElemLen(path[1..])];
    }
  }

  /** The elements of a path, when none is too long, are names or `.` or `..`. */
  lemma {:induction false} SplitNames(path: string)
    requires forall n :: n in Split(path) ==> |n| < NAME_MAX
    ensures forall n :: n in Split(path) ==> GoodName(n) || n == "." || n == ".."
    decreases |path|
  {
    match SkipElem(path)
    case None =>
    case Some((name, rest)) =>
      var s := SkipSlashes(path);
      SkippedHead(path);
      ElemNoSlash(s);
      assert name in Split(path);
      assert name == s[..ElemLen(s)] && name != "";
      assert forall n :: n in Split(rest) ==> n in Split(path);
      SplitNames(rest);
  }

  lemma StepKeeps(fs: Fs, rank: seq<nat>, disk: Disk, d: nat, name: string) returns (rank': seq<nat>)
    requires WellFormed(fs, rank) && d < |fs.dents| && (GoodName(name) || name == "." || name == "..")
    ensures WellFormed(Step(fs, disk, d, name).1, rank')
  {
    rank' := rank;
    FollowClosed(fs, d);
    if fs.dents[d].dir && name != "." && name != ".." {
      var p := Below(fs, d);
      if FindChild(fs.dents, fs.dents[p].child, name).None? && fs.dents[p].dir && disk(p, name).Some? {
        rank' := CreateKeeps(fs, rank, name, p, disk(p, name).value);
      }
    }
  }

  lemma {:induction false} StepsKeep(fs: Fs, rank: seq<nat>, disk: Disk, d: nat, names: seq<string>)
      returns (rank': seq<nat>)
    requires WellFormed(fs, rank) && d < |fs.dents|
    requires forall n :: n in names ==> GoodName(n) || n == "." || n == ".."
    ensures WellFormed(Steps(fs, disk, d, names).1, rank')
    decreases |names|
  {
    rank' := rank;
    if names != [] {
      assert forall n :: n in Front(names) ==> n in names;
      rank' := StepsKeep(fs, rank, disk, d, Front(names));
      var (o, fs') := Steps(fs, disk, d, Front(names));
      if o.Some? {
        assert Last(names) in names;
        rank' := StepKeeps(fs', rank', disk, o.value, Last(names));
      }
    }
  }

  lemma {:induction false} ChaseOut(m: map<nat, nat>, w: seq<nat>, d: nat)
    requires Falls(m, w) && d < |w|
    ensures Chase(m, d) !in m
    decreases |m|
  {
    if d in m {
      assert (m - {d}).Keys == m.Keys - {d};
      ChaseOut(m - {d}, w, m[d]);
      ChaseFalls(m - {d}, w, m[d]);
    }
  }

  /** Resolving any path keeps everything in order, and never ends on a mount point. */
  lemma NamedKeeps(fs: Fs, rank: seq<nat>, disk: Disk, root: nat, cwd: nat, path: string) returns (rank': seq<nat>)
    requires WellFormed(fs, rank) && root < |fs.dents| && cwd < |fs.dents|
    requires forall n :: n in Split(path) ==> |n| < NAME_MAX
    ensures var (o, fs') := Named(fs, disk, root, cwd, path);
            WellFormed(fs', rank') && (o.Some? ==> o.value < |fs'.dents| && !IsMountPoint(fs'.mounts, o.value))
  {
    rank' := rank;
    if path != [] {
      SplitNames(path);
      var start := if path[0] == '/' then root else cwd;
      rank' := StepsKeep(fs, rank, disk, start, Split(path));
      var (o, fs') := Steps(fs, disk, start, Split(path));
      if o.Some? {
        TableMaps(fs', rank');
        FollowClosed(fs', o.value);
        ChaseOut(DownMap(fs'.mounts), Flipped(rank'), o.value);
      }
    }
  }

  // ------------------------------------------------------------------------------- runs

  datatype Op = Resolve(root: nat, cwd: nat, path: string) | MountOp(mntpt: nat, root: nat) | NewTree

  /** One operation: a path with short elements is resolved, a tree is mounted where it
      may be, or a new tree is made. */
  ghost predicate Stepped(fs: Fs, disk: Disk, op: Op, fs': Fs) {
    Closed(fs) &&
    match op
    case Resolve(root, cwd, path) =>
      && root < |fs.dents| && cwd < |fs.dents|
      && (forall n :: n in Split(path) ==> |n| < NAME_MAX)
      && fs' == Named(fs, disk, root, cwd, path).1
    case MountOp(mntpt, root) =>
      && MayMount(fs, mntpt, root)
      && (exists rank :: WellFormed(fs, rank) && !Under(fs, rank, mntpt, root))
      && fs' == DoMount(fs, mntpt, root)
    case NewTree => fs' == Create(fs, "/", None, true)
  }

  ghost predicate Run(disk: Disk, ops: seq<Op>, fs: Fs) {
    if ops == [] then fs == Fs([], [])
    else exists fs0 :: Run(disk, Front(ops), fs0) && Stepped(fs0, disk, Last(ops), fs)
  }

  lemma SteppedKeeps(fs0: Fs, rank0: seq<nat>, disk: Disk, op: Op, fs: Fs) returns (rank: seq<nat>)
    requires WellFormed(fs0, rank0) && Stepped(fs0, disk, op, fs)
    ensures WellFormed(fs, rank)
  {
    match op
    case Resolve(root, cwd, path) => rank := NamedKeeps(fs0, rank0, disk, root, cwd, path);
    case MountOp(mntpt, root) =>
      var r :| WellFormed(fs0, r) && !Under(fs0, r, mntpt, root);
      rank := MountKeeps(fs0, r, mntpt, root);
    case NewTree => rank := NewTreeKeeps(fs0, rank0);
  }

  lemma {:induction false} RunKeeps(disk: Disk, ops: seq<Op>, fs: Fs) returns (rank: seq<nat>)
    requires Run(disk, ops, fs)
    ensures WellFormed(fs, rank)
    decreases |ops|
  {
    if ops == [] {
      rank := [];
    } else {
      var fs0 :| Run(disk, Front(ops), fs0) && Stepped(fs0, disk, Last(ops), fs);
      var rank0 := RunKeeps(disk, Front(ops), fs0);
      rank := SteppedKeeps(fs0, rank0, disk, Last(ops), fs);
    }
  }

  /** In every reachable state every visible entry is found again by its own path. */
  lemma RunRoundTrip(disk: Disk, ops: seq<Op>, fs: Fs, root: nat, cwd: nat, d: nat, names: seq<string>)
    requires Run(disk, ops, fs) && Closed(fs)
    requires root < |fs.dents| && cwd < |fs.dents| && d < |fs.dents| && Reached(fs, root, d, names)
    ensures Named(fs, disk, root, cwd, PathString(names)) == (Some(FollowDown(fs, d)), fs)
    ensures !IsMountPoint(fs.mounts, d) ==> Named(fs, disk, root, cwd, PathString(names)) == (Some(d), fs)
  {
    var rank := RunKeeps(disk, ops, fs);
    RoundTrip(fs, rank, disk, root, cwd, d, names);
  }
}
