/** What resolving a path finds, for every path: names, `.`, `..`, repeated slashes, and
    entries that are read from the file system on the way. */
module VfsResolve {
  import opened Common
  import opened Vfs
  import opened VfsTheory

  // -------------------------------------------------------------------------- path strings

  ghost predicate AllSlashes(s: string) {
    forall i :: 0 <= i < |s| ==> s[i] == '/'
  }

  ghost predicate NoSlash(s: string) {
    forall i :: 0 <= i < |s| ==> s[i] != '/'
  }

  /** Of a long name the first characters count. */
  ghost function Cut(s: string): string {
    if |s| <= NAME_MAX then s else s[..NAME_MAX]
  }

  /** After `i` slashes, `path` has a piece without slashes up to `j` that cannot go on. */
  ghost predicate Piece(path: string, i: nat, j: nat) {
    && i < j <= |path| && AllSlashes(path[..i]) && NoSlash(path[i..j]) && (j < |path| ==> path[j] == '/')
  }

  /** `names` are the pieces of `path` between slashes. */
  ghost predicate Spelled(path: string, names: seq<string>)
    decreases |names|
  {
    if names == [] then AllSlashes(path)
    else exists i: nat, j: nat ::
      Piece(path, i, j) && names[0] == Cut(path[i..j]) && Spelled(path[j..], names[1..])
  }

  lemma {:induction false} SkipOver(path: string, i: nat)
    requires i <= |path| && AllSlashes(path[..i]) && (i < |path| ==> path[i] != '/')
    ensures SkipSlashes(path) == path[i..]
    decreases |path|
  {
    if i > 0 {
      assert path[..i][0] == '/';
      assert path[1..][..i - 1] == path[..i][1..] && path[1..][i - 1..] == path[i..];
      SkipOver(path[1..], i - 1);
    }
  }

  lemma {:induction false} SkipAll(path: string) returns (i: nat)
    ensures i <= |path| && AllSlashes(path[..i]) && (i < |path| ==> path[i] != '/')
    decreases |path|
  {
    i := 0;
    if path != [] && path[0] == '/' {
      var k := SkipAll(path[1..]);
      i := k + 1;
      assert path[..i] == ['/'] + path[1..][..k];
    }
  }

  lemma {:induction false} LenOf(path: string, n: nat)
    requires n <= |path| && NoSlash(path[..n]) && (n < |path| ==> path[n] == '/')
    ensures ElemLen(path) == n
    decreases |path|
  {
    if n > 0 {
      assert path[..n][0] != '/';
      assert path[1..][..n - 1] == path[..n][1..];
      LenOf(path[1..], n - 1);
    }
  }

  lemma {:induction false} LenIs(path: string)
    ensures var n := ElemLen(path); NoSlash(path[..n]) && (n < |path| ==> path[n] == '/')
    decreases |path|
  {
    if path != [] && path[0] != '/' {
      LenIs(path[1..]);
      assert path[..ElemLen(path)] == [path[0]] + path[1..][..ElemLen(path[1..])];
    }
  }

  /** Skipping slashes first changes nothing. */
  lemma SplitSkip(path: string)
    ensures Split(SkipSlashes(path)) == Split(path)
  {
    SkippedHead(path);
    var s := SkipSlashes(path);
    assert SkipSlashes(s) == s;
    assert SkipElem(s) == SkipElem(path);
  }

  lemma SplitPiece(path: string, i: nat, j: nat)
    requires Piece(path, i, j)
    ensures Split(path) == [Cut(path[i..j])] + Split(path[j..])
  {
    var s := path[i..];
    assert path[i..j][0] == path[i];
    SkipOver(path, i);
    assert s[..j - i] == path[i..j] && s[j - i..] == path[j..];
    LenOf(s, j - i);
    assert SkipSlashes(path) == s && s != [] && ElemLen(s) == j - i;
    if j - i >= NAME_MAX { assert s[..NAME_MAX] == path[i..j][..NAME_MAX]; }
    assert path[i..j] == s[..j - i];
    assert SkipElem(path) == Some((Cut(path[i..j]), SkipSlashes(path[j..])));
    SplitSkip(path[j..]);
  }

  lemma NoPieces(path: string)
    requires AllSlashes(path)
    ensures Split(path) == []
  {
    assert path[..|path|] == path;
    SkipOver(path, |path|);
  }

  lemma {:induction false} SpelledIsSplit(path: string, names: seq<string>)
    requires Spelled(path, names)
    ensures Split(path) == names
    decreases |names|
  {
    if names == [] {
      NoPieces(path);
    } else {
      var i: nat, j: nat :| Piece(path, i, j) && names[0] == Cut(path[i..j]) && Spelled(path[j..], names[1..]);
      SplitPiece(path, i, j);
      SpelledIsSplit(path[j..], names[1..]);
    }
  }

  lemma {:induction false} SplitIsSpelled(path: string)
    ensures Spelled(path, Split(path))
    decreases |path|
  {
    var i := SkipAll(path);
    if i == |path| {
      assert path[..i] == path;
      NoPieces(path);
    } else {
      var s := path[i..];
      LenIs(s);
      var j := i + ElemLen(s);
      assert s[0] == path[i] && path[i..j] == s[..ElemLen(s)] && Piece(path, i, j);
      SplitPiece(path, i, j);
      SplitIsSpelled(path[j..]);
      assert Split(path)[1..] == Split(path[j..]);
    }
  }

  /** Cutting a path gives its pieces: all of them, in order, and nothing else. */
  lemma SplitExactly(path: string, names: seq<string>)
    ensures Split(path) == names <==> Spelled(path, names)
  {
    SplitIsSpelled(path);
    if Spelled(path, names) { SpelledIsSplit(path, names); }
  }

  // ---------------------------------------------------------------------- what a walk finds

  predicate Element(n: string) {
    GoodName(n) || n == "." || n == ".."
  }

  /** An entry after a walk: as it was, with new children behind the old ones. */
  ghost predicate Kept(fs: Fs, fs': Fs, d: nat)
    requires d < |fs.dents| <= |fs'.dents|
  {
    var e, e' := fs.dents[d], fs'.dents[d];
    && e' == e.(child := e'.child) && e.child <= e'.child
    && (forall k :: |e.child| <= k < |e'.child| ==> e'.child[k] >= |fs.dents|)
  }

  /** A new entry is what the file system has under that name in its parent directory. */
  ghost predicate FromDisk(fs: Fs, disk: Disk, d: nat)
    requires d < |fs.dents|
  {
    var e := fs.dents[d];
    && e.parent < |fs.dents| && e.parent != d && fs.dents[e.parent].dir
    && disk(e.parent, e.name) == Some(e.dir) && !e.mounted
  }

  ghost predicate Added(fs: Fs, disk: Disk, fs': Fs) {
    && fs'.mounts == fs.mounts && |fs'.dents| >= |fs.dents|
    && (forall d: nat {:trigger Kept(fs, fs', d)} :: d < |fs.dents| ==> Kept(fs, fs', d))
    && (forall d: nat {:trigger FromDisk(fs', disk, d)} :: |fs.dents| <= d < |fs'.dents| ==> FromDisk(fs', disk, d))
  }

  lemma AddedTwice(fs: Fs, disk: Disk, fs1: Fs, fs2: Fs)
    requires Added(fs, disk, fs1) && Added(fs1, disk, fs2)
    ensures Added(fs, disk, fs2)
  {
    forall d: nat | d < |fs.dents| ensures Kept(fs, fs2, d) {
      assert Kept(fs, fs1, d) && Kept(fs1, fs2, d);
    }
    forall d: nat | |fs.dents| <= d < |fs2.dents| ensures FromDisk(fs2, disk, d) {
      if d < |fs1.dents| {
        assert FromDisk(fs1, disk, d) && Kept(fs1, fs2, d) && Kept(fs1, fs2, fs1.dents[d].parent);
      }
    }
  }

  lemma StepAdds(fs: Fs, disk: Disk, d: nat, name: string)
    requires Closed(fs) && d < |fs.dents|
    ensures Added(fs, disk, Step(fs, disk, d, name).1)
  {
    FollowClosed(fs, d);
  }

  lemma GoesLater(fs: Fs, disk: Disk, fs': Fs, d: nat, name: string, e: nat)
    requires Added(fs, disk, fs') && Goes(fs, d, name, e)
    ensures Goes(fs', d, name, e)
  {
    assert Kept(fs, fs', d) && Kept(fs, fs', e);
    if name == ".." {
      var x: nat :| x < |fs.dents| && e == fs.dents[x].parent
                    && if fs.dents[d].name == "/" then Top(fs.mounts, d, x) else x == d;
      assert Kept(fs, fs', x);
    }
  }

  /** What is seen stays seen. */
  lemma {:induction false} SeenLater(fs: Fs, disk: Disk, fs': Fs, start: nat, e: nat, names: seq<string>)
    requires Added(fs, disk, fs') && Seen(fs, start, e, names)
    ensures Seen(fs', start, e, names)
    decreases |names|
  {
    if names != [] {
      var e': nat :| Seen(fs, start, e', Front(names)) && Goes(fs, e', Last(names), e);
      SeenLater(fs, disk, fs', start, e', Front(names));
      GoesLater(fs, disk, fs', e', Last(names), e);
    }
  }

  /** No element `name` leads on from `d`: it is no directory, or neither an entry nor the file
      system has the name in what is mounted there. */
  ghost predicate Blocked(fs: Fs, disk: Disk, d: nat, name: string) {
    d < |fs.dents| && (fs.dents[d].dir ==> Lacks(fs, disk, d, name))
  }

  ghost predicate Lacks(fs: Fs, disk: Disk, d: nat, name: string) {
    && name != "." && name != ".."
    && exists p: nat :: p < |fs.dents| && Bottom(fs.mounts, d, p) && Unknown(fs, disk, p, name)
  }

  ghost predicate Unknown(fs: Fs, disk: Disk, p: nat, name: string)
    requires p < |fs.dents|
  {
    && (forall c :: 0 <= c < |fs.dents| && fs.dents[c].parent == p && c != p ==> fs.dents[c].name != name)
    && (fs.dents[p].dir ==> disk(p, name) == None)
  }

  /** One element that leads somewhere. */
  lemma SteppedGoes(fs: Fs, rank: seq<nat>, disk: Disk, d: nat, name: string)
    requires WellFormed(fs, rank) && d < |fs.dents| && Element(name)
    requires Step(fs, disk, d, name).0.Some?
    ensures var (o, fs') := Step(fs, disk, d, name); Goes(fs', d, name, o.value)
  {
    FollowClosed(fs, d);
    StepAdds(fs, disk, d, name);
    var (o, fs') := Step(fs, disk, d, name);
    assert Kept(fs, fs', d);
    if name == ".." {
      var x := Above(fs, d);
      TopIs(fs, rank, d, x);
      assert Kept(fs, fs', x);
    } else if name != "." {
      Descend(fs, rank, d);
      var p := Below(fs, d);
      BottomIs(fs, rank, d, p);
      assert DentryOk(fs, p);
      FoundIsChild(fs, rank, disk, p, name);
    }
  }

  /** What a directory is asked for and gives is its child of that name. */
  lemma FoundIsChild(fs: Fs, rank: seq<nat>, disk: Disk, p: nat, name: string)
    requires WellFormed(fs, rank) && p < |fs.dents| && GoodName(name) && Dget(fs, disk, p, name).0.Some?
    ensures var (o, fs') := Dget(fs, disk, p, name);
      o.value < |fs'.dents| && fs'.dents[o.value].parent == p != o.value && fs'.dents[o.value].name == name
  {
    var r := FindChild(fs.dents, fs.dents[p].child, name);
    if r.Some? {
      assert DentryOk(fs, p) && DentryOk(fs, r.value);
      assert '/' in "/";
    }
  }

  /** One element that leads nowhere. */
  lemma SteppedBlocked(fs: Fs, rank: seq<nat>, disk: Disk, d: nat, name: string)
    requires WellFormed(fs, rank) && d < |fs.dents| && Step(fs, disk, d, name).0.None?
    ensures Step(fs, disk, d, name).1 == fs && Blocked(fs, disk, d, name)
  {
    FollowClosed(fs, d);
    if fs.dents[d].dir {
      Descend(fs, rank, d);
      var p := Below(fs, d);
      BottomIs(fs, rank, d, p);
      forall c | 0 <= c < |fs.dents| && fs.dents[c].parent == p && c != p ensures fs.dents[c].name != name {
        assert DentryOk(fs, c);
      }
      assert Unknown(fs, disk, p, name);
    }
  }

  /** Some element on the way leads nowhere. */
  ghost predicate Stuck(fs: Fs, disk: Disk, start: nat, names: seq<string>)
    decreases |names|
  {
    names != [] &&
    (Stuck(fs, disk, start, Front(names)) ||
     exists d: nat :: Seen(fs, start, d, Front(names)) && Blocked(fs, disk, d, Last(names)))
  }

  /** `d` is seen at a non-empty front part of `names`. */
  ghost predicate Passed(fs: Fs, start: nat, d: nat, names: seq<string>)
    decreases |names|
  {
    names != [] && (Seen(fs, start, d, names) || Passed(fs, start, d, Front(names)))
  }

  lemma {:induction false} PassedLater(fs: Fs, disk: Disk, fs': Fs, start: nat, d: nat, names: seq<string>)
    requires Added(fs, disk, fs') && Passed(fs, start, d, names)
    ensures Passed(fs', start, d, names)
    decreases |names|
  {
    if Seen(fs, start, d, names) {
      SeenLater(fs, disk, fs', start, d, names);
    } else {
      PassedLater(fs, disk, fs', start, d, Front(names));
    }
  }

  /** What a walk may do to the entries: read in those that it passes. */
  ghost predicate Walked(fs: Fs, disk: Disk, start: nat, names: seq<string>, fs': Fs) {
    && Added(fs, disk, fs')
    && (forall d: nat {:trigger Passed(fs', start, d, names)} ::
          |fs.dents| <= d < |fs'.dents| ==> Passed(fs', start, d, names))
  }

  /** A walk ends at what is then seen at its names; if it fails, it was stuck. */
  lemma {:induction false} WalkIs(fs: Fs, rank: seq<nat>, disk: Disk, start: nat, names: seq<string>)
    requires WellFormed(fs, rank) && start < |fs.dents| && forall n :: n in names ==> Element(n)
    ensures var (o, fs') := Steps(fs, disk, start, names);
      && Walked(fs, disk, start, names, fs')
      && (o.Some? ==> Seen(fs', start, o.value, names)) && (o.None? ==> Stuck(fs', disk, start, names))
    decreases |names|
  {
    if names != [] {
      var front := Front(names);
      assert Last(names) in names && forall n :: n in front ==> n in names;
      WalkIs(fs, rank, disk, start, front);
      var (o1, fs1) := Steps(fs, disk, start, front);
      if o1.Some? {
        var rank1 := StepsKeep(fs, rank, disk, start, front);
        WalkOn(fs, disk, start, names, o1.value, fs1, rank1);
      } else {
        forall d: nat | |fs.dents| <= d < |fs1.dents| ensures Passed(fs1, start, d, names) {
          assert Passed(fs1, start, d, front);
        }
      }
    }
  }

  lemma WalkOn(fs: Fs, disk: Disk, start: nat, names: seq<string>, d: nat, fs1: Fs, rank1: seq<nat>)
    requires WellFormed(fs1, rank1) && d < |fs1.dents| && names != [] && Element(Last(names))
    requires Walked(fs, disk, start, Front(names), fs1) && Seen(fs1, start, d, Front(names))
    ensures var (o, fs') := Step(fs1, disk, d, Last(names));
      && Walked(fs, disk, start, names, fs')
      && (o.Some? ==> Seen(fs', start, o.value, names)) && (o.None? ==> Stuck(fs', disk, start, names))
  {
    var name := Last(names);
    var (o, fs') := Step(fs1, disk, d, name);
    StepAdds(fs1, disk, d, name);
    AddedTwice(fs, disk, fs1, fs');
    if o.Some? {
      SteppedGoes(fs1, rank1, disk, d, name);
      SeenLater(fs1, disk, fs', start, d, Front(names));
      assert Seen(fs', start, o.value, names);
    } else {
      SteppedBlocked(fs1, rank1, disk, d, name);
    }
    forall x: nat | |fs.dents| <= x < |fs'.dents| ensures Passed(fs', start, x, names) {
      if x < |fs1.dents| {
        PassedLater(fs1, disk, fs', start, x, Front(names));
      } else {
        NewIsFound(fs1, disk, d, name, x);
      }
    }
  }

  lemma NewIsFound(fs: Fs, disk: Disk, d: nat, name: string, x: nat)
    requires Closed(fs) && d < |fs.dents| && |fs.dents| <= x < |Step(fs, disk, d, name).1.dents|
    ensures Step(fs, disk, d, name).0 == Some(x)
  {
    FollowClosed(fs, d);
  }

  /** Nothing is seen behind the point where a walk is stuck. */
  lemma BlockedStops(fs: Fs, rank: seq<nat>, disk: Disk, d: nat, name: string)
    requires WellFormed(fs, rank) && Blocked(fs, disk, d, name) && Element(name)
    ensures Step(fs, disk, d, name).0 == None
  {
    FollowClosed(fs, d);
    if fs.dents[d].dir {
      var p: nat :| p < |fs.dents| && Bottom(fs.mounts, d, p) && Unknown(fs, disk, p, name);
      BottomIs(fs, rank, d, p);
      Descend(fs, rank, d);
      assert DentryOk(fs, p);
      ElementPlain(name);
      assert "/"[0] == '/';
      assert forall c :: c in fs.dents[p].child ==> fs.dents[c].parent == p && fs.dents[c].name != name;
    }
  }

  lemma {:induction false} StuckStops(fs: Fs, rank: seq<nat>, disk: Disk, start: nat, names: seq<string>)
    requires WellFormed(fs, rank) && start < |fs.dents| && Stuck(fs, disk, start, names)
    requires forall n :: n in names ==> Element(n)
    ensures Steps(fs, disk, start, names).0 == None
    decreases |names|
  {
    assert Last(names) in names && forall n :: n in Front(names) ==> n in names;
    if Stuck(fs, disk, start, Front(names)) {
      StuckStops(fs, rank, disk, start, Front(names));
    } else {
      var d: nat :| Seen(fs, start, d, Front(names)) && Blocked(fs, disk, d, Last(names));
      SeenIsWalked(fs, rank, disk, start, d, Front(names));
      BlockedStops(fs, rank, disk, d, Last(names));
    }
  }

  /** Something seen at `names` leads down to `d`. */
  ghost predicate Shown(fs: Fs, start: nat, d: nat, names: seq<string>) {
    exists e: nat :: Seen(fs, start, e, names) && Bottom(fs.mounts, e, d)
  }

  /** What is shown at a path. */
  ghost predicate Finds(fs: Fs, disk: Disk, start: nat, names: seq<string>, o: Option<nat>) {
    match o
    case Some(d) => Shown(fs, start, d, names)
    case None => Stuck(fs, disk, start, names)
  }

  lemma ArriveIs(fs: Fs, rank: seq<nat>, e: nat)
    requires WellFormed(fs, rank) && e < |fs.dents|
    ensures Bottom(fs.mounts, e, Arrive(fs, e))
  {
    Descend(fs, rank, e);
    BottomIs(fs, rank, e, Arrive(fs, e));
  }

  /** Only one answer is right. */
  lemma FindsOne(fs: Fs, rank: seq<nat>, disk: Disk, start: nat, names: seq<string>, o: Option<nat>, o': Option<nat>)
    requires WellFormed(fs, rank) && start < |fs.dents| && forall n :: n in names ==> Element(n)
    requires Finds(fs, disk, start, names, o) && Finds(fs, disk, start, names, o')
    ensures o == o'
  {
    FindsWalk(fs, rank, disk, start, names, o);
    FindsWalk(fs, rank, disk, start, names, o');
  }

  lemma FindsWalk(fs: Fs, rank: seq<nat>, disk: Disk, start: nat, names: seq<string>, o: Option<nat>)
    requires WellFormed(fs, rank) && start < |fs.dents| && Finds(fs, disk, start, names, o)
    requires forall n :: n in names ==> Element(n)
    ensures var r := Steps(fs, disk, start, names).0;
      o.Some? == r.Some? && (o.Some? ==> r.value < |fs.dents| && o.value == FollowDown(fs, r.value))
  {
    match o
    case None => StuckStops(fs, rank, disk, start, names);
    case Some(d) =>
      var e: nat :| Seen(fs, start, e, names) && Bottom(fs.mounts, e, d);
      SeenIsWalked(fs, rank, disk, start, e, names);
      BottomIs(fs, rank, e, d);
  }

  /** Every path, read as its pieces: resolving it gives what is shown at these in the state that
      it leaves, and fails exactly if the way is stuck. Only what lies on the way is read in. */
  lemma ResolvesExactly(fs: Fs, rank: seq<nat>, disk: Disk, root: nat, cwd: nat, path: string, names: seq<string>)
    requires WellFormed(fs, rank) && root < |fs.dents| && cwd < |fs.dents|
    requires path != "" && Spelled(path, names) && forall n :: n in names ==> |n| < NAME_MAX
    ensures var start := if path[0] == '/' then root else cwd;
      var (o, fs') := Named(fs, disk, root, cwd, path);
      && Walked(fs, disk, start, names, fs')
      && forall o' :: Finds(fs', disk, start, names, o') <==> o' == o
  {
    SplitExactly(path, names);
    SplitNames(path);
    var start := if path[0] == '/' then root else cwd;
    WalkIs(fs, rank, disk, start, names);
    var rank' := StepsKeep(fs, rank, disk, start, names);
    var (e, fs') := Steps(fs, disk, start, names);
    var o := Named(fs, disk, root, cwd, path).0;
    if e.Some? { ArriveIs(fs', rank', e.value); }
    assert Finds(fs', disk, start, names, o);
    forall o' ensures Finds(fs', disk, start, names, o') <==> o' == o {
      if Finds(fs', disk, start, names, o') { FindsOne(fs', rank', disk, start, names, o, o'); }
    }
  }

  /** One more hop in a table that had none from `a`. */
  lemma {:induction false} ChaseLonger(m: map<nat, nat>, w: seq<nat>, a: nat, b: nat, d: nat)
    requires a !in m && Falls(m[a := b], w) && d < |w|
    ensures Chase(m[a := b], d) == if Chase(m, d) == a then Chase(m, b) else Chase(m, d)
    decreases w[d]
  {
    var m' := m[a := b];
    assert m'[a] == b && forall k :: k in m ==> k in m' && m'[k] == m[k];
    if d in m' {
      ChaseHop(m', w, d);
      if d in m { ChaseHop(m, w, d); }
      ChaseLonger(m, w, a, b, m'[d]);
      ChaseFalls(m, w, b);
    }
  }

  /** After a mount, what led down to its point leads to where its root leads, and nothing else
      changes. */
  lemma MountLeads(fs: Fs, rank: seq<nat>, mntpt: nat, root: nat, rank': seq<nat>, d: nat, q: nat)
    requires WellFormed(fs, rank) && mntpt < |fs.dents| && root < |fs.dents| && d < |fs.dents|
    requires WellFormed(DoMount(fs, mntpt, root), rank')
    ensures Bottom(DoMount(fs, mntpt, root).mounts, d, q) <==>
      Bottom(fs.mounts, if Bottom(fs.mounts, d, mntpt) then root else d, q)
  {
    var fs' := DoMount(fs, mntpt, root);
    MountNeeds(fs, rank, mntpt, root, rank');
    TableMaps(fs, rank);
    TableMaps(fs', rank');
    assert fs'.mounts[0] == Mount(mntpt, root) && fs'.mounts[1..] == fs.mounts;
    ChaseLonger(DownMap(fs.mounts), Flipped(rank'), mntpt, root, d);
    BottomIs(fs', rank', d, q);
    BottomIs(fs, rank, d, mntpt);
    BottomIs(fs, rank, d, q);
    BottomIs(fs, rank, root, q);
  }

  // ------------------------------------------------------------------------ parent paths

  lemma JoinMore(names: seq<string>, name: string)
    ensures Join(names + [name]) == Join(names) + "/" + name
  {
    assert Front(names + [name]) == names;
  }

  /** Cutting a path built from elements gives the elements back. */
  lemma {:induction false} SpelledJoin(names: seq<string>)
    requires forall n :: n in names ==> Element(n)
    ensures Spelled(Join(names), names)
    decreases |names|
  {
    if names != [] {
      var name, t := names[0], names[1..];
      assert names == [name] + t && name in names;
      JoinCons(name, t);
      var path := Join(names);
      assert path == "/" + name + Join(t);
      var j := 1 + |name|;
      assert path[..1] == "/" && path[1..j] == name && path[j..] == Join(t);
      ElementPlain(name);
      if t != [] { JoinStarts(t); assert path[j] == Join(t)[0]; }
      assert Piece(path, 1, j);
      SpelledJoin(t);
    }
  }

  lemma ElementPlain(name: string)
    requires Element(name)
    ensures name != "" && NoSlash(name) && |name| < NAME_MAX
  {
    if GoodName(name) {
      forall i | 0 <= i < |name| ensures name[i] != '/' { assert name[i] in name; }
    }
  }

  lemma JoinStarts(names: seq<string>)
    requires names != []
    ensures Join(names) != "" && Join(names)[0] == '/'
  {
    assert names == [names[0]] + names[1..];
    JoinCons(names[0], names[1..]);
  }

  /** `..` after the path of a directory that no mount hides leads where the path of its parent
      directory leads, ... */
  lemma ParentPath(fs: Fs, rank: seq<nat>, disk: Disk, root: nat, cwd: nat, d: nat, names: seq<string>)
    requires WellFormed(fs, rank) && root < |fs.dents| && cwd < |fs.dents| && d < |fs.dents|
    requires Reached(fs, root, d, names) && fs.dents[d].dir && names != []
    ensures var there := Named(fs, disk, root, cwd, PathString(names) + "/..");
      there == Named(fs, disk, root, cwd, PathString(Front(names))) && there.0.Some?
  {
    ReachedIsPath(fs, root, d, names);
    PathNames(fs, rank, d, names);
    var all := names + [".."];
    JoinDots(names);
    JoinStarts(names);
    FollowClosed(fs, d);
    var e := ReachedIsSeen(fs, rank, root, d, names);
    SeenIsWalked(fs, rank, disk, root, e, names);
    AboveBelow(fs, rank, d);
    var p := fs.dents[e].parent;
    assert DentryOk(fs, e);
    assert '/' in "/";
    assert Front(all) == names && Last(all) == "..";
    assert Steps(fs, disk, root, all) == (Some(p), fs);
    Descend(fs, rank, p);
    RoundTrip(fs, rank, disk, root, cwd, p, Front(names));
  }

  lemma SlashMore(path: string)
    ensures Split("/" + path) == Split(path)
  {
    assert ("/" + path)[1..] == path;
    SplitSkip("/" + path);
    SplitSkip(path);
  }

  lemma JoinDots(names: seq<string>)
    requires forall n :: n in names ==> GoodName(n)
    ensures Split(Join(names) + "/..") == names + [".."]
  {
    var all := names + [".."];
    JoinMore(names, "..");
    assert Join(names) + "/" + ".." == Join(names) + "/..";
    SpelledJoin(all);
    SplitExactly(Join(all), all);
  }

  lemma RootDots()
    ensures Split("//..") == [".."]
  {
    JoinDots([]);
    assert "" + "/.." == "/.." && [] + [".."] == [".."];
    SlashMore("/..");
    assert "/" + "/.." == "//..";
  }

  /** ... and at the root of everything it stays there. */
  lemma ParentOfRoot(fs: Fs, rank: seq<nat>, disk: Disk, root: nat, cwd: nat, d: nat)
    requires WellFormed(fs, rank) && root < |fs.dents| && cwd < |fs.dents| && d < |fs.dents|
    requires fs.dents[root].name == "/" && fs.dents[root].dir && Reached(fs, root, d, [])
    ensures Named(fs, disk, root, cwd, "//..") == Named(fs, disk, root, cwd, "/") == (Some(FollowDown(fs, root)), fs)
  {
    RootDots();
    FollowClosed(fs, d);
    FollowClosed(fs, root);
    var x := Above(fs, d);
    SameTop(fs, rank, d, x, root);
    Descend(fs, rank, x);
    assert Front([".."]) == [];
    assert Steps(fs, disk, root, []) == (Some(root), fs);
    assert Steps(fs, disk, root, [".."]) == (Some(x), fs);
    RoundTrip(fs, rank, disk, root, cwd, d, []);
    AboveBelow(fs, rank, d);
  }

  /** Tree roots that lead down to the same place have the same place above them. */
  lemma SameTop(fs: Fs, rank: seq<nat>, d: nat, x: nat, root: nat)
    requires WellFormed(fs, rank) && d < |fs.dents| && root < |fs.dents| && x < |fs.dents|
    requires x == Above(fs, d) && fs.dents[x].parent == x && FollowDown(fs, x) == FollowDown(fs, root)
    ensures FollowUp(fs, root) == x
  {
    TableMaps(fs, rank);
    var u, v := UpMap(fs.mounts), DownMap(fs.mounts);
    UpThenDown(v, u, Flipped(rank), rank, x);
    UpThenDown(v, u, Flipped(rank), rank, root);
    assert DentryOk(fs, x);
    ChaseOut(u, rank, d);
  }

  // -------------------------------------------------------------- exactly the visible ones

  /** An entry that was there before and is found by a name is the child of where the walk was. */
  lemma StepFrom(fs: Fs, rank: seq<nat>, disk: Disk, e: nat, name: string, x: nat)
    requires WellFormed(fs, rank) && e < |fs.dents| && GoodName(name) && x < |fs.dents|
    requires Step(fs, disk, e, name).0 == Some(x)
    ensures fs.dents[x].name == name && fs.dents[x].parent == FollowDown(fs, e) != x
  {
    Descend(fs, rank, e);
    var q := FollowDown(fs, e);
    assert DentryOk(fs, q) && DentryOk(fs, x);
    assert '/' in "/";
  }

  /** New entries are not mount points, so that a walk leads down to an old entry only from an
      old one. */
  lemma LeadsToOld(fs: Fs, disk: Disk, fs': Fs, rank': seq<nat>, e: nat)
    requires Closed(fs) && WellFormed(fs', rank') && Added(fs, disk, fs') && e < |fs'.dents|
    requires FollowDown(fs', e) < |fs.dents|
    ensures e < |fs.dents|
  {
    if e >= |fs.dents| { UncoveredStays(fs', rank', e); }
  }

  /** A walk along names that ends at an entry that was there before ends at one that is seen. */
  lemma {:induction false} WalkedIsSeen(fs: Fs, rank: seq<nat>, disk: Disk, root: nat, e: nat, names: seq<string>)
    requires WellFormed(fs, rank) && root < |fs.dents| && e < |fs.dents| && forall n :: n in names ==> GoodName(n)
    requires Steps(fs, disk, root, names).0 == Some(e)
    ensures Seen(fs, root, e, names)
    decreases |names|
  {
    if names != [] {
      var front, name := Front(names), Last(names);
      assert name in names && forall n :: n in front ==> n in names;
      WalkIs(fs, rank, disk, root, front);
      var (o, fs') := Steps(fs, disk, root, front);
      var rank' := StepsKeep(fs, rank, disk, root, front);
      StepFrom(fs', rank', disk, o.value, name, e);
      assert Kept(fs, fs', e);
      LeadsToOld(fs, disk, fs', rank', o.value);
      WalkedIsSeen(fs, rank, disk, root, o.value, front);
      BottomIs(fs', rank', o.value, fs'.dents[e].parent);
      assert Kept(fs, fs', o.value);
      assert Goes(fs, o.value, name, e);
    }
  }

  /** A path of names resolves to an entry that is there exactly if it is shown at these names. */
  lemma NamesResolve(fs: Fs, rank: seq<nat>, disk: Disk, root: nat, cwd: nat, d: nat, names: seq<string>)
    requires WellFormed(fs, rank) && root < |fs.dents| && cwd < |fs.dents| && d < |fs.dents|
    requires forall n :: n in names ==> GoodName(n)
    ensures Named(fs, disk, root, cwd, PathString(names)).0 == Some(d) <==> Shown(fs, root, d, names)
  {
    SplitPath(names);
    if Shown(fs, root, d, names) {
      var e: nat :| Seen(fs, root, e, names) && Bottom(fs.mounts, e, d);
      SeenIsWalked(fs, rank, disk, root, e, names);
      BottomIs(fs, rank, e, d);
      Descend(fs, rank, e);
    } else if Named(fs, disk, root, cwd, PathString(names)).0 == Some(d) {
      WalkIs(fs, rank, disk, root, names);
      var (o, fs') := Steps(fs, disk, root, names);
      var rank' := StepsKeep(fs, rank, disk, root, names);
      Descend(fs', rank', o.value);
      LeadsToOld(fs, disk, fs', rank', o.value);
      WalkedIsSeen(fs, rank, disk, root, o.value, names);
      BottomIs(fs', rank', o.value, d);
    }
  }

  /** Resolving the path of an entry gives the entry back exactly if something seen at that path
      leads down to it. */
  lemma RoundTripExactly(fs: Fs, rank: seq<nat>, disk: Disk, root: nat, cwd: nat, d: nat, names: seq<string>)
    requires WellFormed(fs, rank) && root < |fs.dents| && cwd < |fs.dents| && d < |fs.dents|
    requires IsPath(fs, d, names)
    ensures Named(fs, disk, root, cwd, PathString(names)).0 == Some(d) <==> Shown(fs, root, d, names)
  {
    PathNames(fs, rank, d, names);
    NamesResolve(fs, rank, disk, root, cwd, d, names);
  }

  /** Only whole trees are mounted. */
  ghost predicate TreesMounted(fs: Fs)
    requires Closed(fs)
  {
    forall k :: 0 <= k < |fs.mounts| ==> fs.dents[fs.mounts[k].root].name == "/"
  }

  /** Entries with a name of their own that lead down to the same place are the same. */
  lemma SameBelow(fs: Fs, rank: seq<nat>, d: nat, e: nat)
    requires WellFormed(fs, rank) && TreesMounted(fs) && d < |fs.dents| && e < |fs.dents|
    requires fs.dents[d].name != "/" && fs.dents[e].name != "/" && FollowDown(fs, d) == FollowDown(fs, e)
    ensures d == e
  {
    TableMaps(fs, rank);
    MapsAre(fs.mounts);
    var u, v := UpMap(fs.mounts), DownMap(fs.mounts);
    UpThenDown(v, u, Flipped(rank), rank, d);
    UpThenDown(v, u, Flipped(rank), rank, e);
    assert d !in u && e !in u;
  }

  /** Where whole trees are mounted, only an entry that no mount hides is shown at its path. */
  lemma {:induction false} ShownIsReached(fs: Fs, rank: seq<nat>, root: nat, d: nat, names: seq<string>, e: nat)
    requires WellFormed(fs, rank) && TreesMounted(fs) && root < |fs.dents| && d < |fs.dents| && IsPath(fs, d, names)
    requires Seen(fs, root, e, names) && FollowDown(fs, e) == FollowDown(fs, d)
    ensures Reached(fs, root, d, names)
    decreases |names|
  {
    FollowClosed(fs, d);
    AboveBelow(fs, rank, d);
    var x := Above(fs, d);
    Descend(fs, rank, x);
    PathNames(fs, rank, d, names);
    if names != [] {
      var e': nat :| Seen(fs, root, e', Front(names)) && Goes(fs, e', Last(names), e);
      var p := fs.dents[x].parent;
      assert '/' in "/" && Last(names) in names;
      BottomIs(fs, rank, e', fs.dents[e].parent);
      SameBelow(fs, rank, x, e);
      Descend(fs, rank, e');
      UncoveredStays(fs, rank, p);
      ShownIsReached(fs, rank, root, p, Front(names), e');
    }
  }

  /** Where whole trees are mounted, resolving the path of an entry gives the entry back exactly
      if no directory on its way is hidden under a mount and it is not a mount point itself. */
  lemma TreesRoundTrip(fs: Fs, rank: seq<nat>, disk: Disk, root: nat, cwd: nat, d: nat, names: seq<string>)
    requires WellFormed(fs, rank) && TreesMounted(fs) && root < |fs.dents| && cwd < |fs.dents| && d < |fs.dents|
    requires IsPath(fs, d, names)
    ensures Named(fs, disk, root, cwd, PathString(names)).0 == Some(d) <==>
      Reached(fs, root, d, names) && !IsMountPoint(fs.mounts, d)
  {
    RoundTripExactly(fs, rank, disk, root, cwd, d, names);
    UncoveredStays(fs, rank, d);
    if Shown(fs, root, d, names) {
      var e: nat :| Seen(fs, root, e, names) && Bottom(fs.mounts, e, d);
      BottomIs(fs, rank, e, d);
      Descend(fs, rank, e);
      ShownIsReached(fs, rank, root, d, names, e);
    } else if Reached(fs, root, d, names) && !IsMountPoint(fs.mounts, d) {
      var e := ReachedIsSeen(fs, rank, root, d, names);
      BottomIs(fs, rank, e, d);
    }
  }

  /** Directory `/a` with entry `x`, a tree with an entry `x` mounted on `/a`, and the hidden
      `x` mounted on the visible one. */
  ghost predicate SecondPlace(fs: Fs) {
    && |fs.dents| == 5 && fs.mounts == [Mount(4, 2), Mount(1, 3)]
    && fs.dents[0] == Dentry("/", 0, [0, 1], true, false) && fs.dents[1] == Dentry("a", 0, [2], true, true)
    && fs.dents[2] == Dentry("x", 1, [], true, false)
    && fs.dents[3] == Dentry("/", 3, [3, 4], true, false) && fs.dents[4] == Dentry("x", 3, [], true, true)
  }

  lemma ShortNames()
    ensures GoodName("a") && GoodName("x") && "a" != "/" && "x" != "/"
  {
    assert "a"[0] == 'a' && "x"[0] == 'x' && "/"[0] == '/' && "."[0] == '.';
  }

  lemma SecondClosed(fs: Fs)
    requires SecondPlace(fs)
    ensures Closed(fs)
  {
  }

  lemma SecondDentry(fs: Fs, d: nat)
    requires SecondPlace(fs) && Closed(fs) && d < 5
    ensures DentryOk(fs, d)
  {
    ShortNames();
    if d == 0 {
      assert 1 in fs.dents[0].child;
    } else if d == 1 {
      assert 1 in fs.dents[0].child;
    } else if d == 2 {
      assert 2 in fs.dents[1].child;
    } else if d == 3 {
    } else {
      assert 4 in fs.dents[3].child;
    }
  }

  lemma SecondOk(fs: Fs) returns (rank: seq<nat>)
    requires SecondPlace(fs)
    ensures WellFormed(fs, rank)
  {
    SecondClosed(fs);
    rank := [0, 1, 4, 2, 3];
    forall d: nat | d < |fs.dents| ensures DentryOk(fs, d) { SecondDentry(fs, d); }
    SecondTable(fs);
  }

  lemma SecondTable(fs: Fs)
    requires SecondPlace(fs) && Closed(fs)
    ensures TableOk(fs) && forall d :: IsMountPoint(fs.mounts, d) <==> d == 1 || d == 4
  {
    assert fs.mounts[0] == Mount(4, 2) && fs.mounts[1] == Mount(1, 3);
  }

  lemma SecondDown(fs: Fs, rank: seq<nat>)
    requires SecondPlace(fs) && WellFormed(fs, rank)
    ensures FollowDown(fs, 0) == 0 && FollowDown(fs, 1) == 3 && FollowDown(fs, 4) == 2
  {
    TableMaps(fs, rank);
    MapsAre(fs.mounts);
    SecondTable(fs);
    var v := DownMap(fs.mounts);
    assert fs.mounts[0] == Mount(4, 2) && fs.mounts[1] == Mount(1, 3);
    ChaseHop(v, Flipped(rank), 1);
    ChaseHop(v, Flipped(rank), 4);
    UncoveredStays(fs, rank, 0);
    UncoveredStays(fs, rank, 2);
    UncoveredStays(fs, rank, 3);
  }

  lemma SecondSeen(fs: Fs, rank: seq<nat>, names: seq<string>)
    requires SecondPlace(fs) && WellFormed(fs, rank) && names == ["a", "x"]
    ensures Seen(fs, 0, 4, names) && Bottom(fs.mounts, 4, 2)
  {
    SecondDown(fs, rank);
    ShortNames();
    BottomIs(fs, rank, 0, 0);
    BottomIs(fs, rank, 1, 3);
    BottomIs(fs, rank, 4, 2);
    assert Front(names) == ["a"] && Last(names) == "x" && Front(["a"]) == [] && Last(["a"]) == "a";
    assert Seen(fs, 0, 0, []) && Goes(fs, 0, "a", 1);
    assert Seen(fs, 0, 1, ["a"]) && Goes(fs, 1, "x", 4);
  }

  lemma SecondPath(fs: Fs, names: seq<string>)
    requires SecondPlace(fs) && Closed(fs) && names == ["a", "x"]
    ensures IsPath(fs, 2, names) && !Reached(fs, 0, 2, names)
  {
    ShortNames();
    SecondTable(fs);
    assert Front(names) == ["a"] && Last(names) == "x" && Front(["a"]) == [] && Last(["a"]) == "a";
    MapsAre(fs.mounts);
    assert 0 !in UpMap(fs.mounts) && FollowUp(fs, 0) == 0;
    assert IsPath(fs, 0, []);
    assert IsPath(fs, 1, ["a"]);
  }

  /** Such an entry is hidden, and still found again by its path, through its second place. */
  lemma HiddenFound(fs: Fs, disk: Disk, names: seq<string>) returns (rank: seq<nat>)
    requires SecondPlace(fs) && names == ["a", "x"]
    ensures WellFormed(fs, rank) && IsPath(fs, 2, names) && !Reached(fs, 0, 2, names)
    ensures Named(fs, disk, 0, 0, PathString(names)).0 == Some(2)
  {
    rank := SecondOk(fs);
    SecondPath(fs, names);
    SecondSeen(fs, rank, names);
    RoundTripExactly(fs, rank, disk, 0, 0, 2, names);
  }
}
