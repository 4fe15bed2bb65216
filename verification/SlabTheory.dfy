/** What every run of a slab cache keeps. */
module SlabTheory {
  import opened Common
  import opened Bits
  import opened Slab

  // ------------------------------------------------------------------------ geometry

  /** At least one object fits, and an embedded slab leaves its last 24 bytes alone. */
  predicate GeoOk(g: Geometry) {
    g.objsize > 0 && g.objs > 0 && (g.embed ==> g.objs * g.objsize <= 4072)
  }

  /** Every cache created without options has a sound layout; an embedded one has slabs of
      a single page. */
  lemma LayoutOk(size: nat, ctor: bool)
    requires size > 0
    ensures GeoOk(Layout(size, ctor)) && Layout(size, ctor).objsize >= size
    ensures Layout(size, ctor).objsize % 4 == 0
    ensures Layout(size, ctor).embed ==> Span(Layout(size, ctor)) == 4096
    ensures Layout(size, ctor).embed && ctor ==> Layout(size, ctor).objsize >= size + 4
  {
    var g := Layout(size, ctor);
    var slabsize := if g.embed then PageUp(g.objsize) - 24 else PageUp(g.objsize);
    PageUpFacts(g.objsize);
    assert 0 < g.objsize <= slabsize;
    ObjectsFit(slabsize, g.objsize);
    PageUpFacts(g.objs * g.objsize);
  }

  /** The layout, exactly: control data is embedded if object and link take at most an eighth of
      a page; objects take the least number of words; and a slab has as many as fit into the least
      number of pages for one, less the 24 bytes that describe an embedded slab. */
  lemma LayoutExactly(size: nat, ctor: bool)
    requires size > 0
    ensures var g, link := Layout(size, ctor), if ctor then 4 else 0;
      && (g.embed <==> size + link <= 512)
      && g.objsize % 4 == 0 && g.objsize - 4 < size + (if g.embed then link else 0) <= g.objsize
      && Span(g) % 4096 == 0 && Span(g) - 4096 < g.objsize <= Span(g)
      && var room := if g.embed then Span(g) - 24 else Span(g);
         g.objs * g.objsize <= room < (g.objs + 1) * g.objsize
  {
    LayoutOk(size, ctor);
    var g := Layout(size, ctor);
    var pages := PageUp(g.objsize);
    var room := if g.embed then pages - 24 else pages;
    assert g.objs == room / g.objsize;
    ObjectsFit(room, g.objsize);
    assert (g.objs + 1) * g.objsize == g.objs * g.objsize + g.objsize;
    PagesBetween(g.objsize, g.objs * g.objsize);
  }

  lemma PagesBetween(v: nat, w: nat)
    requires v <= w <= PageUp(v)
    ensures PageUp(w) == PageUp(v) && PageUp(v) % 4096 == 0 && PageUp(v) - 4096 < v <= PageUp(v)
  {
  }

  lemma ObjectsFit(slabsize: nat, objsize: nat)
    requires 0 < objsize <= slabsize
    ensures slabsize / objsize >= 1 && 0 < (slabsize / objsize) * objsize <= slabsize
    ensures objsize <= (slabsize / objsize) * objsize && slabsize < (slabsize / objsize) * objsize + objsize
  {
    var q := slabsize / objsize;
    assert slabsize == q * objsize + slabsize % objsize;
    assert q >= 1;
    MulMono(1, q, objsize);
  }

  lemma PageUpFacts(v: nat)
    ensures PageUp(v) >= v
    ensures 0 < v <= 4096 ==> PageUp(v) == 4096
  {
  }

  predicate IsObj(g: Geometry, s: nat, b: nat) {
    exists i :: 0 <= i < g.objs && b == Obj(g, s, i)
  }

  lemma ObjInside(g: Geometry, s: nat, i: nat)
    requires GeoOk(g) && i < g.objs
    ensures s <= Obj(g, s, i) && Obj(g, s, i) + g.objsize <= s + g.objs * g.objsize <= s + Span(g)
  {
    MulMono(i + 1, g.objs, g.objsize);
    assert (i + 1) * g.objsize == i * g.objsize + g.objsize;
  }

  lemma ObjApart(g: Geometry, s: nat, i: nat, j: nat)
    requires GeoOk(g) && i < j
    ensures Obj(g, s, i) + g.objsize <= Obj(g, s, j)
  {
    MulMono(i + 1, j, g.objsize);
    assert (i + 1) * g.objsize == i * g.objsize + g.objsize;
  }

  /** An embedded object names its slab by its page, and does not reach the control data. */
  lemma PageOfObj(g: Geometry, s: nat, b: nat)
    requires GeoOk(g) && g.embed && s % 4096 == 0 && IsObj(g, s, b)
    ensures PageOf(b) == s && b + g.objsize <= s + 4072
  {
    var i :| 0 <= i < g.objs && b == Obj(g, s, i);
    ObjInside(g, s, i);
    SamePage(s, b);
  }

  lemma SamePage(s: nat, b: nat)
    requires s % 4096 == 0 && s <= b < s + 4096
    ensures PageOf(b) == s
  {
    var q := s / 4096;
    DivUnique(b, 4096, q, b - s);
  }

  // ----------------------------------------------------------------------- invariant

  /** The bookkeeping of one slab agrees with the set of objects in use. */
  ghost predicate CtlOk(g: Geometry, s: nat, k: SlabCtl, live: set<nat>) {
    && s % 4096 == 0
    && k.inuse + |k.free| == g.objs
    && NoDup(k.free)
    && (forall b :: b in k.free ==> IsObj(g, s, b) && b !in live)
    && (forall b :: IsObj(g, s, b) && b !in k.free ==> b in live)
  }

  /** A slab is on the partial list exactly when some of its objects are in use and some
      are not, and on the full list exactly when all are in use. */
  ghost predicate ListedOk(c: Cache, s: nat)
    requires s in c.slabs
  {
    && c.slabs[s].inuse > 0
    && (s in c.part <==> c.slabs[s].inuse < c.g.objs)
    && (s in c.full <==> c.slabs[s].inuse == c.g.objs)
  }

  ghost predicate ListsOk(c: Cache) {
    && NoDup(c.part) && NoDup(c.full)
    && (forall s :: s in c.part ==> s in c.slabs)
    && (forall s :: s in c.full ==> s in c.slabs)
  }

  ghost predicate Apart(g: Geometry, slabs: map<nat, SlabCtl>) {
    forall s, t :: s in slabs && t in slabs && s != t ==> s + Span(g) <= t || t + Span(g) <= s
  }

  predicate Owned(c: Cache, b: nat) {
    exists s :: s in c.slabs && IsObj(c.g, s, b)
  }

  /** Bucket `i` links objects in use that hash to `i`, each once. */
  ghost predicate BucketOk(c: Cache, hash: Hash, live: set<nat>, i: nat)
    requires i < |c.table|
  {
    && (forall j :: 0 <= j < |c.table[i]| ==>
          && hash(c.table[i][j].buf) == i && c.table[i][j].buf in live
          && c.table[i][j].slab in c.slabs && IsObj(c.g, c.table[i][j].slab, c.table[i][j].buf))
    && (forall j, l :: 0 <= j < l < |c.table[i]| ==> c.table[i][j].buf != c.table[i][l].buf)
  }

  predicate Linked(c: Cache, hash: Hash, b: nat) {
    hash(b) < |c.table| && exists j :: 0 <= j < |c.table[hash(b)]| && c.table[hash(b)][j].buf == b
  }

  /** For caches with outside control data the table links exactly the objects in use. */
  ghost predicate TableOk(c: Cache, hash: Hash, live: set<nat>) {
    && (forall x :: hash(x) < 32)
    && |c.table| == (if c.hload == 0 then 0 else 32)
    && (forall i: nat {:trigger BucketOk(c, hash, live, i)} :: i < |c.table| ==> BucketOk(c, hash, live, i))
    && (forall b {:trigger Linked(c, hash, b)} :: b in live ==> Linked(c, hash, b))
  }

  ghost predicate Inv(c: Cache, hash: Hash, live: set<nat>) {
    && GeoOk(c.g)
    && (forall s :: s in c.slabs ==> CtlOk(c.g, s, c.slabs[s], live) && ListedOk(c, s))
    && ListsOk(c)
    && Apart(c.g, c.slabs)
    && (forall b :: b in live ==> Owned(c, b))
    && (if c.g.embed then (forall x :: hash(x) < 32) && c.hload == 0 && c.table == [] else TableOk(c, hash, live))
  }

  // -------------------------------------------------------------------------- lemmas

  /** Objects of different slabs are different. */
  lemma OneSlab(g: Geometry, slabs: map<nat, SlabCtl>, s: nat, t: nat, b: nat)
    requires GeoOk(g) && Apart(g, slabs) && s in slabs && t in slabs && IsObj(g, s, b) && IsObj(g, t, b)
    ensures s == t
  {
    var i :| 0 <= i < g.objs && b == Obj(g, s, i);
    var j :| 0 <= j < g.objs && b == Obj(g, t, j);
    ObjInside(g, s, i);
    ObjInside(g, t, j);
  }

  lemma {:induction false} FreshOk(g: Geometry, s: nat, n: nat)
    requires GeoOk(g) && n <= g.objs
    ensures var q := FreshFree(g, s, n);
            && |q| == n && NoDup(q)
            && (forall b :: b in q <==> exists i :: 0 <= i < n && b == Obj(g, s, i))
    decreases n
  {
    if n > 0 {
      FreshOk(g, s, n - 1);
      var q, r := FreshFree(g, s, n), FreshFree(g, s, n - 1);
      forall i | 0 <= i < n - 1 ensures Obj(g, s, i) != Obj(g, s, n - 1) { ObjApart(g, s, i, n - 1); }
      assert Obj(g, s, n - 1) !in r;
      forall i, j | 0 <= i < j < |q| ensures q[i] != q[j] { assert q[j] == r[j - 1] && r[j - 1] in r; }
      forall b | exists i :: 0 <= i < n && b == Obj(g, s, i) ensures b in q {
        var i :| 0 <= i < n && b == Obj(g, s, i);
        if i < n - 1 { assert b in r; }
      }
    }
  }

  // ---------------------------------------------------------------------- allocation

  /** Memory for a new slab: page-aligned, and apart from all slabs there are. */
  ghost predicate GrantOk(c: Cache, grant: Option<nat>) {
    grant.Some? ==>
      && grant.value % 4096 == 0
      && forall s :: s in c.slabs ==> s + Span(c.g) <= grant.value || grant.value + Span(c.g) <= s
  }

  lemma TakeOne(g: Geometry, s: nat, k: SlabCtl, live: set<nat>)
    requires CtlOk(g, s, k, live) && k.free != []
    ensures CtlOk(g, s, SlabCtl(k.inuse + 1, k.free[1..]), live + {k.free[0]})
    ensures IsObj(g, s, k.free[0]) && k.free[0] !in live
  {
    var b, t := k.free[0], k.free[1..];
    assert k.free == [b] + t;
    assert b in k.free && b !in t;
  }

  lemma PutOne(g: Geometry, s: nat, k: SlabCtl, live: set<nat>, b: nat)
    requires CtlOk(g, s, k, live) && IsObj(g, s, b) && b in live && k.inuse > 0
    ensures CtlOk(g, s, SlabCtl(k.inuse - 1, [b] + k.free), live - {b})
  {
    var q := [b] + k.free;
    assert b !in k.free;
    forall i, j | 0 <= i < j < |q| ensures q[i] != q[j] { assert q[j] in k.free; }
  }

  /** Some object is in use: the count is not zero. */
  lemma {:induction false} FreeBound(g: Geometry, s: nat, q: seq<nat>, b: nat)
    requires GeoOk(g) && NoDup(q) && (forall x :: x in q ==> IsObj(g, s, x)) && IsObj(g, s, b) && b !in q
    ensures |q| < g.objs
  {
    FreshOk(g, s, g.objs);
    var all := FreshFree(g, s, g.objs);
    assert forall x :: IsObj(g, s, x) ==> x in all;
    SeqSet(all);
    SeqSet(q);
    assert b in ToSet(all);
    SubsetSize(ToSet(q), ToSet(all) - {b});
  }

  ghost function ToSet(q: seq<nat>): (r: set<nat>)
    ensures forall x :: x in r <==> x in q
  {
    set x | x in q
  }

  lemma {:induction false} SeqSet(q: seq<nat>)
    requires NoDup(q)
    ensures |ToSet(q)| == |q|
  {
    if q != [] {
      var t := q[1..];
      SeqSet(t);
      assert q == [q[0]] + t;
      assert q[0] !in t;
      assert ToSet(q) == ToSet(t) + {q[0]};
    }
  }

  /** A slab that is not the owner of `b` does not notice. */
  lemma OtherSlab(c: Cache, s: nat, t: nat, k: SlabCtl, live: set<nat>, b: nat)
    requires GeoOk(c.g) && Apart(c.g, c.slabs) && s in c.slabs && t in c.slabs && s != t && IsObj(c.g, s, b)
    requires CtlOk(c.g, t, k, live)
    ensures CtlOk(c.g, t, k, live + {b}) && CtlOk(c.g, t, k, live - {b})
  {
    assert !IsObj(c.g, t, b) by { if IsObj(c.g, t, b) { OneSlab(c.g, c.slabs, s, t, b); } }
  }

  /** Slab `s` has been taken off its list to hand out an object; all else is in order. */
  ghost predicate Opened(c: Cache, hash: Hash, live: set<nat>, s: nat) {
    && GeoOk(c.g) && s in c.slabs && s !in c.part && s !in c.full && c.slabs[s].free != []
    && (forall t :: t in c.slabs ==> CtlOk(c.g, t, c.slabs[t], live) && (t != s ==> ListedOk(c, t)))
    && ListsOk(c)
    && Apart(c.g, c.slabs)
    && (forall b :: b in live ==> Owned(c, b))
    && (if c.g.embed then (forall x :: hash(x) < 32) && c.hload == 0 && c.table == [] else TableOk(c, hash, live))
  }

  lemma PickOpens(c: Cache, hash: Hash, live: set<nat>, grant: Option<nat>)
    requires Inv(c, hash, live) && GrantOk(c, grant)
    ensures Pick(c, grant).None? <==> c.part == [] && grant.None?
    ensures Pick(c, grant).Some? ==> var (s, c1) := Pick(c, grant).value; Opened(c1, hash, live, s) && c1.g == c.g
  {
    if c.part != [] {
      PickPartial(c, hash, live);
    } else if grant.Some? {
      PickNew(c, hash, live, grant.value);
    }
  }

  lemma PickPartial(c: Cache, hash: Hash, live: set<nat>)
    requires Inv(c, hash, live) && c.part != []
    ensures Opened(c.(part := c.part[1..]), hash, live, c.part[0])
  {
    var s, t := c.part[0], c.part[1..];
    assert c.part == [s] + t && s in c.part && s !in t;
    var c1 := c.(part := t);
    assert forall x :: x in c.slabs && x != s ==> ListedOk(c, x) && ListedOk(c1, x);
    forall b | b in live ensures Owned(c1, b) { assert Owned(c, b); }
    if !c.g.embed { TableSame(c, c1, hash, live); }
  }

  lemma TableSame(c: Cache, c1: Cache, hash: Hash, live: set<nat>)
    requires TableOk(c, hash, live) && c1.g == c.g && c1.table == c.table && c1.hload == c.hload
    requires c.slabs.Keys <= c1.slabs.Keys
    ensures TableOk(c1, hash, live)
  {
    forall i | 0 <= i < |c1.table| ensures BucketOk(c1, hash, live, i) { assert BucketOk(c, hash, live, i); }
    forall b | b in live ensures Linked(c1, hash, b) { assert Linked(c, hash, b); }
  }

  /** No object of a new slab is in use. */
  lemma NewUnused(c: Cache, hash: Hash, live: set<nat>, s: nat, k: SlabCtl)
    requires Inv(c, hash, live) && GrantOk(c, Some(s)) && s !in c.slabs
    ensures forall b :: IsObj(c.g, s, b) ==> b !in live
  {
    forall b | IsObj(c.g, s, b) && b in live ensures false {
      assert Owned(c, b);
      var t :| t in c.slabs && IsObj(c.g, t, b);
      OneSlab(c.g, c.slabs[s := k], s, t, b);
    }
  }

  /** The control data of a new slab: all its objects are free. */
  lemma NewCtl(c: Cache, hash: Hash, live: set<nat>, s: nat)
    requires Inv(c, hash, live) && GrantOk(c, Some(s)) && s !in c.slabs
    ensures var k := SlabCtl(0, FreshFree(c.g, s, c.g.objs)); CtlOk(c.g, s, k, live) && k.free != []
  {
    FreshOk(c.g, s, c.g.objs);
    NewUnused(c, hash, live, s, SlabCtl(0, FreshFree(c.g, s, c.g.objs)));
  }

  lemma PickNew(c: Cache, hash: Hash, live: set<nat>, s: nat)
    requires Inv(c, hash, live) && GrantOk(c, Some(s))
    ensures Opened(c.(slabs := c.slabs[s := SlabCtl(0, FreshFree(c.g, s, c.g.objs))]), hash, live, s)
  {
    var k := SlabCtl(0, FreshFree(c.g, s, c.g.objs));
    var c1 := c.(slabs := c.slabs[s := k]);
    assert s !in c.slabs by { SpanPositive(c.g); }
    NewCtl(c, hash, live, s);
    forall t | t in c1.slabs && t != s ensures CtlOk(c.g, t, c1.slabs[t], live) && ListedOk(c1, t) {
      assert ListedOk(c, t);
    }
    forall b | b in live ensures Owned(c1, b) { OwnedStays(c, c1, b); }
    if !c.g.embed { TableSame(c, c1, hash, live); }
  }

  lemma OwnedStays(c: Cache, c': Cache, b: nat)
    requires Owned(c, b) && c'.g == c.g && c.slabs.Keys <= c'.slabs.Keys
    ensures Owned(c', b)
  {
    var t :| t in c.slabs && IsObj(c.g, t, b);
    assert t in c'.slabs;
  }

  lemma SpanPositive(g: Geometry)
    requires GeoOk(g)
    ensures Span(g) >= 4096
  {
    ObjInside(g, 0, 0);
  }

  lemma PutBucket(c: Cache, hash: Hash, live: set<nat>, b: Bufctl, i: nat)
    requires TableOk(c, hash, live) && b.buf !in live && b.slab in c.slabs && IsObj(c.g, b.slab, b.buf)
    requires i < |HashPut(c, hash, b).table|
    ensures BucketOk(HashPut(c, hash, b), hash, live + {b.buf}, i)
  {
    var c' := HashPut(c, hash, b);
    if c.hload > 0 { assert BucketOk(c, hash, live, i); }
    if i == hash(b.buf) && c.hload > 0 {
      var q, q' := c.table[i], c'.table[i];
      assert q' == [b] + q;
      assert forall j :: 0 < j < |q'| ==> q'[j] == q[j - 1];
    }
  }

  lemma PutLinked(c: Cache, hash: Hash, live: set<nat>, b: Bufctl, x: nat)
    requires TableOk(c, hash, live) && (x == b.buf || x in live)
    ensures Linked(HashPut(c, hash, b), hash, x)
  {
    var c', i0 := HashPut(c, hash, b), hash(b.buf);
    if x == b.buf {
      assert c'.table[i0][0] == b;
    } else {
      assert Linked(c, hash, x);
      var j :| 0 <= j < |c.table[hash(x)]| && c.table[hash(x)][j].buf == x;
      if hash(x) == i0 {
        assert c'.table[i0][j + 1].buf == x;
      } else {
        assert c'.table[hash(x)][j].buf == x;
      }
    }
  }

  lemma PutOk(c: Cache, hash: Hash, live: set<nat>, b: Bufctl)
    requires TableOk(c, hash, live) && b.buf !in live && b.slab in c.slabs && IsObj(c.g, b.slab, b.buf)
    ensures TableOk(HashPut(c, hash, b), hash, live + {b.buf})
  {
    var c' := HashPut(c, hash, b);
    forall i: nat | i < |c'.table| ensures BucketOk(c', hash, live + {b.buf}, i) { PutBucket(c, hash, live, b, i); }
    forall x | x in live + {b.buf} ensures Linked(c', hash, x) { PutLinked(c, hash, live, b, x); }
  }

  lemma ConsNoDup(x: nat, q: seq<nat>)
    requires NoDup(q) && x !in q
    ensures NoDup([x] + q) && forall y :: y in [x] + q <==> y == x || y in q
  {
  }

  /** A slab that is on no list is put in front of the one it belongs on. */
  lemma Relist(c: Cache, c': Cache, s: nat, k: SlabCtl)
    requires ListsOk(c) && s in c.slabs && s !in c.part && s !in c.full
    requires forall t :: t in c.slabs && t != s ==> ListedOk(c, t)
    requires 0 < k.inuse <= c.g.objs && c'.g == c.g && c'.slabs == c.slabs[s := k]
    requires c'.part == if k.inuse < c.g.objs then [s] + c.part else c.part
    requires c'.full == if k.inuse < c.g.objs then c.full else [s] + c.full
    ensures ListsOk(c') && forall t :: t in c'.slabs ==> ListedOk(c', t)
  {
    ConsNoDup(s, c.part);
    ConsNoDup(s, c.full);
    forall t | t in c'.slabs ensures ListedOk(c', t) {
      if t != s { assert ListedOk(c, t); }
    }
  }

  lemma HandOutLists(c: Cache, hash: Hash, live: set<nat>, s: nat)
    requires Opened(c, hash, live, s)
    ensures c.hload > 0 ==> |c.table| == 32
    ensures var c' := HandOut(c, hash, s);
            && ListsOk(c') && Apart(c'.g, c'.slabs) && c'.g == c.g && c'.slabs.Keys == c.slabs.Keys
            && (forall t :: t in c'.slabs ==> ListedOk(c', t))
  {
    var k := c.slabs[s];
    assert CtlOk(c.g, s, k, live);
    Relist(c, HandOut(c, hash, s), s, SlabCtl(k.inuse + 1, k.free[1..]));
  }

  lemma HandOutUpdates(c: Cache, hash: Hash, s: nat)
    requires s in c.slabs && c.slabs[s].free != [] && (forall x :: hash(x) < 32) && (c.hload > 0 ==> |c.table| == 32)
    ensures HandOut(c, hash, s).slabs == c.slabs[s := SlabCtl(c.slabs[s].inuse + 1, c.slabs[s].free[1..])]
  {
  }

  lemma HandOutSlabs(c: Cache, hash: Hash, live: set<nat>, s: nat)
    requires Opened(c, hash, live, s)
    ensures c.hload > 0 ==> |c.table| == 32
    ensures var c', b := HandOut(c, hash, s), c.slabs[s].free[0];
            && (forall t :: t in c'.slabs ==> CtlOk(c.g, t, c'.slabs[t], live + {b}))
            && b !in live && IsObj(c.g, s, b)
  {
    var k := c.slabs[s];
    var b := k.free[0];
    var c' := HandOut(c, hash, s);
    TakeOne(c.g, s, k, live);
    HandOutUpdates(c, hash, s);
    forall t | t in c'.slabs ensures CtlOk(c.g, t, c'.slabs[t], live + {b}) {
      if t != s { OtherSlab(c, s, t, c.slabs[t], live, b); }
    }
  }

  lemma HandOutKeeps(c: Cache, hash: Hash, live: set<nat>, s: nat)
    requires Opened(c, hash, live, s)
    ensures c.hload > 0 ==> |c.table| == 32
    ensures var b := c.slabs[s].free[0]; Inv(HandOut(c, hash, s), hash, live + {b}) && b !in live
  {
    HandOutSlabs(c, hash, live, s);
    HandOutLists(c, hash, live, s);
    var k := c.slabs[s];
    var b := k.free[0];
    var c' := HandOut(c, hash, s);
    forall x | x in live + {b} ensures Owned(c', x) {
      if x == b {
        assert s in c'.slabs;
      } else {
        assert Owned(c, x);
        var t :| t in c.slabs && IsObj(c.g, t, x);
        assert t in c'.slabs;
      }
    }
    if !c.g.embed {
      var c2 := c.(slabs := c.slabs[s := SlabCtl(k.inuse + 1, k.free[1..])]);
      TableSame(c, c2, hash, live);
      PutOk(c2, hash, live, Bufctl(b, s));
      TableSame(HashPut(c2, hash, Bufctl(b, s)), c', hash, live + {b});
    }
  }

  /** Allocation fails only without a partial slab and without memory for a new one; an
      object it hands out was not in use. */
  lemma AllocKeeps(c: Cache, hash: Hash, live: set<nat>, grant: Option<nat>)
    requires Inv(c, hash, live) && GrantOk(c, grant)
    ensures c.hload > 0 ==> |c.table| == 32
    ensures var (r, c') := Alloc(c, hash, grant);
            && (r.None? <==> c.part == [] && grant.None?)
            && (r.None? ==> c' == c)
            && (r.Some? ==> r.value !in live && Inv(c', hash, live + {r.value}))
  {
    PickOpens(c, hash, live, grant);
    if Pick(c, grant).Some? {
      var (s, c1) := Pick(c, grant).value;
      HandOutKeeps(c1, hash, live, s);
    }
  }

  // ------------------------------------------------------------------------- freeing

  lemma OneMore(b: Bufctl, r: seq<Bufctl>)
    requires (forall j, l :: 0 <= j < l < |r| ==> r[j].buf != r[l].buf) && forall x :: x in r ==> x.buf != b.buf
    ensures forall j, l :: 0 <= j < l < |[b] + r| ==> ([b] + r)[j].buf != ([b] + r)[l].buf
  {
    forall j, l | 0 <= j < l < |[b] + r| ensures ([b] + r)[j].buf != ([b] + r)[l].buf {
      assert r[l - 1] in r;
    }
  }

  lemma {:induction false} TakeOk(q: seq<Bufctl>, buf: nat)
    requires forall j, l :: 0 <= j < l < |q| ==> q[j].buf != q[l].buf
    ensures Take(q, buf).None? <==> forall j :: 0 <= j < |q| ==> q[j].buf != buf
    ensures Take(q, buf).Some? ==>
              var (b, r) := Take(q, buf).value;
              && b in q && b.buf == buf
              && (forall x :: x in r <==> x in q && x.buf != buf)
              && (forall j, l :: 0 <= j < l < |r| ==> r[j].buf != r[l].buf)
  {
    if q != [] {
      var t := q[1..];
      FirstAndRest(q);
      if q[0].buf != buf {
        TakeOk(t, buf);
        if Take(t, buf).Some? { OneMore(q[0], Take(t, buf).value.1); }
      }
    }
  }

  /** The first link and the others. */
  lemma FirstAndRest(q: seq<Bufctl>)
    requires q != [] && forall j, l :: 0 <= j < l < |q| ==> q[j].buf != q[l].buf
    ensures forall x :: x in q <==> x == q[0] || x in q[1..]
    ensures forall x :: x in q[1..] ==> x.buf != q[0].buf
    ensures forall j :: 0 <= j < |q[1..]| ==> q[1..][j] == q[j + 1]
  {
    assert q == [q[0]] + q[1..];
  }

  /** The last object of a slab that is in use. */
  lemma LastOne(g: Geometry, s: nat, k: SlabCtl, live: set<nat>, buf: nat, b: nat)
    requires GeoOk(g) && CtlOk(g, s, k, live) && k.inuse == 1
    requires buf in live && IsObj(g, s, buf) && b in live && IsObj(g, s, b)
    ensures b == buf
  {
    if b != buf {
      PutOne(g, s, k, live, buf);
      FreeBound(g, s, [buf] + k.free, b);
    }
  }

  lemma TableDrop(c: Cache, hash: Hash, live: set<nat>, buf: nat)
    requires TableOk(c, hash, live) && buf in live && !c.g.embed
    ensures Locate(c, hash, buf).Some?
    ensures var (s, c1) := Locate(c, hash, buf).value;
            && s in c.slabs && IsObj(c.g, s, buf)
            && TableOk(c1, hash, live - {buf}) && c1 == c.(table := c1.table)
  {
    var i := hash(buf);
    assert Linked(c, hash, buf) && BucketOk(c, hash, live, i);
    TakeOk(c.table[i], buf);
    var (b, r) := Take(c.table[i], buf).value;
    var c1 := c.(table := c.table[i := r]);
    forall j | 0 <= j < |c1.table| ensures BucketOk(c1, hash, live - {buf}, j) {
      assert BucketOk(c, hash, live, j);
      if j == i {
        forall l | 0 <= l < |r| ensures r[l] in c.table[i] && r[l].buf != buf { assert r[l] in r; }
      }
    }
    forall x | x in live - {buf} ensures Linked(c1, hash, x) {
      assert Linked(c, hash, x);
      var j :| 0 <= j < |c.table[hash(x)]| && c.table[hash(x)][j].buf == x;
      if hash(x) == i {
        assert c.table[i][j] in c.table[i];
        assert c.table[i][j] in r;
        var l :| 0 <= l < |r| && r[l] == c.table[i][j];
        assert c1.table[i][l].buf == x;
      } else {
        assert c1.table[hash(x)][j].buf == x;
      }
    }
  }

  lemma LocateOk(c: Cache, hash: Hash, live: set<nat>, buf: nat)
    requires Inv(c, hash, live) && buf in live
    ensures Locate(c, hash, buf).Some?
    ensures var (s, c1) := Locate(c, hash, buf).value;
            && s in c.slabs && IsObj(c.g, s, buf) && c1 == c.(table := c1.table)
            && (!c.g.embed ==> TableOk(c1, hash, live - {buf}))
            && (c.g.embed ==> c1 == c)
  {
    if c.g.embed {
      assert Owned(c, buf);
      var s :| s in c.slabs && IsObj(c.g, s, buf);
      assert CtlOk(c.g, s, c.slabs[s], live);
      PageOfObj(c.g, s, buf);
    } else {
      TableDrop(c, hash, live, buf);
    }
  }

  /** Nothing is in use in a slab that is given back. */
  lemma FreeLast(c: Cache, c1: Cache, hash: Hash, live: set<nat>, s: nat, buf: nat)
    requires Inv(c, hash, live) && buf in live && s in c.slabs && IsObj(c.g, s, buf) && c.slabs[s].inuse == 1
    requires c1 == c.(table := c1.table) && (!c.g.embed ==> TableOk(c1, hash, live - {buf})) && (c.g.embed ==> c1 == c)
    ensures Inv(c1.(part := Remove(c1.part, s), full := Remove(c1.full, s),
                    slabs := c1.slabs - {s}), hash, live - {buf})
  {
    var c' := c1.(part := Remove(c1.part, s), full := Remove(c1.full, s), slabs := c1.slabs - {s});
    RemoveOk(c.part, s);
    RemoveOk(c.full, s);
    forall t | t in c'.slabs ensures CtlOk(c'.g, t, c'.slabs[t], live - {buf}) && ListedOk(c', t) {
      OtherSlab(c, s, t, c.slabs[t], live, buf);
      assert ListedOk(c, t);
    }
    forall b | b in live - {buf} ensures Owned(c', b) { LastOwned(c, hash, live, s, buf, c', b); }
    if !c.g.embed { LastTable(c, c1, hash, live, s, buf, c'); }
  }

  /** The other objects in use are in other slabs. */
  lemma NotInLast(c: Cache, hash: Hash, live: set<nat>, s: nat, buf: nat, t: nat, b: nat)
    requires Inv(c, hash, live) && buf in live && s in c.slabs && IsObj(c.g, s, buf) && c.slabs[s].inuse == 1
    requires b in live - {buf} && t in c.slabs && IsObj(c.g, t, b)
    ensures t != s
  {
    if t == s { LastOne(c.g, s, c.slabs[s], live, buf, b); }
  }

  lemma LastOwned(c: Cache, hash: Hash, live: set<nat>, s: nat, buf: nat, c': Cache, b: nat)
    requires Inv(c, hash, live) && buf in live && s in c.slabs && IsObj(c.g, s, buf) && c.slabs[s].inuse == 1
    requires c'.g == c.g && c'.slabs == c.slabs - {s} && b in live - {buf}
    ensures Owned(c', b)
  {
    assert Owned(c, b);
    var t :| t in c.slabs && IsObj(c.g, t, b);
    NotInLast(c, hash, live, s, buf, t, b);
    assert t in c'.slabs;
  }

  lemma LastTable(c: Cache, c1: Cache, hash: Hash, live: set<nat>, s: nat, buf: nat, c': Cache)
    requires Inv(c, hash, live) && buf in live && s in c.slabs && IsObj(c.g, s, buf) && c.slabs[s].inuse == 1
    requires c1 == c.(table := c1.table) && TableOk(c1, hash, live - {buf})
    requires c' == c1.(part := c'.part, full := c'.full, slabs := c1.slabs - {s})
    ensures TableOk(c', hash, live - {buf})
  {
    forall b, t | b in live - {buf} && t in c.slabs && IsObj(c.g, t, b) ensures t != s {
      NotInLast(c, hash, live, s, buf, t, b);
    }
    forall i | 0 <= i < |c'.table| ensures BucketOk(c', hash, live - {buf}, i) {
      assert BucketOk(c1, hash, live - {buf}, i);
    }
    forall b | b in live - {buf} ensures Linked(c', hash, b) { assert Linked(c1, hash, b); }
  }

  /** The slab keeps other objects in use: it moves to the partial list if it was full. */
  lemma FreeStays(c: Cache, c1: Cache, hash: Hash, live: set<nat>, s: nat, buf: nat, c': Cache)
    requires Inv(c, hash, live) && buf in live && s in c.slabs && IsObj(c.g, s, buf) && c.slabs[s].inuse > 1
    requires c1 == c.(table := c1.table) && (!c.g.embed ==> TableOk(c1, hash, live - {buf})) && (c.g.embed ==> c1 == c)
    requires var k := SlabCtl(c.slabs[s].inuse - 1, [buf] + c.slabs[s].free);
             c' == if k.inuse == c.g.objs - 1
                   then c1.(slabs := c1.slabs[s := k], part := [s] + Remove(c1.part, s), full := Remove(c1.full, s))
                   else c1.(slabs := c1.slabs[s := k])
    ensures Inv(c', hash, live - {buf})
  {
    var k := SlabCtl(c.slabs[s].inuse - 1, [buf] + c.slabs[s].free);
    FreeStaysLists(c, c1, live, s, k, c') by { assert ListedOk(c, s) && CtlOk(c.g, s, c.slabs[s], live); }
    StaysCtl(c, hash, live, s, buf, k);
    assert c'.slabs == c.slabs[s := k] && c'.g == c.g && c'.table == c1.table && c'.hload == c.hload;
    ApartStays(c.g, c.slabs, c'.slabs);
    forall b | b in live - {buf} ensures Owned(c', b) { OwnedStays(c, c', b); }
    if !c.g.embed { TableSame(c1, c', hash, live - {buf}); }
  }

  lemma ApartStays(g: Geometry, slabs: map<nat, SlabCtl>, slabs': map<nat, SlabCtl>)
    requires Apart(g, slabs) && slabs'.Keys <= slabs.Keys
    ensures Apart(g, slabs')
  {
  }

  lemma StaysCtl(c: Cache, hash: Hash, live: set<nat>, s: nat, buf: nat, k: SlabCtl)
    requires Inv(c, hash, live) && buf in live && s in c.slabs && IsObj(c.g, s, buf) && c.slabs[s].inuse > 1
    requires k == SlabCtl(c.slabs[s].inuse - 1, [buf] + c.slabs[s].free)
    ensures var slabs := c.slabs[s := k]; forall t :: t in slabs ==> CtlOk(c.g, t, slabs[t], live - {buf})
  {
    PutOne(c.g, s, c.slabs[s], live, buf);
    forall t | t in c.slabs && t != s ensures CtlOk(c.g, t, c.slabs[t], live - {buf}) {
      OtherSlab(c, s, t, c.slabs[t], live, buf);
    }
  }

  lemma FreeStaysLists(c: Cache, c1: Cache, live: set<nat>, s: nat, k: SlabCtl, c': Cache)
    requires ListsOk(c) && (forall t :: t in c.slabs ==> ListedOk(c, t)) && s in c.slabs
    requires c1 == c.(table := c1.table) && k.inuse == c.slabs[s].inuse - 1 > 0 && c.slabs[s].inuse <= c.g.objs
    requires c' == if k.inuse == c.g.objs - 1
                   then c1.(slabs := c1.slabs[s := k], part := [s] + Remove(c1.part, s), full := Remove(c1.full, s))
                   else c1.(slabs := c1.slabs[s := k])
    ensures ListsOk(c') && forall t :: t in c'.slabs ==> ListedOk(c', t)
  {
    assert ListedOk(c, s);
    if k.inuse == c.g.objs - 1 {
      RemoveOk(c.part, s);
      RemoveOk(c.full, s);
      var off := c1.(part := Remove(c.part, s), full := Remove(c.full, s));
      assert forall t :: t in c.slabs && t != s ==> ListedOk(c, t) && ListedOk(off, t);
      Relist(off, c', s, k);
    } else {
      forall t | t in c'.slabs ensures ListedOk(c', t) { assert ListedOk(c, t); }
    }
  }

  /** Freeing an object in use takes back exactly that object; for caches with outside
      control data, freeing anything else changes nothing. */
  lemma FreeKeeps(c: Cache, hash: Hash, live: set<nat>, buf: nat)
    requires Inv(c, hash, live) && (c.g.embed ==> buf in live)
    ensures Inv(Free(c, hash, buf), hash, live - {buf})
    ensures buf !in live ==> Free(c, hash, buf) == c
  {
    if buf in live {
      LocateOk(c, hash, live, buf);
      var (s, c1) := Locate(c, hash, buf).value;
      assert ListedOk(c, s);
      if c.slabs[s].inuse == 1 {
        FreeLast(c, c1, hash, live, s, buf);
      } else {
        FreeStays(c, c1, hash, live, s, buf, Free(c, hash, buf));
      }
    } else {
      assert live - {buf} == live;
      if hash(buf) < |c.table| {
        assert BucketOk(c, hash, live, hash(buf));
        TakeOk(c.table[hash(buf)], buf);
      }
    }
  }

  // ----------------------------------------------------------------------- reuse

  /** A new slab hands out its objects from the last to the first. */
  lemma {:induction false} FreshAt(g: Geometry, s: nat, n: nat, k: nat)
    requires k < n
    ensures |FreshFree(g, s, n)| == n && FreshFree(g, s, n)[k] == Obj(g, s, n - 1 - k)
    decreases n
  {
    if n > 1 { FreshAt(g, s, n - 1, if k > 0 then k - 1 else 0); }
  }

  lemma {:induction false} RemoveAbsent(q: seq<nat>, x: nat)
    requires x !in q
    ensures Remove(q, x) == q
  {
    if q != [] { RemoveAbsent(q[1..], x); }
  }

  /** What was linked last is found first. */
  lemma TableBack(c: Cache, hash: Hash, b: Bufctl, c1: Cache)
    requires (forall x :: hash(x) < 32) && (c.hload > 0 ==> |c.table| == 32) && !c.g.embed
    requires c1 == HashPut(c, hash, b).(part := c1.part, full := c1.full)
    ensures Locate(c1, hash, b.buf) ==
      Some((b.slab, c1.(table := if c.hload == 0 then seq(32, _ => []) else c.table)))
  {
    var t: seq<seq<Bufctl>>, i := if c.hload == 0 then seq(32, _ => []) else c.table, hash(b.buf);
    assert c1.table == t[i := [b] + t[i]];
    assert c1.table[i := t[i]] == t;
  }

  lemma OpenedFacts(c: Cache, hash: Hash, live: set<nat>, s: nat)
    requires Opened(c, hash, live, s)
    ensures s in c.slabs && c.slabs[s].free != [] && s !in c.part && s !in c.full && c.slabs[s].inuse < c.g.objs
    ensures (forall x :: hash(x) < 32) && (c.hload > 0 ==> |c.table| == 32)
  {
    assert CtlOk(c.g, s, c.slabs[s], live);
  }

  lemma FoundByHash(c: Cache, hash: Hash, s: nat)
    requires s in c.slabs && c.slabs[s].free != [] && !c.g.embed
    requires (forall x :: hash(x) < 32) && (c.hload > 0 ==> |c.table| == 32)
    ensures var c' := HandOut(c, hash, s);
      Locate(c', hash, c.slabs[s].free[0]) == Some((s, c'.(table := TableAfter(c))))
  {
    var k := c.slabs[s];
    var c2 := c.(slabs := c.slabs[s := SlabCtl(k.inuse + 1, k.free[1..])]);
    TableBack(c2, hash, Bufctl(k.free[0], s), HandOut(c, hash, s));
  }

  /** The cache and the slab that an object just handed out is found in. */
  lemma FoundAgain(c: Cache, hash: Hash, live: set<nat>, s: nat)
    requires Opened(c, hash, live, s)
    ensures c.hload > 0 ==> |c.table| == 32
    ensures var c' := HandOut(c, hash, s);
      Locate(c', hash, c.slabs[s].free[0]) == Some((s, c'.(table := TableAfter(c))))
  {
    OpenedFacts(c, hash, live, s);
    if c.g.embed {
      var k := c.slabs[s];
      assert CtlOk(c.g, s, k, live) && k.free[0] in k.free;
      PageOfObj(c.g, s, k.free[0]);
    } else {
      FoundByHash(c, hash, s);
    }
  }

  /** The table after a link was put in and taken out again. */
  function TableAfter(c: Cache): seq<seq<Bufctl>> {
    if c.g.embed || c.hload > 0 then c.table else seq(32, _ => [])
  }

  lemma FreeIs(c: Cache, hash: Hash, buf: nat, s: nat, c1: Cache, k: SlabCtl)
    requires Locate(c, hash, buf) == Some((s, c1)) && s in c1.slabs && c1.slabs[s].inuse > 0
    requires k == SlabCtl(c1.slabs[s].inuse - 1, [buf] + c1.slabs[s].free)
    ensures var part, full := Remove(c1.part, s), Remove(c1.full, s);
      Free(c, hash, buf) ==
        if k.inuse == 0 then c1.(slabs := c1.slabs - {s}, part := part, full := full)
        else if k.inuse == c.g.objs - 1 then c1.(slabs := c1.slabs[s := k], part := [s] + part, full := full)
        else c1.(slabs := c1.slabs[s := k])
  {
  }

  lemma HandOutIs(c: Cache, hash: Hash, s: nat)
    requires s in c.slabs && c.slabs[s].free != [] && (forall x :: hash(x) < 32) && (c.hload > 0 ==> |c.table| == 32)
    ensures var c', k := HandOut(c, hash, s), c.slabs[s];
      && c' == Cache(c.g, c.slabs[s := SlabCtl(k.inuse + 1, k.free[1..])], c'.part, c'.full, c'.table, c'.hload)
      && c'.part == (if k.inuse + 1 < c.g.objs then [s] + c.part else c.part)
      && c'.full == (if k.inuse + 1 < c.g.objs then c.full else [s] + c.full)
  {
  }

  /** Putting an object back that was taken from slab `s`, which is on no list in `c`. */
  lemma PutBack(c: Cache, hash: Hash, s: nat, k: SlabCtl, table: seq<seq<Bufctl>>)
    requires s in c.slabs && c.slabs[s] == k && k.free != [] && s !in c.part && s !in c.full && k.inuse < c.g.objs
    requires (forall x :: hash(x) < 32) && (c.hload > 0 ==> |c.table| == 32)
    requires var c' := HandOut(c, hash, s); Locate(c', hash, k.free[0]) == Some((s, c'.(table := table)))
    ensures var c' := HandOut(c, hash, s);
      Free(c', hash, k.free[0]) ==
        if k.inuse == 0 then Cache(c.g, c.slabs - {s}, c.part, c.full, table, c'.hload)
        else Cache(c.g, c.slabs, [s] + c.part, c.full, table, c'.hload)
  {
    HandOutIs(c, hash, s);
    var c' := HandOut(c, hash, s);
    assert [k.free[0]] + k.free[1..] == k.free;
    FreeIs(c', hash, k.free[0], s, c'.(table := table), k);
    assert c'.slabs[s := k] == c.slabs && c'.slabs - {s} == c.slabs - {s};
    RemoveAbsent(c.part, s);
    RemoveAbsent(c.full, s);
    RemoveFirst(s, c.part);
    RemoveFirst(s, c.full);
  }

  lemma RemoveFirst(x: nat, q: seq<nat>)
    ensures Remove([x] + q, x) == q
  {
  }

  /** What is freed right after it was handed out leaves the cache as it was, list by list in the
      same order; only the hash table may have been made. */
  lemma AllocThenFree(c: Cache, hash: Hash, live: set<nat>, grant: Option<nat>)
    requires Inv(c, hash, live) && GrantOk(c, grant) && (c.part != [] || grant.Some?)
    ensures c.hload > 0 ==> |c.table| == 32
    ensures var (r, c') := Alloc(c, hash, grant);
      r.Some? && Free(c', hash, r.value) == c.(table := TableAfter(c), hload := c'.hload)
  {
    if c.part != [] {
      BackToPartial(c, hash, live);
    } else {
      BackToNothing(c, hash, live, grant.value);
    }
  }

  lemma BackToPartial(c: Cache, hash: Hash, live: set<nat>)
    requires Inv(c, hash, live) && c.part != []
    ensures c.hload > 0 ==> |c.table| == 32
    ensures var (r, c') := Alloc(c, hash, None);
      r.Some? && Free(c', hash, r.value) == c.(table := TableAfter(c), hload := c'.hload)
    ensures forall grant :: Alloc(c, hash, grant) == Alloc(c, hash, None)
  {
    PickPartial(c, hash, live);
    var s, c1 := c.part[0], c.(part := c.part[1..]);
    OpenedFacts(c1, hash, live, s);
    FoundAgain(c1, hash, live, s);
    PutBack(c1, hash, s, c1.slabs[s], TableAfter(c1));
    assert ListedOk(c, s) && c.part == [s] + c.part[1..];
  }

  lemma BackToNothing(c: Cache, hash: Hash, live: set<nat>, s: nat)
    requires Inv(c, hash, live) && c.part == [] && GrantOk(c, Some(s))
    ensures c.hload > 0 ==> |c.table| == 32
    ensures var (r, c') := Alloc(c, hash, Some(s));
      r.Some? && Free(c', hash, r.value) == c.(table := TableAfter(c), hload := c'.hload)
  {
    PickNew(c, hash, live, s);
    var c1 := c.(slabs := c.slabs[s := SlabCtl(0, FreshFree(c.g, s, c.g.objs))]);
    OpenedFacts(c1, hash, live, s);
    FoundAgain(c1, hash, live, s);
    PutBack(c1, hash, s, c1.slabs[s], TableAfter(c1));
    assert s !in c.slabs by { SpanPositive(c.g); }
    assert c1.slabs - {s} == c.slabs;
  }

  // ---------------------------------------------------------------------------- runs

  /** Objects in use never overlap one another. */
  lemma LiveDisjoint(c: Cache, hash: Hash, live: set<nat>, a: nat, b: nat)
    requires Inv(c, hash, live) && a in live && b in live && a < b
    ensures a + c.g.objsize <= b
  {
    assert Owned(c, a) && Owned(c, b);
    var s :| s in c.slabs && IsObj(c.g, s, a);
    var t :| t in c.slabs && IsObj(c.g, t, b);
    var i :| 0 <= i < c.g.objs && a == Obj(c.g, s, i);
    var j :| 0 <= j < c.g.objs && b == Obj(c.g, t, j);
    ObjInside(c.g, s, i);
    ObjInside(c.g, t, j);
    if s == t { OneSlabApart(c.g, s, i, j); }
  }

  lemma OneSlabApart(g: Geometry, s: nat, i: nat, j: nat)
    requires GeoOk(g) && Obj(g, s, i) < Obj(g, s, j)
    ensures Obj(g, s, i) + g.objsize <= Obj(g, s, j)
  {
    if j < i { ObjApart(g, s, j, i); }
    if i < j { ObjApart(g, s, i, j); }
  }

  /** Objects of an embedded cache stay clear of the control data of every slab. */
  lemma LiveClear(c: Cache, hash: Hash, live: set<nat>, b: nat, s: nat)
    requires Inv(c, hash, live) && c.g.embed && b in live && s in c.slabs
    ensures b + c.g.objsize <= s + 4072 || s + 4096 <= b
    ensures PageOf(b) in c.slabs && IsObj(c.g, PageOf(b), b)
  {
    assert Owned(c, b);
    SpanPositive(c.g);
    var t :| t in c.slabs && IsObj(c.g, t, b);
    assert CtlOk(c.g, t, c.slabs[t], live);
    PageOfObj(c.g, t, b);
    var i :| 0 <= i < c.g.objs && b == Obj(c.g, t, i);
    ObjInside(c.g, t, i);
  }

  /** The number of objects in use is what the slabs say, slab by slab. */
  lemma InuseCounts(c: Cache, hash: Hash, live: set<nat>, s: nat)
    requires Inv(c, hash, live) && s in c.slabs
    ensures c.slabs[s].inuse == |set b | b in live && IsObj(c.g, s, b)|
  {
    var k := c.slabs[s];
    assert CtlOk(c.g, s, k, live);
    FreshOk(c.g, s, c.g.objs);
    var all := FreshFree(c.g, s, c.g.objs);
    SeqSet(all);
    SeqSet(k.free);
    var used := set b | b in live && IsObj(c.g, s, b);
    assert forall b :: b in all <==> IsObj(c.g, s, b);
    assert used !! ToSet(k.free) && used + ToSet(k.free) == ToSet(all);
  }

  datatype Op = AllocOp(grant: Option<nat>) | FreeOp(buf: nat)

  ghost predicate Stepped(c: Cache, hash: Hash, live: set<nat>, op: Op, c': Cache, live': set<nat>) {
    match op
    case AllocOp(grant) =>
      && (forall x :: hash(x) < 32) && (c.hload > 0 ==> |c.table| == 32)
      && GrantOk(c, grant)
      && c' == Alloc(c, hash, grant).1
      && live' == (match Alloc(c, hash, grant).0 case Some(b) => live + {b} case None => live)
    case FreeOp(buf) =>
      (c.g.embed ==> buf in live) && c' == Free(c, hash, buf) && live' == live - {buf}
  }

  function Empty(g: Geometry): Cache {
    Cache(g, map[], [], [], [], 0)
  }

  ghost predicate Run(g: Geometry, hash: Hash, ops: seq<Op>, c: Cache, live: set<nat>) {
    if ops == [] then c == Empty(g) && live == {}
    else exists c0, live0 :: Run(g, hash, Front(ops), c0, live0) && Stepped(c0, hash, live0, Last(ops), c, live)
  }

  /** Every run of a cache made by `slab_cache_init` keeps the invariant. */
  lemma {:induction false} RunKeeps(size: nat, ctor: bool, hash: Hash, ops: seq<Op>, c: Cache, live: set<nat>)
    requires size > 0 && (forall x :: hash(x) < 32) && Run(Layout(size, ctor), hash, ops, c, live)
    ensures Inv(c, hash, live) && c.g == Layout(size, ctor)
    decreases |ops|
  {
    LayoutOk(size, ctor);
    if ops != [] {
      var c0, live0 :| Run(Layout(size, ctor), hash, Front(ops), c0, live0)
                       && Stepped(c0, hash, live0, Last(ops), c, live);
      RunKeeps(size, ctor, hash, Front(ops), c0, live0);
      match Last(ops)
      case AllocOp(grant) => AllocKeeps(c0, hash, live0, grant); AllocSame(c0, hash, grant);
      case FreeOp(buf) => FreeKeeps(c0, hash, live0, buf);
    }
  }

  lemma AllocSame(c: Cache, hash: Hash, grant: Option<nat>)
    requires (forall x :: hash(x) < 32) && (c.hload > 0 ==> |c.table| == 32)
    ensures Alloc(c, hash, grant).1.g == c.g
  {
  }
}
