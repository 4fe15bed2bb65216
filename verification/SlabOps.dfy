/** A slab cache as it runs: lists relinked, counters and hash chains updated in place. */
module SlabOps {
  import opened Common
  import opened Slab
  import opened SlabTheory

  class SlabCache {
    const g: Geometry
    const hash: Hash
    var slabs: map<nat, SlabCtl>
    var part: seq<nat>
    var full: seq<nat>
    var table: seq<seq<Bufctl>>
    var hload: nat

    function State(): Cache
      reads this
    {
      Cache(g, slabs, part, full, table, hload)
    }

    constructor (size: nat, ctor: bool, hash: Hash)
      requires size > 0 && forall x :: hash(x) < 32
      ensures State() == Empty(Layout(size, ctor)) && this.hash == hash
      ensures Inv(State(), hash, {})
    {
      g := Layout(size, ctor);
      this.hash := hash;
      slabs, part, full, table, hload := map[], [], [], [], 0;
      new;
      LayoutOk(size, ctor);
    }

    /** Makes the free list of a new slab, object by object. */
    method SpaceAlloc(data: nat)
      modifies this`slabs
      ensures slabs == old(slabs)[data := SlabCtl(0, FreshFree(g, data, g.objs))]
    {
      var free: seq<nat> := [];
      var inuse := g.objs;
      var obj := data;
      var i := 0;
      while i < g.objs
        invariant 0 <= i <= g.objs && inuse == g.objs - i && obj == Obj(g, data, i)
        invariant free == FreshFree(g, data, i)
      {
        inuse, free := inuse - 1, [obj] + free;
        assert Obj(g, data, i + 1) == obj + g.objsize by { assert (i + 1) * g.objsize == i * g.objsize + g.objsize; }
        obj := obj + g.objsize;
        i := i + 1;
      }
      slabs := slabs[data := SlabCtl(inuse, free)];
    }

    /** Finds the link of `buf` in its chain and removes it. */
    method HashGet(buf: nat) returns (r: Option<Bufctl>)
      requires (forall x :: hash(x) < 32) && |table| == (if hload == 0 then 0 else 32)
      modifies this`table
      ensures r.None? <==> hload == 0 || Take(old(table)[hash(buf)], buf).None?
      ensures r.None? ==> table == old(table)
      ensures r.Some? ==> var (b, q) := Take(old(table)[hash(buf)], buf).value;
                          r.value == b && table == old(table)[hash(buf) := q]
    {
      if hload == 0 {
        return None;
      }
      var q := table[hash(buf)];
      var i := 0;
      while i < |q| && q[i].buf != buf
        invariant 0 <= i <= |q| && forall j :: 0 <= j < i ==> q[j].buf != buf
      {
        i := i + 1;
      }
      TakeAt(q, buf, i);
      if i == |q| {
        return None;
      }
      r := Some(q[i]);
      table := table[hash(buf) := q[..i] + q[i + 1..]];
    }

    method HashLink(buf: nat, s: nat)
      requires (forall x :: hash(x) < 32) && (hload > 0 ==> |table| == 32)
      modifies this`table, this`hload
      ensures State() == HashPut(old(State()), hash, Bufctl(buf, s))
    {
      if hload == 0 {
        table := seq(32, _ => []);
      }
      if table[hash(buf)] == [] {
        hload := hload + 1;
      }
      table := table[hash(buf) := [Bufctl(buf, s)] + table[hash(buf)]];
    }

    method CacheAlloc(grant: Option<nat>) returns (r: Option<nat>)
      requires CanAlloc(State(), hash, grant)
      modifies this
      ensures (r, State()) == Alloc(old(State()), hash, grant)
    {
      var s;
      if part != [] {
        s := part[0];
        part := part[1..];
      } else {
        if grant.None? {
          return None;
        }
        s := grant.value;
        SpaceAlloc(s);
      }
      var k := slabs[s];
      var buf := k.free[0];
      slabs := slabs[s := SlabCtl(k.inuse + 1, k.free[1..])];
      if !g.embed {
        HashLink(buf, s);
      }
      if g.objs - slabs[s].inuse > 0 {
        part := [s] + part;
      } else {
        full := [s] + full;
      }
      r := Some(buf);
    }

    method CacheFree(buf: nat)
      requires CanFree(State(), hash, buf)
      modifies this
      ensures State() == Free(old(State()), hash, buf)
    {
      var s;
      if g.embed {
        s := buf - buf % 4096;
      } else {
        var r := HashGet(buf);
        if r.None? {
          return;
        }
        s := r.value.slab;
      }
      var k := SlabCtl(slabs[s].inuse - 1, [buf] + slabs[s].free);
      if k.inuse == 0 {
        part, full := Remove(part, s), Remove(full, s);
        slabs := slabs - {s};
      } else if k.inuse == g.objs - 1 {
        part, full := Remove(part, s), Remove(full, s);
        slabs := slabs[s := k];
        part := [s] + part;
      } else {
        slabs := slabs[s := k];
      }
    }
  }

  /** The slab picked has an object to hand out. */
  ghost predicate CanAlloc(c: Cache, hash: Hash, grant: Option<nat>) {
    && (forall x :: hash(x) < 32) && (c.hload > 0 ==> |c.table| == 32)
    && (Pick(c, grant).Some? ==>
          var (s, c1) := Pick(c, grant).value; s in c1.slabs && c1.slabs[s].free != [])
  }

  /** The slab found has an object in use. */
  ghost predicate CanFree(c: Cache, hash: Hash, buf: nat) {
    && (forall x :: hash(x) < 32) && |c.table| == (if c.hload == 0 then 0 else 32)
    && (Locate(c, hash, buf).Some? ==>
          var (s, _) := Locate(c, hash, buf).value; s in c.slabs && c.slabs[s].inuse > 0)
  }

  /** In every consistent state both operations can go ahead. */
  lemma AlwaysCan(c: Cache, hash: Hash, live: set<nat>, grant: Option<nat>, buf: nat)
    requires Inv(c, hash, live) && GrantOk(c, grant) && (c.g.embed ==> buf in live)
    ensures CanAlloc(c, hash, grant) && CanFree(c, hash, buf)
  {
    PickOpens(c, hash, live, grant);
    if buf in live {
      LocateOk(c, hash, live, buf);
      var (s, _) := Locate(c, hash, buf).value;
      assert ListedOk(c, s);
    } else if hash(buf) < |c.table| {
      assert BucketOk(c, hash, live, hash(buf));
      TakeOk(c.table[hash(buf)], buf);
    }
  }

  lemma {:induction false} TakeAt(q: seq<Bufctl>, buf: nat, i: nat)
    requires i <= |q| && (forall j :: 0 <= j < i ==> q[j].buf != buf) && (i == |q| || q[i].buf == buf)
    ensures Take(q, buf) == if i == |q| then None else Some((q[i], q[..i] + q[i + 1..]))
    decreases i
  {
    if i > 0 {
      TakeAt(q[1..], buf, i - 1);
      if i < |q| { assert [q[0]] + (q[1..][..i - 1] + q[1..][i..]) == q[..i] + q[i + 1..]; }
    } else if q != [] {
      assert q[..0] + q[1..] == q[1..];
    }
  }
}
