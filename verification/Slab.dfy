/** Object caches: slabs of equal objects on a partial and a full list. Small objects
    carry their own control data; for large ones a hash table finds it. */
module Slab {
  import opened Common

  /** A slab, known by the address of its first object: objects in use, and the free
      ones, next to be handed out first. */
  datatype SlabCtl = SlabCtl(inuse: nat, free: seq<nat>)

  /** Control data of an object in use: its address and its slab. */
  datatype Bufctl = Bufctl(buf: nat, slab: nat)

  datatype Geometry = Geometry(objsize: nat, objs: nat, embed: bool)

  datatype Cache = Cache(g: Geometry, slabs: map<nat, SlabCtl>, part: seq<nat>, full: seq<nat>,
                         table: seq<seq<Bufctl>>, hload: nat)

  type Hash = nat -> nat

  // ----------------------------------------------------------------------- geometry

  function AlignUp(v: nat): nat {
    (v + 3) / 4 * 4
  }

  function PageUp(v: nat): nat {
    (v + 4095) / 4096 * 4096
  }

  /** Layout of a cache: word-aligned objects; those up to an eighth of a page keep their
      control data inside the page, whose last 24 bytes then describe the slab. */
  function Layout(size: nat, ctor: bool): Geometry
    requires size > 0
  {
    var o := AlignUp(size);
    var embed := o <= 512 && (!ctor || o + 4 <= 512);
    var objsize := if embed && ctor then o + 4 else o;
    var slabsize := if embed then PageUp(objsize) - 24 else PageUp(objsize);
    Geometry(objsize, slabsize / objsize, embed)
  }

  /** Bytes of memory a slab takes. */
  function Span(g: Geometry): nat {
    PageUp(g.objs * g.objsize)
  }

  function Obj(g: Geometry, s: nat, i: nat): nat {
    s + i * g.objsize
  }

  /** The slab an object of an embedded cache belongs to: the page it lies in. */
  function PageOf(buf: nat): nat {
    buf - buf % 4096
  }

  // --------------------------------------------------------------------- operations

  /** The free objects of a new slab: each is put in front of the ones before it. */
  function FreshFree(g: Geometry, s: nat, n: nat): seq<nat> {
    if n == 0 then [] else [Obj(g, s, n - 1)] + FreshFree(g, s, n - 1)
  }

  /** The slab to take an object from, off its list: a partial one, or a new one made of
      memory at `grant`. */
  function Pick(c: Cache, grant: Option<nat>): Option<(nat, Cache)> {
    if c.part != [] then Some((c.part[0], c.(part := c.part[1..])))
    else match grant
         case None => None
         case Some(data) => Some((data, c.(slabs := c.slabs[data := SlabCtl(0, FreshFree(c.g, data, c.g.objs))])))
  }

  /** Links the control data of an object in use; the first link ever makes the table. */
  function HashPut(c: Cache, hash: Hash, b: Bufctl): Cache
    requires forall x :: hash(x) < 32
    requires c.hload > 0 ==> |c.table| == 32
  {
    var t := if c.hload == 0 then seq(32, _ => []) else c.table;
    var i := hash(b.buf);
    c.(table := t[i := [b] + t[i]], hload := if t[i] == [] then c.hload + 1 else c.hload)
  }

  /** The slab hands out its first free object and goes to the list it belongs on. */
  function HandOut(c: Cache, hash: Hash, s: nat): Cache
    requires (forall x :: hash(x) < 32) && (c.hload > 0 ==> |c.table| == 32)
    requires s in c.slabs && c.slabs[s].free != []
  {
    var k := c.slabs[s];
    var k' := SlabCtl(k.inuse + 1, k.free[1..]);
    var c2 := c.(slabs := c.slabs[s := k']);
    var c3 := if c.g.embed then c2 else HashPut(c2, hash, Bufctl(k.free[0], s));
    if k'.inuse < c.g.objs then c3.(part := [s] + c3.part) else c3.(full := [s] + c3.full)
  }

  function Alloc(c: Cache, hash: Hash, grant: Option<nat>): (Option<nat>, Cache)
    requires forall x :: hash(x) < 32
    requires c.hload > 0 ==> |c.table| == 32
  {
    match Pick(c, grant)
    case None => (None, c)
    case Some((s, c1)) =>
      if s !in c1.slabs || c1.slabs[s].free == [] then (None, c1)
      else (Some(c1.slabs[s].free[0]), HandOut(c1, hash, s))
  }

  /** The first link of a bucket with the address, and the bucket without it. */
  function Take(q: seq<Bufctl>, buf: nat): Option<(Bufctl, seq<Bufctl>)> {
    if q == [] then None
    else if q[0].buf == buf then Some((q[0], q[1..]))
    else match Take(q[1..], buf)
         case None => None
         case Some((b, r)) => Some((b, [q[0]] + r))
  }

  /** The slab of an object and the cache without its hash link. */
  function Locate(c: Cache, hash: Hash, buf: nat): Option<(nat, Cache)> {
    if c.g.embed then Some((PageOf(buf), c))
    else if hash(buf) >= |c.table| then None
    else match Take(c.table[hash(buf)], buf)
         case None => None
         case Some((b, q)) => Some((b.slab, c.(table := c.table[hash(buf) := q])))
  }

  function Free(c: Cache, hash: Hash, buf: nat): Cache {
    match Locate(c, hash, buf)
    case None => c
    case Some((s, c1)) =>
      if s !in c1.slabs || c1.slabs[s].inuse == 0 then c1
      else
        var k := SlabCtl(c1.slabs[s].inuse - 1, [buf] + c1.slabs[s].free);
        var off := c1.(part := Remove(c1.part, s), full := Remove(c1.full, s));
        if k.inuse == 0 then off.(slabs := c1.slabs - {s})
        else if k.inuse == c.g.objs - 1 then off.(slabs := c1.slabs[s := k], part := [s] + off.part)
        else c1.(slabs := c1.slabs[s := k])
  }
}
