/** The size classes of the kernel allocator: `next_pow2` rounds up by smearing bits, `fnzb`
    finds the highest bit by halving, and together they choose the slab cache. */
module Kmalloc {
  import opened Bits
  import opened Bytes

  /** Bitwise or, digit by digit. */
  function Or(a: nat, b: nat): nat
    decreases a + b
  {
    if a == 0 && b == 0 then 0
    else (if a % 2 == 1 || b % 2 == 1 then 1 else 0) + 2 * Or(a / 2, b / 2)
  }

  // ------------------------------------------------------------------------ operations

  /** v |= v >> m */
  function Smear(v: nat, m: nat): nat { Or(v, Shr(v, m)) }

  /** `next_pow2` on a 32-bit word; decrement and increment wrap around. */
  function NextPow2(val: nat): nat
    requires val < 0x1_0000_0000
  {
    var v := if val == 0 then 0xFFFF_FFFF else val - 1;
    U32(Smear(Smear(Smear(Smear(Smear(v, 1), 2), 4), 8), 16) + 1)
  }

  /** One test of `fnzb`: the bits above the lowest `k`, if there are any. */
  function Halve(s: (nat, nat), k: nat): (nat, nat) {
    if Shr(s.0, k) != 0 then (Shr(s.0, k), s.1 + k) else s
  }

  /** `fnzb` */
  function Fnzb(val: nat): nat {
    Halve(Halve(Halve(Halve(Halve((val, 0), 16), 8), 4), 2), 1).1
  }

  /** The cache that `kmalloc` and `kfree` use for `size` bytes. */
  function Class(size: nat): nat
    requires size < 0x1_0000_0000
  {
    Fnzb(Shr(if size < 16 then 16 else NextPow2(size), 4))
  }

  /** The object size of cache `i`: 16 << i. */
  function ClassSize(i: nat): nat { 16 * Pow2(i) }

  // ------------------------------------------------------------------- powers and shifts

  lemma {:induction false} ShrShr(v: nat, j: nat, k: nat)
    ensures Shr(Shr(v, j), k) == Shr(v, j + k)
    decreases j
  {
    if j > 0 { ShrShr(v / 2, j - 1, k); }
  }

  lemma {:induction false} ShrBelow(v: nat, j: nat, k: nat)
    requires v < Pow2(j + k)
    ensures Shr(v, k) < Pow2(j)
    decreases k
  {
    if k > 0 { ShrBelow(v / 2, j, k - 1); }
  }

  lemma {:induction false} ShrZero(v: nat, k: nat)
    ensures Shr(v, k) == 0 <==> v < Pow2(k)
    decreases k
  {
    if k > 0 { ShrZero(v / 2, k - 1); }
  }

  // -------------------------------------------------------------------------- bit search

  /** The state of `fnzb`: `v` is `val` without its lowest `n` bits, not zero, and shorter
      than `k` bits. */
  ghost predicate Searching(val: nat, s: (nat, nat), k: nat) {
    s.0 == Shr(val, s.1) && 0 < s.0 < Pow2(k)
  }

  lemma HalveKeeps(val: nat, s: (nat, nat), k: nat)
    requires Searching(val, s, k + k)
    ensures Searching(val, Halve(s, k), k)
  {
    ShrZero(s.0, k);
    if Shr(s.0, k) != 0 {
      ShrBelow(s.0, k, k);
      ShrShr(val, s.1, k);
    }
  }

  lemma {:induction false} ShrOne(v: nat, k: nat)
    requires Shr(v, k) == 1
    ensures Pow2(k) <= v < Pow2(k + 1)
    decreases k
  {
    if k > 0 { ShrOne(v / 2, k - 1); }
  }

  /** `fnzb` is the floor of the logarithm. */
  lemma FnzbIs(val: nat)
    requires 0 < val < 0x1_0000_0000
    ensures Pow2(Fnzb(val)) <= val < Pow2(Fnzb(val) + 1)
  {
    PowerValues();
    var s: (nat, nat) := (val, 0);
    assert Searching(val, s, 32);
    HalveKeeps(val, s, 16);
    s := Halve(s, 16);
    HalveKeeps(val, s, 8);
    s := Halve(s, 8);
    HalveKeeps(val, s, 4);
    s := Halve(s, 4);
    HalveKeeps(val, s, 2);
    s := Halve(s, 2);
    HalveKeeps(val, s, 1);
    s := Halve(s, 1);
    assert s.0 == 1;
    ShrOne(val, s.1);
  }

  /** The search finds the highest bit, which the buddy system counts one bit at a time. */
  lemma FnzbLog2(val: nat)
    requires val < 0x1_0000_0000
    ensures Fnzb(val) == Log2(val)
  {
    if val == 0 {
      FnzbZero();
    } else {
      FnzbIs(val);
      Log2Bounds(val);
      SamePower(val, Fnzb(val), Log2(val));
    }
  }

  lemma SamePower(val: nat, j: nat, k: nat)
    requires Pow2(j) <= val < Pow2(j + 1) && Pow2(k) <= val < Pow2(k + 1)
    ensures j == k
  {
    if j < k { Pow2Mono(j + 1, k); }
    if k < j { Pow2Mono(k + 1, j); }
  }

  lemma FnzbZero()
    ensures Fnzb(0) == 0
  {
    ShrZero(0, 16);
    ShrZero(0, 8);
    ShrZero(0, 4);
    ShrZero(0, 2);
    ShrZero(0, 1);
  }

  // ------------------------------------------------------------------------ bit smearing

  lemma {:induction false} OrBounds(a: nat, b: nat, j: nat)
    requires a < Pow2(j) && b < Pow2(j)
    ensures b <= Or(a, b) < Pow2(j) && a <= Or(a, b)
    decreases j
  {
    if j > 0 { OrBounds(a / 2, b / 2, j - 1); }
  }

  /** High bits stay where they are. */
  lemma {:induction false} OrHigh(h: nat, l: nat, w: nat, j: nat)
    requires l < Pow2(j) && w < Pow2(j)
    ensures Or(h * Pow2(j) + l, w) == h * Pow2(j) + Or(l, w)
    decreases j
  {
    if j == 0 {
      OrZero(h);
    } else {
      var p := h * Pow2(j - 1);
      assert h * Pow2(j) == 2 * p;
      OrHigh(h, l / 2, w / 2, j - 1);
      assert (2 * p + l) / 2 == p + l / 2 && (2 * p + l) % 2 == l % 2;
    }
  }

  lemma {:induction false} OrZero(a: nat)
    ensures Or(a, 0) == a
  {
    if a > 0 { OrZero(a / 2); }
  }

  /** The bits `j` to `t` of `v` are set, and none above. */
  ghost predicate Ones(v: nat, t: nat, j: nat) {
    j <= t + 1 && Pow2(t + 1) - Pow2(j) <= v < Pow2(t + 1)
  }

  /** Shifting down by `m` brings a run of `m` ones next to itself. */
  lemma ShiftedOnes(v: nat, t: nat, j: nat, m: nat, j': nat)
    requires Ones(v, t, j) && j + m == t + 1 && j' == if j > m then j - m else 0
    ensures Pow2(j) - Pow2(j') <= Shr(v, m) < Pow2(j)
  {
    ShrBelow(v, j, m);
    ShrDiv(v, m);
    Pow2Add(j, m);
    if j > m {
      Pow2Add(j', m);
      Pow2Mono(j', j);
      ScaledGap(v, Pow2(j), Pow2(j'), Pow2(m));
    } else {
      Pow2Mono(j, m);
      ScaledGap(v, Pow2(j), 1, Pow2(m));
    }
  }

  lemma ScaledGap(v: nat, a: nat, b: nat, p: nat)
    requires p > 0 && b <= a && a * p <= v + b * p
    ensures v / p >= a - b
  {
    assert (a - b) * p == a * p - b * p;
    QuotAtLeast(v, p, a - b);
  }

  lemma HighOnes(j: nat, m: nat)
    ensures (Pow2(m) - 1) * Pow2(j) == Pow2(j + m) - Pow2(j)
  {
    Pow2Add(j, m);
    var h := Pow2(m) - 1;
    assert h * Pow2(j) == (h + 1) * Pow2(j) - Pow2(j);
    assert Pow2(m) * Pow2(j) == Pow2(j) * Pow2(m);
  }

  /** Smearing by as many places as there are ones doubles their number. */
  lemma SmearDoubles(v: nat, t: nat, j: nat, m: nat, j': nat)
    requires Ones(v, t, j) && j + m == t + 1 && j' == if j > m then j - m else 0
    ensures Ones(Smear(v, m), t, j')
  {
    ShiftedOnes(v, t, j, m, j');
    Pow2Mono(j, t + 1);
    var w, l, high := Shr(v, m), v - (Pow2(t + 1) - Pow2(j)), Pow2(t + 1) - Pow2(j);
    HighOnes(j, m);
    OrHigh(Pow2(m) - 1, l, w, j);
    assert Or(high + l, w) == high + Or(l, w);
    OrBounds(l, w, j);
    Pow2Mono(j', j);
  }

  /** A word of ones stays as it is. */
  lemma SmearFull(v: nat, t: nat, m: nat)
    requires Ones(v, t, 0)
    ensures Ones(Smear(v, m), t, 0)
  {
    ShrDiv(v, m);
    DivLess(v, Pow2(m));
    OrBounds(v, Shr(v, m), t + 1);
  }

  lemma DivLess(v: nat, p: nat)
    requires p > 0
    ensures 0 <= v / p <= v
  {
    MulMono(1, p, v / p);
  }

  /** One step of the smearing, with `k` ones at the top before it. */
  lemma SmearStep(v: nat, t: nat, k: nat)
    requires k > 0 && Ones(v, t, Low(t, k))
    ensures Ones(Smear(v, k), t, Low(t, k + k))
  {
    if k < t + 1 {
      SmearDoubles(v, t, t + 1 - k, k, Low(t, k + k));
    } else {
      SmearFull(v, t, k);
    }
  }

  /** The lowest bit of a run of `k` ones that starts at bit `t`. */
  function Low(t: nat, k: nat): nat { if k < t + 1 then t + 1 - k else 0 }

  /** `next_pow2` of a number above 1 is the next power of two, unless that does not fit. */
  lemma SmearAll(v: nat, t: nat)
    requires Pow2(t) <= v < Pow2(t + 1) && t < 32
    ensures Smear(Smear(Smear(Smear(Smear(v, 1), 2), 4), 8), 16) == Pow2(t + 1) - 1
  {
    assert Ones(v, t, Low(t, 1));
    SmearStep(v, t, 1);
    var v1 := Smear(v, 1);
    SmearStep(v1, t, 2);
    var v2 := Smear(v1, 2);
    SmearStep(v2, t, 4);
    var v3 := Smear(v2, 4);
    SmearStep(v3, t, 8);
    var v4 := Smear(v3, 8);
    SmearStep(v4, t, 16);
  }

  /** The highest bit of a 32-bit word. */
  lemma TopBit(v: nat) returns (t: nat)
    requires 0 < v < 0x1_0000_0000
    ensures Pow2(t) <= v < Pow2(t + 1) && t < 32
  {
    FnzbIs(v);
    t := Fnzb(v);
    PowerValues();
    if t >= 32 { Pow2Mono(32, t); }
  }

  /** `next_pow2` gives the least power of two that is at least `val`; above 2^31 there is
      none in 32 bits and it gives 0. */
  lemma NextPow2Is(val: nat) returns (k: nat)
    requires 0 < val < 0x1_0000_0000
    ensures val <= Pow2(k) && (k > 0 ==> Pow2(k - 1) < val)
    ensures val <= 0x8000_0000 <==> k <= 31
    ensures NextPow2(val) == if k <= 31 then Pow2(k) else 0
  {
    if val == 1 {
      k := 0;
      assert Or(0, 0) == 0;
    } else {
      var t := TopBit(val - 1);
      k := t + 1;
      SmearAll(val - 1, t);
      Word31(val, k);
      assert NextPow2(val) == U32(Pow2(k));
    }
  }

  lemma Word31(val: nat, k: nat)
    requires 0 < k <= 32 && Pow2(k - 1) < val <= Pow2(k)
    ensures val <= 0x8000_0000 <==> k <= 31
    ensures U32(Pow2(k)) == if k <= 31 then Pow2(k) else 0
  {
    PowerValues();
    if k <= 31 { Pow2Mono(k, 31); }
  }

  // ------------------------------------------------------------------------ size classes

  lemma FnzbPow2(k: nat)
    requires k < 32
    ensures Fnzb(Pow2(k)) == k
  {
    SmallPower(k);
    FnzbLog2(Pow2(k));
    Log2Pow2(k);
  }

  lemma ShiftPow2(k: nat)
    ensures Shr(Pow2(k + 4), 4) == Pow2(k)
  {
    ShrDiv(Pow2(k + 4), 4);
    Pow2Add(k, 4);
    assert Pow2(4) == 16;
    DivUnique(Pow2(k + 4), 16, Pow2(k), 0);
  }

  lemma ClassOfPow2(k: nat)
    requires 4 <= k < 32
    ensures Shr(Pow2(k), 4) == Pow2(k - 4) && Fnzb(Pow2(k - 4)) == k - 4
  {
    ShiftPow2(k - 4);
    FnzbPow2(k - 4);
  }

  /** Up to 2^31 bytes the class is the least one whose objects are large enough. */
  lemma ClassIs(size: nat)
    requires size <= 0x8000_0000
    ensures size <= ClassSize(Class(size))
    ensures Class(size) == 0 || ClassSize(Class(size) - 1) < size
  {
    if size < 16 {
      ClassOfPow2(4);
      assert Pow2(4) == 16;
    } else {
      var k := NextPow2Is(size);
      assert Pow2(4) == 16;
      if k < 4 { Pow2Mono(k, 3); }
      ClassOfPow2(k);
      Pow2Add(4, k - 4);
      if k > 4 { Pow2Add(4, k - 5); }
    }
  }

  lemma SmallServed(size: nat)
    requires size <= 0x8000_0000
    ensures Class(size) < 19 <==> size <= 0x40_0000
  {
    ClassIs(size);
    LastClass(Class(size));
    if Class(size) >= 19 { LastClass(Class(size) - 1); }
  }

  lemma LastClass(c: nat)
    ensures c <= 18 ==> ClassSize(c) <= 0x40_0000
    ensures c >= 18 ==> ClassSize(c) >= 0x40_0000
  {
    PowerValues();
    Pow2Add(4, 18);
    assert Pow2(4) == 16;
    if c <= 18 { Pow2Mono(c, 18); } else { Pow2Mono(18, c); }
  }

  /** Above 2^31 the rounding wraps around to the smallest class. */
  lemma LargeWraps(size: nat)
    requires 0x8000_0000 < size < 0x1_0000_0000
    ensures Class(size) == 0
  {
    var k := NextPow2Is(size);
    ShrZero(0, 4);
    FnzbZero();
  }

  /** The nineteen caches serve a request with large enough objects exactly up to 4 MiB. */
  lemma ServedExactly(size: nat)
    requires size < 0x1_0000_0000
    ensures Class(size) < 19 && size <= ClassSize(Class(size)) <==> size <= 0x40_0000
  {
    if size <= 0x8000_0000 {
      ClassIs(size);
      SmallServed(size);
    } else {
      LargeWraps(size);
    }
  }
}
