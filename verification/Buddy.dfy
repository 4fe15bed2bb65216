/** The buddy allocator: per-order free lists and one bit per pair of buddies. */
module Buddy {
  import opened Common
  import opened Bits
  import opened Dyadic

  /** The allocator's own data: `free[o]` lists the first frames of the free
      blocks of order `o`, `bits[o]` holds the pair bits of order `o` in 32-bit words. */
  datatype Sys = Sys(frames: nat, orderMax: nat, free: seq<seq<nat>>, bits: seq<seq<nat>>)

  // ---------------------------------------------------------------- operations

  predicate HasPair(s: Sys, b: nat, o: nat) {
    o < |s.bits| && PairOf(b, o) / 32 < |s.bits[o]|
  }

  predicate PairBit(s: Sys, b: nat, o: nat)
    requires HasPair(s, b, o)
  {
    Bit(s.bits[o][PairOf(b, o) / 32], PairOf(b, o) % 32)
  }

  /** Flips the bit of the pair of `b` in its map word. */
  function Toggle(s: Sys, b: nat, o: nat): Sys
    requires HasPair(s, b, o)
  {
    var i := PairOf(b, o);
    var row: seq<nat> := s.bits[o][i / 32 := Xor(s.bits[o][i / 32], Pow2(i % 32))];
    s.(bits := s.bits[o := row])
  }

  function Unlink(s: Sys, b: nat, o: nat): Sys
    requires o < |s.free|
  {
    s.(free := s.free[o := Remove(s.free[o], b)])
  }

  function Append(s: Sys, b: nat, o: nat): Sys
    requires o < |s.free|
  {
    s.(free := s.free[o := s.free[o] + [b]])
  }

  /** All lists are there and the maps hold every pair that a frame falls in. */
  ghost predicate Shape(s: Sys) {
    && |s.free| == s.orderMax + 1
    && |s.bits| == s.orderMax
    && Pow2(s.orderMax) <= s.frames < Pow2(s.orderMax + 1)
    && forall o :: 0 <= o < s.orderMax ==> PairOf(s.frames - 1, o) / 32 < |s.bits[o]|
  }

  lemma PairInMap(s: Sys, b: nat, o: nat)
    requires Shape(s) && b < s.frames && o < s.orderMax
    ensures HasPair(s, b, o)
  {
    ShrMono(b, s.frames - 1, o + 1);
  }

  /** The loop of `buddy_free`, entered with block `b` of order `o` in hand. */
  function FreeLoop(s: Sys, b: nat, o: nat): Sys
    requires Shape(s) && b < s.frames && o <= s.orderMax && Aligned(b, o)
    decreases s.orderMax - o
  {
    if o == s.orderMax then Append(s, b, o)
    else
      var c := BuddyOf(b, o);
      BuddyFacts(b, o);
      PairInMap(s, b, o);
      var t := Toggle(s, c, o);
      if PairBit(t, c, o) then Append(t, b, o)
      else FreeLoop(Unlink(t, c, o), if c < b then c else b, o + 1)
  }

  /** One round of the loop. */
  lemma FreeLoopRound(s: Sys, b: nat, o: nat)
    requires Shape(s) && b < s.frames && o < s.orderMax && Aligned(b, o)
    ensures HasPair(s, BuddyOf(b, o), o)
    ensures var c := BuddyOf(b, o);
            var t := Toggle(s, c, o);
            var u := Unlink(t, c, o);
            && HasPair(t, c, o)
            && (PairBit(t, c, o) ==> FreeLoop(s, b, o) == Append(t, b, o))
            && Shape(u) && Aligned(Min(b, c), o + 1)
            && (!PairBit(t, c, o) ==> FreeLoop(s, b, o) == FreeLoop(u, Min(b, c), o + 1))
  {
    BuddyFacts(b, o);
    PairInMap(s, b, o);
  }

  /** The first order at or above `i` whose list is not empty. */
  function Search(s: Sys, i: nat): (r: nat)
    requires |s.free| == s.orderMax + 1
    ensures r >= i
    decreases s.orderMax + 1 - i
  {
    if i > s.orderMax || s.free[i] != [] then i else Search(s, i + 1)
  }

  /** One round of splitting: the right half of order `i` is listed. */
  function SplitOff(s: Sys, left: nat, i: nat): Sys
    requires i < |s.free| && HasPair(s, left + Pow2(i), i)
  {
    var right := left + Pow2(i);
    Toggle(Append(s, right, i), right, i)
  }

  /** The splitting loop of `buddy_alloc`, entered at order `i`. */
  function SplitLoop(s: Sys, left: nat, i: nat, order: nat): Sys
    requires Shape(s) && order <= i <= s.orderMax && Aligned(left, i) && left + Pow2(i) <= s.frames
    decreases i
  {
    if i <= order then s
    else
      Halves(left, i - 1);
      PairInMap(s, left + Pow2(i - 1), i - 1);
      SplitLoop(SplitOff(s, left, i - 1), left, i - 1, order)
  }

  /** One round of that loop. */
  lemma SplitRound(s: Sys, left: nat, i: nat, order: nat)
    requires Shape(s) && order <= i < s.orderMax && Aligned(left, i + 1) && left + Pow2(i + 1) <= s.frames
    ensures Aligned(left, i) && HasPair(s, left + Pow2(i), i)
    ensures var t := SplitOff(s, left, i);
            && Shape(t) && t.frames == s.frames && t.orderMax == s.orderMax
            && SplitLoop(s, left, i + 1, order) == SplitLoop(t, left, i, order)
  {
    Halves(left, i);
    PairInMap(s, left + Pow2(i), i);
  }

  /** Listed blocks are aligned and lie inside the frames. */
  ghost predicate Listed(s: Sys) {
    && Shape(s)
    && forall o, b :: 0 <= o <= s.orderMax && b in s.free[o] ==> Aligned(b, o) && b + Pow2(o) <= s.frames
  }

  function Alloc(s: Sys, order: nat): (Option<nat>, Sys)
    requires Listed(s)
  {
    var i := Search(s, order);
    if i > s.orderMax then (None, s)
    else
      SearchHit(s, order);
      var left := s.free[i][0];
      assert left in s.free[i];
      var t := Unlink(s, left, i);
      var u := if i != s.orderMax then PairInMap(s, left, i); Toggle(t, left, i) else t;
      (Some(left), SplitLoop(u, left, i, order))
  }

  function Free(s: Sys, b: nat, o: nat): Sys
    requires Shape(s) && b < s.frames && o <= s.orderMax && Aligned(b, o)
  {
    FreeLoop(s, b, o)
  }

  /** `Search` stops at the first list that is not empty. */
  lemma {:induction false} SearchHit(s: Sys, i: nat)
    requires |s.free| == s.orderMax + 1
    ensures forall k :: i <= k < Search(s, i) && k <= s.orderMax ==> s.free[k] == []
    ensures Search(s, i) <= s.orderMax ==> s.free[Search(s, i)] != []
    decreases s.orderMax + 1 - i
  {
    if i <= s.orderMax && s.free[i] == [] { SearchHit(s, i + 1); }
  }

  // -------------------------------------------------------------- initialisation

  /** Words allocated for the map of order `o`: the pair count, rounded down, then up to words. */
  function Words(n: nat, o: nat): nat
    requires o < Log2(n)
  {
    Log2Shr(n, o + 1);
    (Shr(n, o + 1) - 1) / 32 + 1
  }

  lemma {:induction false} Log2Shr(n: nat, k: nat)
    requires n > 0 && k <= Log2(n)
    ensures Shr(n, k) >= 1
  {
    if k > 0 { Log2Shr(n / 2, k - 1); }
  }

  /** After `buddy_init`: empty lists and zeroed maps, every frame counts as handed out. */
  function Init(n: nat): Sys
  {
    Sys(n, Log2(n), seq(Log2(n) + 1, _ => []),
        seq(Log2(n), o requires 0 <= o < Log2(n) => seq(Words(n, o), _ => 0)))
  }

  /** Every pair that some frame falls in has a bit in the words allocated for it. */
  ghost predicate MapFits(n: nat) {
    n > 0 && forall o :: 0 <= o < Log2(n) ==> PairOf(n - 1, o) / 32 < Words(n, o)
  }
}
