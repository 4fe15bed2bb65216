/** Aligned power-of-two ranges of frame indices, as used by the buddy system:
    a block of order `o` starting at `b` covers the frames `b .. b + 2^o`. */
module Dyadic {
  import opened Common
  import opened Bits

  /** The low `o` bits of `b` are zero. */
  predicate Aligned(b: nat, o: nat) {
    o == 0 || (b % 2 == 0 && Aligned(b / 2, o - 1))
  }

  predicate Within(f: nat, b: nat, o: nat) {
    b <= f < b + Pow2(o)
  }

  /** The other half of the order `o + 1` block around `b`. */
  function BuddyOf(b: nat, o: nat): nat {
    Xor(b, Pow2(o))
  }

  /** The number of the buddy pair that `b` belongs to at order `o`. */
  function PairOf(b: nat, o: nat): nat {
    Shr(b, o + 1)
  }

  lemma BuddyZero(b: nat)
    ensures BuddyOf(b, 0) == if b % 2 == 0 then b + 1 else b - 1
    ensures PairOf(b, 0) == b / 2
  {
    XorZero(b / 2);
    assert Pow2(0) == 1;
    assert Shr(b, 1) == Shr(b / 2, 0);
  }

  /** One order up is twice as far apart. */
  lemma AlignedDouble(h: nat, o: nat)
    ensures Aligned(2 * h, o + 1) <==> Aligned(h, o)
  {
    assert (2 * h) % 2 == 0 && (2 * h) / 2 == h;
  }

  lemma AlignedHalf(b: nat, o: nat) returns (h: nat)
    requires o > 0 && Aligned(b, o)
    ensures b == 2 * h && Aligned(h, o - 1)
  {
    h := b / 2;
  }

  lemma BuddyDouble(h: nat, o: nat)
    ensures BuddyOf(2 * h, o + 1) == 2 * BuddyOf(h, o) && PairOf(2 * h, o + 1) == PairOf(h, o)
  {
    var b, p := 2 * h, Pow2(o + 1);
    assert b % 2 == 0 && b / 2 == h && p % 2 == 0 && p / 2 == Pow2(o);
    assert Shr(b, o + 2) == Shr(h, o + 1);
  }

  lemma {:induction false} BuddyFacts(b: nat, o: nat)
    requires Aligned(b, o)
    ensures var c := BuddyOf(b, o);
            && Aligned(c, o)
            && (c == b + Pow2(o) || b == c + Pow2(o))
            && PairOf(c, o) == PairOf(b, o)
            && BuddyOf(c, o) == b
            && Aligned(Min(b, c), o + 1)
    decreases o
  {
    if o == 0 {
      BuddyZero(b);
      BuddyZero(BuddyOf(b, 0));
      assert Aligned(Min(b, BuddyOf(b, 0)), 1);
    } else {
      var h := AlignedHalf(b, o);
      var g := BuddyOf(h, o - 1);
      BuddyFacts(h, o - 1);
      BuddyDouble(h, o - 1);
      BuddyDouble(g, o - 1);
      AlignedDouble(g, o - 1);
      AlignedDouble(Min(h, g), o);
      assert Min(2 * h, 2 * g) == 2 * Min(h, g);
    }
  }

  /** A buddy pair has two members only. */
  lemma {:induction false} SamePair(b: nat, c: nat, o: nat)
    requires Aligned(b, o) && Aligned(c, o) && PairOf(b, o) == PairOf(c, o)
    ensures c == b || c == BuddyOf(b, o)
    decreases o
  {
    if o == 0 {
      BuddyZero(b);
      BuddyZero(c);
    } else {
      var h := AlignedHalf(b, o);
      var g := AlignedHalf(c, o);
      BuddyDouble(h, o - 1);
      BuddyDouble(g, o - 1);
      SamePair(h, g, o - 1);
    }
  }

  /** Two aligned blocks that share a frame are nested. */
  lemma {:induction false} Nested(b: nat, o: nat, c: nat, p: nat, f: nat)
    requires o <= p && Aligned(b, o) && Aligned(c, p)
    requires Within(f, b, o) && Within(f, c, p)
    ensures c <= b && b + Pow2(o) <= c + Pow2(p)
    decreases o
  {
    if o > 0 {
      Nested(b / 2, o - 1, c / 2, p - 1, f / 2);
    }
  }

  /** An order `o + 1` block is its left half followed by its right half. */
  lemma {:induction false} Halves(b: nat, o: nat)
    requires Aligned(b, o + 1)
    ensures Aligned(b, o) && Aligned(b + Pow2(o), o)
    ensures BuddyOf(b, o) == b + Pow2(o)
    decreases o
  {
    if o == 0 {
      BuddyZero(b);
    } else {
      var h := AlignedHalf(b, o + 1);
      Halves(h, o - 1);
      BuddyDouble(h, o - 1);
      AlignedDouble(h, o - 1);
      AlignedDouble(h + Pow2(o - 1), o - 1);
      assert b + Pow2(o) == 2 * (h + Pow2(o - 1));
    }
  }

  /** Shifting right is monotonic. */
  lemma {:induction false} ShrMono(b: nat, n: nat, k: nat)
    requires b <= n
    ensures Shr(b, k) <= Shr(n, k)
    decreases k
  {
    if k > 0 { ShrMono(b / 2, n / 2, k - 1); }
  }
}
