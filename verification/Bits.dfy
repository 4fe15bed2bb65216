/** Unsigned machine arithmetic on natural numbers: powers of two, bitwise
    operators defined digit by digit, and the facts about aligned power-of-two
    ranges that the memory allocators rely on. */
module Bits {

  function Pow2(k: nat): (r: nat)
    ensures r >= 1
  {
    if k == 0 then 1 else 2 * Pow2(k - 1)
  }

  /** `b >> k` */
  function Shr(b: nat, k: nat): nat {
    if k == 0 then b else Shr(b / 2, k - 1)
  }

  /** Bit `k` of `w`. */
  predicate Bit(w: nat, k: nat) {
    if k == 0 then w % 2 == 1 else Bit(w / 2, k - 1)
  }

  function Xor(a: nat, b: nat): nat
    decreases a + b
  {
    if a == 0 && b == 0 then 0
    else (if a % 2 != b % 2 then 1 else 0) + 2 * Xor(a / 2, b / 2)
  }

  function And(a: nat, b: nat): nat {
    if a == 0 then 0
    else (if a % 2 == 1 && b % 2 == 1 then 1 else 0) + 2 * And(a / 2, b / 2)
  }

  lemma {:induction false} XorBit(a: nat, b: nat, k: nat)
    ensures Bit(Xor(a, b), k) == (Bit(a, k) != Bit(b, k))
    decreases k
  {
    if a == 0 && b == 0 {
      ZeroBit(k);
    } else if k > 0 {
      assert Xor(a, b) / 2 == Xor(a / 2, b / 2);
      XorBit(a / 2, b / 2, k - 1);
    }
  }

  lemma {:induction false} Pow2Bit(k: nat, j: nat)
    ensures Bit(Pow2(k), j) == (j == k)
    decreases k
  {
    if k == 0 {
      if j > 0 { ZeroBit(j - 1); }
    } else if j > 0 {
      Pow2Bit(k - 1, j - 1);
    }
  }

  lemma {:induction false} ZeroBit(j: nat)
    ensures !Bit(0, j)
  {
    if j > 0 { ZeroBit(j - 1); }
  }

  /** Masking with a single bit is non-zero exactly when the bit is set. */
  lemma {:induction false} AndPow2(w: nat, k: nat)
    ensures And(w, Pow2(k)) == if Bit(w, k) then Pow2(k) else 0
    decreases k
  {
    if w == 0 {
      ZeroBit(k);
    } else if k == 0 {
      AndZero(w / 2);
    } else {
      AndPow2(w / 2, k - 1);
    }
  }

  lemma {:induction false} AndBit(a: nat, b: nat, k: nat)
    ensures Bit(And(a, b), k) == (Bit(a, k) && Bit(b, k))
    decreases k
  {
    if a == 0 || b == 0 {
      ZeroBit(k);
      AndZero(a);
    } else if k > 0 {
      AndBit(a / 2, b / 2, k - 1);
    }
  }

  /** Numbers with the same bits are the same. */
  lemma {:induction false} SameBits(a: nat, b: nat)
    requires forall k: nat :: Bit(a, k) == Bit(b, k)
    ensures a == b
    decreases a + b
  {
    if a + b > 0 {
      assert Bit(a, 0) == Bit(b, 0);
      forall k: nat ensures Bit(a / 2, k) == Bit(b / 2, k) { assert Bit(a, k + 1) == Bit(b, k + 1); }
      SameBits(a / 2, b / 2);
    }
  }

  /** Every bit of `want` is set in `have`. */
  ghost predicate HasBits(have: nat, want: nat) {
    forall k: nat :: Bit(want, k) ==> Bit(have, k)
  }

  lemma AndCovers(have: nat, want: nat)
    ensures And(have, want) == want <==> HasBits(have, want)
  {
    forall k: nat ensures Bit(And(have, want), k) == (Bit(have, k) && Bit(want, k)) { AndBit(have, want, k); }
    if HasBits(have, want) { SameBits(And(have, want), want); }
  }

  lemma {:induction false} AndZero(w: nat)
    ensures And(w, 0) == 0
  {
    if w != 0 { AndZero(w / 2); }
  }

  /** Flipping one bit adds or subtracts that power of two. */
  lemma {:induction false} XorZero(a: nat)
    ensures Xor(a, 0) == a
  {
    if a != 0 { XorZero(a / 2); }
  }

  lemma DivDiv(b: nat, d: nat)
    requires d > 0
    ensures b / (2 * d) == (b / 2) / d == (b / d) / 2
  {
    var q, r := b / (2 * d), b % (2 * d);
    assert b == q * (2 * d) + r;
    DivUnique(b / 2, d, q, r / 2) by { assert b / 2 == q * d + r / 2; }
    if r >= d {
      assert b == (2 * q + 1) * d + (r - d) by { assert q * (2 * d) == (2 * q) * d; }
      DivUnique(b, d, 2 * q + 1, r - d);
    } else {
      assert b == (2 * q) * d + r by { assert q * (2 * d) == (2 * q) * d; }
      DivUnique(b, d, 2 * q, r);
    }
  }

  lemma DivUnique(a: nat, d: nat, q: nat, r: nat)
    requires d > 0 && r < d && a == q * d + r
    ensures a / d == q && a % d == r
  {
    var q', r' := a / d, a % d;
    assert a == q' * d + r';
    if q' < q { MulMono(q' + 1, q, d); }
    if q < q' { MulMono(q + 1, q', d); }
  }

  lemma MulMono(a: nat, b: nat, d: nat)
    requires a <= b
    ensures a * d <= b * d
  {
    assert (b - a) * d >= 0;
    assert b * d == a * d + (b - a) * d;
  }

  lemma {:induction false} ShrDiv(b: nat, k: nat)
    ensures Shr(b, k) == b / Pow2(k)
    decreases k
  {
    if k > 0 {
      ShrDiv(b / 2, k - 1);
      DivDiv(b, Pow2(k - 1));
    }
  }

  lemma {:induction false} Pow2Add(j: nat, k: nat)
    ensures Pow2(j + k) == Pow2(j) * Pow2(k)
  {
    if j == 0 {
      assert Pow2(0) * Pow2(k) == Pow2(k);
    } else {
      Pow2Add(j - 1, k);
      assert Pow2(j + k) == 2 * Pow2(j - 1 + k);
      assert (2 * Pow2(j - 1)) * Pow2(k) == 2 * (Pow2(j - 1) * Pow2(k));
    }
  }

  lemma {:induction false} Pow2Mono(j: nat, k: nat)
    requires j <= k
    ensures Pow2(j) <= Pow2(k)
    ensures j < k ==> 2 * Pow2(j) <= Pow2(k)
  {
    if j < k { Pow2Mono(j, k - 1); }
  }

  /** Position of the highest set bit; 0 for 0. */
  function Log2(n: nat): nat {
    if n < 2 then 0 else 1 + Log2(n / 2)
  }

  lemma {:induction false} Log2Bounds(n: nat)
    requires n > 0
    ensures Pow2(Log2(n)) <= n < Pow2(Log2(n) + 1)
  {
    if n >= 2 { Log2Bounds(n / 2); }
  }

  lemma QuotAtLeast(v: nat, p: nat, q: nat)
    requires p > 0 && q * p <= v
    ensures v / p >= q
  {
    if v / p < q {
      MulMono(v / p + 1, q, p);
      assert false;
    }
  }

  lemma Pow2Six(k: nat)
    ensures Pow2(k + 6) == 64 * Pow2(k)
    ensures Pow2(4) == 16
  {
    assert Pow2(k + 6) == 4 * Pow2(k + 4);
    assert Pow2(k + 4) == 4 * Pow2(k + 2);
    assert Pow2(k + 2) == 4 * Pow2(k);
    assert Pow2(4) == 4 * Pow2(2) && Pow2(2) == 4;
  }

  lemma PowerValues()
    ensures Pow2(10) == 1024 && Pow2(20) == 0x10_0000 && Pow2(22) == 0x40_0000
    ensures Pow2(28) == 0x1000_0000 && Pow2(31) == 0x8000_0000 && Pow2(32) == 0x1_0000_0000
  {
    Pow2Six(4);
    Pow2Six(10);
    Pow2Six(16);
    Pow2Six(22);
    assert Pow2(22) == 4 * Pow2(20);
    assert Pow2(32) == 2 * Pow2(31) && Pow2(31) == 2 * Pow2(30) && Pow2(30) == 4 * Pow2(28);
  }

  lemma {:induction false} Log2Pow2(k: nat)
    ensures Log2(Pow2(k)) == k
  {
    if k > 0 { Log2Pow2(k - 1); }
  }

  lemma SmallPower(k: nat)
    requires k < 32
    ensures Pow2(k) <= 0x8000_0000
  {
    PowerValues();
    Pow2Mono(k, 31);
  }
}
