/** Multiplication, quotient and remainder by a block size, one block at a time. */
module Division {
  import opened Bits

  function Times(k: nat, d: nat): nat
  {
    if k == 0 then 0 else d + Times(k - 1, d)
  }

  function Quot(o: nat, d: nat): nat
    requires d > 0
  {
    if o < d then 0 else 1 + Quot(o - d, d)
  }

  function Rem(o: nat, d: nat): (r: nat)
    requires d > 0
    ensures r < d
  {
    if o < d then o else Rem(o - d, d)
  }

  lemma {:induction false} TimesIs(k: nat, d: nat)
    ensures Times(k, d) == k * d
  {
    if k > 0 { TimesIs(k - 1, d); }
  }

  lemma {:induction false} Decompose(o: nat, d: nat)
    requires d > 0
    ensures o == Times(Quot(o, d), d) + Rem(o, d)
  {
    if o >= d { Decompose(o - d, d); }
  }

  lemma DivisionIs(o: nat, d: nat)
    requires d > 0
    ensures o / d == Quot(o, d) && o % d == Rem(o, d)
  {
    Decompose(o, d);
    TimesIs(Quot(o, d), d);
    DivUnique(o, d, Quot(o, d), Rem(o, d));
  }

  lemma {:induction false} WithinBlock(o: nat, i: nat, d: nat)
    requires d > 0 && Rem(o, d) + i < d
    ensures Quot(o + i, d) == Quot(o, d) && Rem(o + i, d) == Rem(o, d) + i
    decreases o
  {
    if o >= d { WithinBlock(o - d, i, d); }
  }

  lemma {:induction false} NextBlock(o: nat, d: nat)
    requires d > 0
    ensures Rem(o + (d - Rem(o, d)), d) == 0
    decreases o
  {
    if o >= d { NextBlock(o - d, d); }
  }

  lemma {:induction false} QuotBelow(o: nat, m: nat, d: nat)
    requires d > 0
    ensures o < Times(m, d) <==> Quot(o, d) < m
    decreases o
  {
    if o >= d && m > 0 { QuotBelow(o - d, m - 1, d); }
  }

  lemma {:induction false} TimesBound(k: nat, c: nat, d: nat)
    requires c <= d
    ensures Times(k, c) <= Times(k, d)
  {
    if k > 0 { TimesBound(k - 1, c, d); }
  }

  lemma {:induction false} TimesMod(k: nat, d: nat)
    requires d % 512 == 0
    ensures Times(k, d) % 512 == 0
  {
    if k > 0 { TimesMod(k - 1, d); }
  }
}
