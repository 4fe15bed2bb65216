/** What every run of the buddy allocator keeps, and what that means for callers. */
module BuddyTheory {
  import opened Common
  import opened Bits
  import opened Dyadic
  import opened Buddy

  /** The block a frame currently belongs to. */
  datatype Block = Block(start: nat, order: nat, used: bool)

  // ------------------------------------------------------------------- invariant

  ghost predicate TileOk(owner: seq<Block>, orderMax: nat, f: nat)
    requires f < |owner|
  {
    var k := owner[f];
    && k.order <= orderMax
    && Aligned(k.start, k.order)
    && Within(f, k.start, k.order)
    && k.start + Pow2(k.order) <= |owner|
    && forall g: nat {:trigger owner[g]} :: Within(g, k.start, k.order) ==> owner[g] == k
  }

  /** The frames are partitioned into aligned blocks. */
  ghost predicate Tiled(owner: seq<Block>, orderMax: nat) {
    forall f: nat {:trigger TileOk(owner, orderMax, f)} :: f < |owner| ==> TileOk(owner, orderMax, f)
  }

  predicate FreeAt(owner: seq<Block>, b: nat, o: nat) {
    b < |owner| && owner[b] == Block(b, o, false)
  }

  /** List `o` holds the free blocks of order `o`, each once. */
  ghost predicate ListOk(s: Sys, owner: seq<Block>, o: nat)
    requires o < |s.free|
  {
    && NoDup(s.free[o])
    && forall b: nat :: b in s.free[o] <==> FreeAt(owner, b, o)
  }

  /** The bit of a pair is set when exactly one of its members is free, and never are both. */
  ghost predicate PairOk(s: Sys, owner: seq<Block>, b: nat, o: nat) {
    && HasPair(s, b, o)
    && PairBit(s, b, o) == (FreeAt(owner, b, o) != FreeAt(owner, BuddyOf(b, o), o))
    && !(FreeAt(owner, b, o) && FreeAt(owner, BuddyOf(b, o), o))
  }

  ghost predicate Inv(s: Sys, owner: seq<Block>) {
    && Shape(s)
    && |owner| == s.frames
    && Tiled(owner, s.orderMax)
    && (forall o: nat {:trigger ListOk(s, owner, o)} :: o <= s.orderMax ==> ListOk(s, owner, o))
    && (forall o: nat, b: nat {:trigger PairOk(s, owner, b, o)} ::
          o < s.orderMax && b < s.frames && Aligned(b, o) ==> PairOk(s, owner, b, o))
  }

  // -------------------------------------------------- two generic steps on free blocks

  lemma ToggleBit(s: Sys, b: nat, o: nat, c: nat, p: nat)
    requires HasPair(s, b, o) && HasPair(s, c, p)
    ensures HasPair(Toggle(s, b, o), c, p)
    ensures PairBit(Toggle(s, b, o), c, p) ==
            (PairBit(s, c, p) != (o == p && PairOf(b, o) == PairOf(c, p)))
  {
    var i, j := PairOf(b, o), PairOf(c, p);
    if o == p && i / 32 == j / 32 {
      var w := s.bits[o][i / 32];
      XorBit(w, Pow2(i % 32), j % 32);
      Pow2Bit(i % 32, j % 32);
      assert i == (i / 32) * 32 + i % 32;
      assert j == (j / 32) * 32 + j % 32;
    }
  }

  /** Flips the pair bit of `b`, except at the top order, which has no buddies. */
  function MaybeToggle(s: Sys, b: nat, o: nat): Sys
    requires o < s.orderMax ==> HasPair(s, b, o)
  {
    if o < s.orderMax then Toggle(s, b, o) else s
  }

  /** The free blocks of `owner'` are those of `owner`, but for (`b`, `o`). */
  ghost predicate SameFreeBut(owner: seq<Block>, owner': seq<Block>, b: nat, o: nat) {
    && |owner'| == |owner|
    && forall x: nat, p: nat :: (x != b || p != o) ==> FreeAt(owner', x, p) == FreeAt(owner, x, p)
  }

  /** A free block leaves its list and its pair bit is flipped. */
  lemma StepOut(s: Sys, owner: seq<Block>, owner': seq<Block>, b: nat, o: nat)
    requires Inv(s, owner) && Tiled(owner', s.orderMax)
    requires SameFreeBut(owner, owner', b, o)
    requires FreeAt(owner, b, o) && !FreeAt(owner', b, o)
    ensures o <= s.orderMax && Aligned(b, o)
    ensures o < s.orderMax ==> HasPair(s, b, o)
    ensures Inv(MaybeToggle(Unlink(s, b, o), b, o), owner')
    ensures Inv(Unlink(MaybeToggle(s, b, o), b, o), owner')
  {
    assert TileOk(owner, s.orderMax, b);
    if o < s.orderMax { PairInMap(s, b, o); }
    var t := MaybeToggle(Unlink(s, b, o), b, o);
    assert t == Unlink(MaybeToggle(s, b, o), b, o);
    forall p | 0 <= p <= s.orderMax ensures ListOk(t, owner', p) {
      assert ListOk(s, owner, p);
      if p == o { RemoveOk(s.free[o], b); }
    }
    Bits'(s, t, owner, owner', b, o);
  }

  /** A block that is not free and whose buddy is not free enters its list and
      its pair bit is flipped. */
  lemma StepIn(s: Sys, owner: seq<Block>, owner': seq<Block>, b: nat, o: nat)
    requires Inv(s, owner) && Tiled(owner', s.orderMax)
    requires SameFreeBut(owner, owner', b, o)
    requires !FreeAt(owner, b, o) && FreeAt(owner', b, o)
    requires o < s.orderMax ==> !FreeAt(owner, BuddyOf(b, o), o)
    ensures o <= s.orderMax && Aligned(b, o)
    ensures o < s.orderMax ==> HasPair(s, b, o)
    ensures Inv(MaybeToggle(Append(s, b, o), b, o), owner')
    ensures Inv(Append(MaybeToggle(s, b, o), b, o), owner')
  {
    assert TileOk(owner', s.orderMax, b);
    if o < s.orderMax { PairInMap(s, b, o); }
    var t := MaybeToggle(Append(s, b, o), b, o);
    assert t == Append(MaybeToggle(s, b, o), b, o);
    forall p | 0 <= p <= s.orderMax ensures ListOk(t, owner', p) {
      assert ListOk(s, owner, p);
    }
    Bits'(s, t, owner, owner', b, o);
  }

  /** The pair bits stay right when one block changes and its bit is flipped. */
  lemma Bits'(s: Sys, t: Sys, owner: seq<Block>, owner': seq<Block>, b: nat, o: nat)
    requires Inv(s, owner) && SameFreeBut(owner, owner', b, o)
    requires o <= s.orderMax && b < s.frames && Aligned(b, o)
    requires o < s.orderMax ==> HasPair(s, b, o)
    requires t.frames == s.frames && t.orderMax == s.orderMax && t.bits == MaybeToggle(s, b, o).bits
    requires FreeAt(owner', b, o) != FreeAt(owner, b, o)
    requires o < s.orderMax && FreeAt(owner', b, o) ==> !FreeAt(owner, BuddyOf(b, o), o)
    ensures forall p: nat, c: nat :: p < t.orderMax && c < t.frames && Aligned(c, p) ==> PairOk(t, owner', c, p)
    ensures forall p :: 0 <= p < t.orderMax ==> |t.bits[p]| == |s.bits[p]|
    ensures |t.bits| == |s.bits|
  {
    forall p: nat, c: nat | p < t.orderMax && c < t.frames && Aligned(c, p) ensures PairOk(t, owner', c, p) {
      assert PairOk(s, owner, c, p);
      BuddyFacts(c, p);
      if o < s.orderMax {
        assert PairOk(s, owner, b, o);
        BuddyFacts(b, o);
        ToggleBit(s, b, o, c, p);
        assert PairBit(t, c, p) == PairBit(Toggle(s, b, o), c, p);
        if p == o && PairOf(b, o) == PairOf(c, p) { SamePair(b, c, o); }
      }
    }
  }

  // --------------------------------------------------------- the loops keep the invariant

  /** Makes one block of the frames `b .. b + 2^o`. */
  function Paint(owner: seq<Block>, b: nat, o: nat, used: bool): (r: seq<Block>)
    ensures |r| == |owner|
    ensures forall f: nat :: f < |owner| ==> r[f] == if Within(f, b, o) then Block(b, o, used) else owner[f]
  {
    seq(|owner|, f requires 0 <= f < |owner| => if Within(f, b, o) then Block(b, o, used) else owner[f])
  }

  /** The block of a frame inside (`b`, `o`) does not reach outside (`b`, `o`). */
  ghost predicate InsideOf(k: Block, b: nat, o: nat) {
    b <= k.start && k.start + Pow2(k.order) <= b + Pow2(o)
  }

  lemma PaintTiled(owner: seq<Block>, orderMax: nat, b: nat, o: nat, used: bool)
    requires Tiled(owner, orderMax) && o <= orderMax && Aligned(b, o) && b + Pow2(o) <= |owner|
    requires forall f: nat :: f < |owner| && Within(f, b, o) ==> InsideOf(owner[f], b, o)
    ensures Tiled(Paint(owner, b, o, used), orderMax)
  {
    var r := Paint(owner, b, o, used);
    forall f | 0 <= f < |r| ensures TileOk(r, orderMax, f) {
      assert TileOk(owner, orderMax, f);
    }
  }

  /** The blocks handed out: first frame to order. */
  function Live(owner: seq<Block>): (m: map<nat, nat>) {
    map b: nat | b < |owner| && owner[b].used && owner[b].start == b :: owner[b].order
  }

  /** One round of coalescing: block `b` in hand swallows its free buddy. */
  lemma MergeStep(s: Sys, owner: seq<Block>, b: nat, o: nat) returns (owner': seq<Block>)
    requires Inv(s, owner) && b < s.frames && owner[b] == Block(b, o, true)
    requires o < s.orderMax && FreeAt(owner, BuddyOf(b, o), o)
    ensures Aligned(b, o) && HasPair(s, BuddyOf(b, o), o)
    ensures !PairBit(Toggle(s, BuddyOf(b, o), o), BuddyOf(b, o), o)
    ensures Inv(Unlink(Toggle(s, BuddyOf(b, o), o), BuddyOf(b, o), o), owner')
    ensures owner' == Paint(owner, Min(b, BuddyOf(b, o)), o + 1, true)
  {
    var c := BuddyOf(b, o);
    assert TileOk(owner, s.orderMax, b) && TileOk(owner, s.orderMax, c);
    BuddyFacts(b, o);
    var m := Min(b, c);
    assert PairOk(s, owner, b, o);
    assert forall f: nat :: Within(f, m, o + 1) ==> Within(f, b, o) || Within(f, c, o);
    PaintTiled(owner, s.orderMax, m, o + 1, true);
    owner' := Paint(owner, m, o + 1, true);
    StepOut(s, owner, owner', c, o);
    ToggleBit(s, c, o, c, o);
  }

  lemma MergeLive(owner: seq<Block>, orderMax: nat, b: nat, o: nat)
    requires Tiled(owner, orderMax) && b < |owner| && owner[b] == Block(b, o, true)
    requires FreeAt(owner, BuddyOf(b, o), o)
    ensures Live(Paint(owner, Min(b, BuddyOf(b, o)), o + 1, true)) - {Min(b, BuddyOf(b, o))} == Live(owner) - {b}
  {
    var c := BuddyOf(b, o);
    assert TileOk(owner, orderMax, b) && TileOk(owner, orderMax, c);
    BuddyFacts(b, o);
    assert forall f: nat :: Within(f, Min(b, c), o + 1) ==> Within(f, b, o) || Within(f, c, o);
  }

  /** Buddies share their pair bit. */
  lemma ToggleBuddy(s: Sys, b: nat, o: nat)
    requires Aligned(b, o) && HasPair(s, b, o)
    ensures HasPair(s, BuddyOf(b, o), o) && Toggle(s, BuddyOf(b, o), o) == Toggle(s, b, o)
    ensures HasPair(Toggle(s, b, o), BuddyOf(b, o), o)
    ensures PairBit(Toggle(s, b, o), BuddyOf(b, o), o) == !PairBit(s, b, o)
  {
    BuddyFacts(b, o);
    ToggleBit(s, b, o, b, o);
  }

  /** The frames of a used block become a free one. */
  lemma PutOwner(owner: seq<Block>, orderMax: nat, b: nat, o: nat) returns (owner': seq<Block>)
    requires Tiled(owner, orderMax) && b < |owner| && owner[b] == Block(b, o, true)
    ensures o <= orderMax && Aligned(b, o)
    ensures Tiled(owner', orderMax) && SameFreeBut(owner, owner', b, o) && FreeAt(owner', b, o)
    ensures Live(owner') == Live(owner) - {b}
  {
    assert TileOk(owner, orderMax, b);
    PaintTiled(owner, orderMax, b, o, false);
    owner' := Paint(owner, b, o, false);
  }

  /** The block in hand ends up on its list. */
  lemma PutStep(s: Sys, owner: seq<Block>, b: nat, o: nat) returns (owner': seq<Block>)
    requires Inv(s, owner) && b < s.frames && owner[b] == Block(b, o, true)
    requires o < s.orderMax ==> !FreeAt(owner, BuddyOf(b, o), o)
    ensures o <= s.orderMax && Aligned(b, o)
    ensures o < s.orderMax ==> HasPair(s, BuddyOf(b, o), o) && PairBit(Toggle(s, BuddyOf(b, o), o), BuddyOf(b, o), o)
    ensures Inv(Append(if o < s.orderMax then Toggle(s, BuddyOf(b, o), o) else s, b, o), owner')
    ensures Live(owner') == Live(owner) - {b}
  {
    owner' := PutOwner(owner, s.orderMax, b, o);
    StepIn(s, owner, owner', b, o);
    if o < s.orderMax {
      assert PairOk(s, owner, b, o);
      ToggleBuddy(s, b, o);
    }
  }

  /** The loop ends with this round. */
  lemma FreeLoopEnds(s: Sys, owner: seq<Block>, b: nat, o: nat) returns (owner': seq<Block>)
    requires Inv(s, owner) && b < s.frames && owner[b] == Block(b, o, true)
    requires o < s.orderMax ==> !FreeAt(owner, BuddyOf(b, o), o)
    ensures o <= s.orderMax && Aligned(b, o) && Inv(FreeLoop(s, b, o), owner') && Live(owner') == Live(owner) - {b}
  {
    owner' := PutStep(s, owner, b, o);
    if o < s.orderMax { FreeLoopRound(s, b, o); }
  }

  /** The loop goes on with the merged block. */
  lemma FreeLoopGoesOn(s: Sys, owner: seq<Block>, b: nat, o: nat) returns (t: Sys, m: nat, owner': seq<Block>)
    requires Inv(s, owner) && b < s.frames && owner[b] == Block(b, o, true)
    requires o < s.orderMax && FreeAt(owner, BuddyOf(b, o), o)
    ensures Aligned(b, o) && m < s.frames && Aligned(m, o + 1) && t.orderMax == s.orderMax && t.frames == s.frames
    ensures Inv(t, owner') && owner'[m] == Block(m, o + 1, true) && Live(owner') - {m} == Live(owner) - {b}
    ensures FreeLoop(s, b, o) == FreeLoop(t, m, o + 1)
  {
    var c := BuddyOf(b, o);
    owner' := MergeStep(s, owner, b, o);
    MergeLive(owner, s.orderMax, b, o);
    FreeLoopRound(s, b, o);
    t, m := Unlink(Toggle(s, c, o), c, o), Min(b, c);
    assert Within(m, m, o + 1);
  }

  lemma {:induction false} FreeLoopInv(s: Sys, owner: seq<Block>, b: nat, o: nat) returns (owner': seq<Block>)
    requires Inv(s, owner) && b < s.frames && owner[b] == Block(b, o, true)
    ensures o <= s.orderMax && Aligned(b, o)
    ensures Inv(FreeLoop(s, b, o), owner')
    ensures Live(owner') == Live(owner) - {b}
    decreases s.orderMax - o
  {
    assert TileOk(owner, s.orderMax, b);
    if o < s.orderMax && FreeAt(owner, BuddyOf(b, o), o) {
      var t, m, merged := FreeLoopGoesOn(s, owner, b, o);
      owner' := FreeLoopInv(t, merged, m, o + 1);
    } else {
      owner' := FreeLoopEnds(s, owner, b, o);
    }
  }

  /** The frames of an order `i + 1` block become two blocks of order `i`. */
  function Cut(owner: seq<Block>, left: nat, i: nat): (r: seq<Block>) {
    Paint(Paint(owner, left, i, true), left + Pow2(i), i, false)
  }

  lemma CutTiled(owner: seq<Block>, orderMax: nat, left: nat, i: nat)
    requires Tiled(owner, orderMax) && left < |owner| && owner[left] == Block(left, i + 1, true)
    ensures left + Pow2(i) < |owner|
    ensures Tiled(Cut(owner, left, i), orderMax)
  {
    var r := Cut(owner, left, i);
    assert TileOk(owner, orderMax, left);
    Halves(left, i);
    forall f: nat | f < |r| ensures TileOk(r, orderMax, f) {
      if Within(f, left, i + 1) {
        assert r[f] == if Within(f, left, i) then Block(left, i, true) else Block(left + Pow2(i), i, false);
      } else {
        CutElsewhere(owner, orderMax, left, i, f);
      }
    }
  }

  lemma CutElsewhere(owner: seq<Block>, orderMax: nat, left: nat, i: nat, f: nat)
    requires Tiled(owner, orderMax) && left < |owner| && owner[left] == Block(left, i + 1, true)
    requires f < |owner| && !Within(f, left, i + 1)
    ensures TileOk(Cut(owner, left, i), orderMax, f)
  {
    var r, k := Cut(owner, left, i), owner[f];
    assert TileOk(owner, orderMax, f) && TileOk(owner, orderMax, left);
    assert r[f] == k;
    forall g: nat | Within(g, k.start, k.order) ensures r[g] == k {
      assert owner[g] == k;
      assert !Within(g, left, i + 1);
    }
  }

  lemma CutEffect(owner: seq<Block>, orderMax: nat, left: nat, i: nat)
    requires Tiled(owner, orderMax) && left < |owner| && owner[left] == Block(left, i + 1, true)
    ensures SameFreeBut(owner, Cut(owner, left, i), left + Pow2(i), i)
    ensures Live(Cut(owner, left, i)) == Live(owner)[left := i]
    ensures !FreeAt(owner, left + Pow2(i), i) && FreeAt(Cut(owner, left, i), left + Pow2(i), i)
    ensures Cut(owner, left, i)[left] == Block(left, i, true)
  {
    assert TileOk(owner, orderMax, left);
    var r := Cut(owner, left, i);
    assert r[left] == Block(left, i, true);
  }

  /** Block `left` of order `i + 1` in hand is cut and its right half listed. */
  lemma SplitStep(s: Sys, owner: seq<Block>, left: nat, i: nat) returns (owner': seq<Block>)
    requires Inv(s, owner) && left < s.frames && owner[left] == Block(left, i + 1, true)
    ensures i < s.orderMax && HasPair(s, left + Pow2(i), i)
    ensures Inv(SplitOff(s, left, i), owner')
    ensures owner'[left] == Block(left, i, true) && Live(owner') == Live(owner)[left := i]
  {
    assert i < s.orderMax && BuddyOf(left + Pow2(i), i) == left by {
      assert TileOk(owner, s.orderMax, left);
      Halves(left, i);
      BuddyFacts(left, i);
    }
    CutTiled(owner, s.orderMax, left, i);
    CutEffect(owner, s.orderMax, left, i);
    owner' := Cut(owner, left, i);
    StepIn(s, owner, owner', left + Pow2(i), i);
  }

  lemma InHand(s: Sys, owner: seq<Block>, b: nat, i: nat)
    requires Inv(s, owner) && b < s.frames && owner[b].start == b && owner[b].order == i
    ensures i <= s.orderMax && Aligned(b, i) && b + Pow2(i) <= s.frames
  {
    assert TileOk(owner, s.orderMax, b);
  }

  lemma {:induction false} SplitLoopInv(s: Sys, owner: seq<Block>, left: nat, i: nat, order: nat)
      returns (owner': seq<Block>)
    requires Inv(s, owner) && left < s.frames && owner[left] == Block(left, i, true) && order <= i
    ensures i <= s.orderMax && Aligned(left, i) && left + Pow2(i) <= s.frames
    ensures Inv(SplitLoop(s, left, i, order), owner')
    ensures Live(owner') == Live(owner)[left := order]
    decreases i
  {
    InHand(s, owner, left, i);
    if i == order {
      owner' := owner;
    } else {
      var cut := SplitStep(s, owner, left, i - 1);
      owner' := SplitLoopInv(SplitOff(s, left, i - 1), cut, left, i - 1, order);
    }
  }

  lemma TakeStep(s: Sys, owner: seq<Block>, b: nat, i: nat) returns (owner': seq<Block>)
    requires Inv(s, owner) && FreeAt(owner, b, i)
    ensures i <= s.orderMax && (i < s.orderMax ==> HasPair(s, b, i))
    ensures Inv(MaybeToggle(Unlink(s, b, i), b, i), owner')
    ensures owner'[b] == Block(b, i, true) && Live(owner') == Live(owner)[b := i]
  {
    assert TileOk(owner, s.orderMax, b);
    PaintTiled(owner, s.orderMax, b, i, true);
    owner' := Paint(owner, b, i, true);
    StepOut(s, owner, owner', b, i);
  }

  lemma InvListed(s: Sys, owner: seq<Block>)
    requires Inv(s, owner)
    ensures Listed(s)
  {
    forall o, b | 0 <= o <= s.orderMax && b in s.free[o] ensures Aligned(b, o) && b + Pow2(o) <= s.frames {
      assert ListOk(s, owner, o);
      assert TileOk(owner, s.orderMax, b);
    }
  }

  // ------------------------------------------------------------- what callers may rely on

  /** No block in `live` covers frame `f`. */
  ghost predicate FreeFrame(live: map<nat, nat>, f: nat) {
    forall b :: b in live ==> !Within(f, b, live[b])
  }

  /** An aligned run of 2^o frames, none of them handed out. */
  ghost predicate FreeRun(frames: nat, live: map<nat, nat>, b: nat, o: nat) {
    && Aligned(b, o)
    && b + Pow2(o) <= frames
    && forall f: nat :: Within(f, b, o) ==> FreeFrame(live, f)
  }

  /** A free run that lies in no larger free run of an order the system manages. */
  ghost predicate Maximal(frames: nat, orderMax: nat, live: map<nat, nat>, b: nat, o: nat) {
    && o <= orderMax
    && FreeRun(frames, live, b, o)
    && forall c: nat, p: nat :: o < p <= orderMax && FreeRun(frames, live, c, p) ==> !Within(b, c, p)
  }

  /** A state that is consistent with `live` being the blocks handed out. */
  ghost predicate Good(s: Sys, live: map<nat, nat>) {
    exists owner :: Inv(s, owner) && Live(owner) == live
  }

  lemma FreeFrameOwner(s: Sys, owner: seq<Block>, f: nat)
    requires Inv(s, owner) && f < s.frames
    ensures FreeFrame(Live(owner), f) <==> !owner[f].used
  {
    var k := owner[f];
    assert TileOk(owner, s.orderMax, f);
    if k.used {
      assert owner[k.start] == k;
      assert k.start in Live(owner) && Within(f, k.start, Live(owner)[k.start]);
    }
    forall b | b in Live(owner) && Within(f, b, Live(owner)[b]) ensures owner[f].used {
      assert TileOk(owner, s.orderMax, b);
    }
  }

  /** Below the top order no block and its buddy are both free. */
  ghost predicate NoFreePair(owner: seq<Block>, orderMax: nat) {
    forall o: nat, b: nat :: o < orderMax && Aligned(b, o) && FreeAt(owner, b, o) ==> !FreeAt(owner, BuddyOf(b, o), o)
  }

  lemma InvNoFreePair(s: Sys, owner: seq<Block>)
    requires Inv(s, owner)
    ensures NoFreePair(owner, s.orderMax)
  {
    forall o: nat, b: nat | o < s.orderMax && Aligned(b, o) && FreeAt(owner, b, o)
      ensures !FreeAt(owner, BuddyOf(b, o), o)
    {
      assert PairOk(s, owner, b, o);
    }
  }

  /** Every free run lies inside one free block: this is where "never both buddies
      free" is needed, at every order below `o`. */
  lemma {:induction false} RunInBlock(owner: seq<Block>, orderMax: nat, b: nat, o: nat)
    requires Tiled(owner, orderMax) && NoFreePair(owner, orderMax)
    requires o <= orderMax && Aligned(b, o) && b + Pow2(o) <= |owner|
    requires forall f: nat :: Within(f, b, o) ==> !owner[f].used
    ensures o <= owner[b].order && owner[b].start <= b && b + Pow2(o) <= owner[b].start + Pow2(owner[b].order)
    decreases o
  {
    assert TileOk(owner, orderMax, b);
    if o > 0 {
      var p := o - 1;
      var c := b + Pow2(p);
      Halves(b, p);
      RunInBlock(owner, orderMax, b, p);
      RunInBlock(owner, orderMax, c, p);
      if owner[b].order == p { RunNotSplit(owner, orderMax, b, p); }
    }
    Nested(b, o, owner[b].start, owner[b].order, b);
  }

  lemma RunNotSplit(owner: seq<Block>, orderMax: nat, b: nat, p: nat)
    requires Tiled(owner, orderMax) && NoFreePair(owner, orderMax)
    requires p < orderMax && Aligned(b, p + 1) && b + Pow2(p) < |owner|
    requires !owner[b].used && !owner[b + Pow2(p)].used
    requires p <= owner[b + Pow2(p)].order
    ensures owner[b].order != p
  {
    if owner[b].order == p { BothHalves(owner, orderMax, b, p); }
  }

  /** If the left half of an aligned block is a free block and the right half is free too,
      the right half is a block of its own. */
  lemma BothHalves(owner: seq<Block>, orderMax: nat, b: nat, p: nat)
    requires Tiled(owner, orderMax)
    requires p < orderMax && Aligned(b, p + 1) && b + Pow2(p) < |owner|
    requires !owner[b].used && !owner[b + Pow2(p)].used
    requires owner[b].order == p <= owner[b + Pow2(p)].order
    ensures Aligned(b, p) && FreeAt(owner, b, p) && FreeAt(owner, BuddyOf(b, p), p)
  {
    var c := b + Pow2(p);
    Halves(b, p);
    assert TileOk(owner, orderMax, b) && TileOk(owner, orderMax, c);
    var k := owner[c];
    Nested(b, p, owner[b].start, p, b);
    if k.order > p {
      Nested(b, p + 1, k.start, k.order, c);
    } else {
      Nested(c, p, k.start, p, c);
    }
  }

  lemma RunInBlock'(s: Sys, owner: seq<Block>, b: nat, o: nat)
    requires Inv(s, owner) && o <= s.orderMax && FreeRun(s.frames, Live(owner), b, o)
    ensures !owner[b].used && o <= owner[b].order
    ensures owner[b].start <= b && b + Pow2(o) <= owner[b].start + Pow2(owner[b].order)
  {
    forall f: nat | Within(f, b, o) ensures !owner[f].used { FreeFrameOwner(s, owner, f); }
    InvNoFreePair(s, owner);
    RunInBlock(owner, s.orderMax, b, o);
  }

  lemma BlockIsRun(s: Sys, owner: seq<Block>, f: nat)
    requires Inv(s, owner) && f < s.frames && !owner[f].used
    ensures owner[f].order <= s.orderMax && Within(f, owner[f].start, owner[f].order)
    ensures FreeRun(s.frames, Live(owner), owner[f].start, owner[f].order)
  {
    var k := owner[f];
    assert TileOk(owner, s.orderMax, f);
    forall g: nat | Within(g, k.start, k.order) ensures FreeFrame(Live(owner), g) { FreeFrameOwner(s, owner, g); }
  }

  lemma ListedIsMaximal(s: Sys, owner: seq<Block>, b: nat, o: nat)
    requires Inv(s, owner) && FreeAt(owner, b, o)
    ensures Maximal(s.frames, s.orderMax, Live(owner), b, o)
  {
    var live := Live(owner);
    BlockIsRun(s, owner, b);
    forall c: nat, p: nat | o < p <= s.orderMax && FreeRun(s.frames, live, c, p) ensures !Within(b, c, p) {
      RunInBlock'(s, owner, c, p);
      assert TileOk(owner, s.orderMax, c);
    }
  }

  lemma MaximalIsListed(s: Sys, owner: seq<Block>, b: nat, o: nat)
    requires Inv(s, owner) && Maximal(s.frames, s.orderMax, Live(owner), b, o)
    ensures FreeAt(owner, b, o)
  {
    RunInBlock'(s, owner, b, o);
    BlockIsRun(s, owner, b);
  }

  /** Canonicity: the lists hold exactly the maximal aligned free runs. */
  lemma Canonical(s: Sys, live: map<nat, nat>, b: nat, o: nat)
    requires Good(s, live) && o <= s.orderMax
    ensures b in s.free[o] <==> Maximal(s.frames, s.orderMax, live, b, o)
  {
    var owner :| Inv(s, owner) && Live(owner) == live;
    assert ListOk(s, owner, o);
    if FreeAt(owner, b, o) { ListedIsMaximal(s, owner, b, o); }
    if Maximal(s.frames, s.orderMax, live, b, o) { MaximalIsListed(s, owner, b, o); }
  }

  lemma GoodListed(s: Sys, live: map<nat, nat>)
    requires Good(s, live)
    ensures Listed(s)
  {
    var owner :| Inv(s, owner) && Live(owner) == live;
    InvListed(s, owner);
  }

  lemma AllocSome(s: Sys, owner: seq<Block>, order: nat)
    requires Inv(s, owner) && Listed(s) && Search(s, order) <= s.orderMax
    ensures var (r, t) := Alloc(s, order);
            && r.Some?
            && FreeRun(s.frames, Live(owner), r.value, order)
            && Good(t, Live(owner)[r.value := order])
            && t.frames == s.frames && t.orderMax == s.orderMax
  {
    var i := Search(s, order);
    SearchHit(s, order);
    var left := s.free[i][0];
    assert ListOk(s, owner, i) && left in s.free[i];
    var taken := TakeStep(s, owner, left, i);
    var t := MaybeToggle(Unlink(s, left, i), left, i);
    var owner' := SplitLoopInv(t, taken, left, i, order);
    SplitLoopSame(t, left, i, order);
    assert Live(owner') == Live(owner)[left := order];
    BlockIsRun(s, owner, left);
    SmallerRun(s.frames, Live(owner), left, i, order);
  }

  lemma {:induction false} SplitLoopSame(s: Sys, left: nat, i: nat, order: nat)
    requires Shape(s) && order <= i <= s.orderMax && Aligned(left, i) && left + Pow2(i) <= s.frames
    ensures var t := SplitLoop(s, left, i, order); t.frames == s.frames && t.orderMax == s.orderMax
    decreases i
  {
    if i > order {
      SplitRound(s, left, i - 1, order);
      SplitLoopSame(SplitOff(s, left, i - 1), left, i - 1, order);
    }
  }

  lemma {:induction false} FreeLoopSame(s: Sys, b: nat, o: nat)
    requires Shape(s) && b < s.frames && o <= s.orderMax && Aligned(b, o)
    ensures var t := FreeLoop(s, b, o); t.frames == s.frames && t.orderMax == s.orderMax
    decreases s.orderMax - o
  {
    if o < s.orderMax {
      BuddyFacts(b, o);
      PairInMap(s, b, o);
      var c := BuddyOf(b, o);
      var t := Toggle(s, c, o);
      if !PairBit(t, c, o) {
        FreeLoopSame(Unlink(t, c, o), if c < b then c else b, o + 1);
      }
    }
  }

  lemma {:induction false} AlignedDown(b: nat, i: nat, o: nat)
    requires Aligned(b, i) && o <= i
    ensures Aligned(b, o)
    decreases i
  {
    if o > 0 { AlignedDown(b / 2, i - 1, o - 1); }
  }

  lemma SmallerRun(frames: nat, live: map<nat, nat>, b: nat, i: nat, o: nat)
    requires FreeRun(frames, live, b, i) && o <= i
    ensures FreeRun(frames, live, b, o)
  {
    Pow2Mono(o, i);
    AlignedDown(b, i, o);
  }

  /** Allocation fails exactly when no aligned free run of the size exists, for
      every requested order; otherwise it hands out such a run. */
  lemma AllocExact(s: Sys, live: map<nat, nat>, order: nat)
    requires Good(s, live)
    ensures Listed(s)
    ensures var (r, t) := Alloc(s, order);
            && (r.None? <==> !exists b :: FreeRun(s.frames, live, b, order))
            && (r.None? ==> t == s)
            && (r.Some? ==> FreeRun(s.frames, live, r.value, order) && Good(t, live[r.value := order]))
            && t.frames == s.frames && t.orderMax == s.orderMax
  {
    var owner :| Inv(s, owner) && Live(owner) == live;
    InvListed(s, owner);
    if Search(s, order) <= s.orderMax {
      AllocSome(s, owner, order);
    } else {
      SearchHit(s, order);
      forall b | FreeRun(s.frames, live, b, order) ensures false {
        if order <= s.orderMax {
          RunInBlock'(s, owner, b, order);
          assert TileOk(owner, s.orderMax, b);
          var k: Block := owner[b];
          assert ListOk(s, owner, k.order) && FreeAt(owner, k.start, k.order);
        } else {
          Pow2Mono(s.orderMax + 1, order);
        }
      }
    }
  }

  /** Freeing a block that was handed out takes exactly that block back. */
  lemma FreeExact(s: Sys, live: map<nat, nat>, b: nat)
    requires Good(s, live) && b in live
    ensures Shape(s) && b < s.frames && live[b] <= s.orderMax && Aligned(b, live[b])
    ensures var t := Free(s, b, live[b]);
            Good(t, live - {b}) && t.frames == s.frames && t.orderMax == s.orderMax
  {
    var owner :| Inv(s, owner) && Live(owner) == live;
    var owner' := FreeLoopInv(s, owner, b, live[b]);
    FreeLoopSame(s, b, live[b]);
  }

  /** The blocks handed out determine the free blocks of every order. */
  lemma LiveDeterminesFree(s: Sys, t: Sys, live: map<nat, nat>, o: nat)
    requires Good(s, live) && Good(t, live)
    requires s.frames == t.frames && s.orderMax == t.orderMax && o <= s.orderMax
    ensures forall b: nat :: b in s.free[o] <==> b in t.free[o]
    ensures multiset(s.free[o]) == multiset(t.free[o])
  {
    forall b: nat ensures b in s.free[o] <==> b in t.free[o] {
      Canonical(s, live, b, o);
      Canonical(t, live, b, o);
    }
    var owner :| Inv(s, owner) && Live(owner) == live;
    var owner' :| Inv(t, owner') && Live(owner') == live;
    assert ListOk(s, owner, o) && ListOk(t, owner', o);
    NoDupMultiset(s.free[o]);
    NoDupMultiset(t.free[o]);
  }

  lemma {:induction false} NoDupMultiset(q: seq<nat>)
    requires NoDup(q)
    ensures forall x: nat :: multiset(q)[x] == if x in q then 1 else 0
  {
    if q != [] {
      var t := q[1..];
      assert q == [q[0]] + t;
      NoDupMultiset(t);
      assert q[0] !in t;
    }
  }

  /** Freeing what was just allocated restores the free blocks of every order. */
  lemma AllocThenFree(s: Sys, live: map<nat, nat>, order: nat, o: nat)
    requires Good(s, live) && Listed(s) && Alloc(s, order).0.Some? && o <= s.orderMax
    ensures var (r, t) := Alloc(s, order);
            && Shape(t) && r.value < t.frames && order <= t.orderMax && Aligned(r.value, order)
            && |Free(t, r.value, order).free| == s.orderMax + 1
            && multiset(Free(t, r.value, order).free[o]) == multiset(s.free[o])
  {
    var (r, t) := Alloc(s, order);
    AllocExact(s, live, order);
    var live' := live[r.value := order];
    FreeExact(t, live', r.value);
    RunNotLive(s, live, r.value, order);
    assert live' - {r.value} == live;
    LiveDeterminesFree(s, Free(t, r.value, order), live, o);
  }

  lemma RunNotLive(s: Sys, live: map<nat, nat>, b: nat, o: nat)
    requires Good(s, live) && FreeRun(s.frames, live, b, o)
    ensures b !in live
  {
    assert Within(b, b, o);
    if b in live { assert Within(b, b, live[b]); }
  }

  // ------------------------------------------------------------------- initial state

  /** Each frame counts as handed out on its own. */
  function InitOwner(n: nat): seq<Block> {
    seq(n, f requires 0 <= f < n => Block(f, 0, true))
  }

  function InitLive(n: nat): map<nat, nat> {
    Live(InitOwner(n))
  }

  lemma InitGood(n: nat)
    requires MapFits(n)
    ensures Good(Init(n), InitLive(n))
  {
    var s := Init(n);
    var owner := InitOwner(n);
    Log2Bounds(n);
    forall f | 0 <= f < n ensures TileOk(owner, s.orderMax, f) { assert Pow2(0) == 1; }
    forall o: nat, b: nat | o < s.orderMax && b < s.frames && Aligned(b, o) ensures PairOk(s, owner, b, o) {
      PairInMap(s, b, o);
      ZeroBit(PairOf(b, o) % 32);
    }
  }

  lemma {:induction false} ShrPred(n: nat, k: nat)
    requires n > 0
    ensures Shr(n - 1, k) == if Aligned(n, k) then Shr(n, k) - 1 else Shr(n, k)
    ensures Aligned(n, k) ==> Shr(n, k) > 0
    decreases k
  {
    if k > 0 {
      if n % 2 == 0 { ShrPred(n / 2, k - 1); }
      else { assert (n - 1) / 2 == n / 2; }
    }
  }

  /** At order `o` the frames fall into whole pairs, or the pairs do not fill whole words. */
  predicate RowFits(n: nat, o: nat) {
    Aligned(n, o + 1) || Shr(n, o + 1) % 32 != 0
  }

  /** Exactly when the maps are large enough, in terms of the frame count alone. */
  lemma MapFitsExactly(n: nat)
    requires n > 0
    ensures MapFits(n) <==> forall o :: 0 <= o < Log2(n) ==> RowFits(n, o)
  {
    forall o | 0 <= o < Log2(n)
      ensures PairOf(n - 1, o) / 32 < Words(n, o) <==> RowFits(n, o)
    {
      ShrPred(n, o + 1);
      Log2Shr(n, o + 1);
    }
  }

  /** 65 frames: the pair of frame 64 is number 32, one past the single word allocated. */
  lemma MapTooSmall()
    ensures !MapFits(65)
  {
    assert Log2(65) == 1 + Log2(32) && Log2(32) == 1 + Log2(16);
    assert Shr(65, 1) == Shr(32, 0) == 32;
    assert !RowFits(65, 0);
    MapFitsExactly(65);
  }

  lemma {:induction false} PowerOfTwoFits(k: nat)
    ensures MapFits(Pow2(k))
  {
    forall o | 0 <= o < Log2(Pow2(k)) ensures RowFits(Pow2(k), o) {
      Log2Pow2(k);
      Pow2Aligned(k, o + 1);
    }
    MapFitsExactly(Pow2(k));
  }

  lemma {:induction false} Pow2Aligned(k: nat, o: nat)
    requires o <= k
    ensures Aligned(Pow2(k), o)
    decreases k
  {
    if o > 0 {
      Pow2Aligned(k - 1, o - 1);
      AlignedDouble(Pow2(k - 1), o - 1);
    }
  }

  // ---------------------------------------------------------------------------- runs

  datatype Op = AllocOp(order: nat) | FreeOp(start: nat, order: nat)

  /** One call: any allocation request, or the return of a block still handed out. */
  ghost predicate Stepped(s: Sys, live: map<nat, nat>, op: Op, s': Sys, live': map<nat, nat>) {
    match op
    case AllocOp(order) =>
      && Listed(s)
      && s' == Alloc(s, order).1
      && live' == (match Alloc(s, order).0 case Some(b) => live[b := order] case None => live)
    case FreeOp(b, o) =>
      && b in live && live[b] == o
      && Shape(s) && b < s.frames && o <= s.orderMax && Aligned(b, o)
      && s' == Free(s, b, o)
      && live' == live - {b}
  }

  /** `ops` leads from the initial state over `n` frames to (`s`, `live`). */
  ghost predicate Run(n: nat, ops: seq<Op>, s: Sys, live: map<nat, nat>)
    requires n > 0
  {
    if ops == [] then s == Init(n) && live == InitLive(n)
    else exists s0, live0 ::
           && Run(n, Front(ops), s0, live0)
           && Stepped(s0, live0, Last(ops), s, live)
  }

  lemma {:induction false} RunGood(n: nat, ops: seq<Op>, s: Sys, live: map<nat, nat>)
    requires MapFits(n) && Run(n, ops, s, live)
    ensures Good(s, live) && s.frames == n && s.orderMax == Log2(n)
  {
    if ops == [] {
      InitGood(n);
    } else {
      var s0, live0 :| Run(n, Front(ops), s0, live0) && Stepped(s0, live0, Last(ops), s, live);
      RunGood(n, Front(ops), s0, live0);
      match Last(ops)
      case AllocOp(order) => AllocExact(s0, live0, order);
      case FreeOp(b, o) => FreeExact(s0, live0, b);
    }
  }

  /** Block (`b`, `o`) is either handed out or listed as free. */
  ghost predicate Present(s: Sys, live: map<nat, nat>, b: nat, o: nat) {
    (b in live && live[b] == o) || (o < |s.free| && b in s.free[o])
  }

  lemma PresentOwner(s: Sys, owner: seq<Block>, b: nat, o: nat)
    requires Inv(s, owner) && Present(s, Live(owner), b, o)
    ensures b < s.frames && owner[b].start == b && owner[b].order == o
    ensures owner[b].used <==> b in Live(owner)
  {
    if o < |s.free| && b in s.free[o] { assert ListOk(s, owner, o); }
  }

  ghost predicate Covered(s: Sys, live: map<nat, nat>, f: nat) {
    exists b, o :: Present(s, live, b, o) && Within(f, b, o)
  }

  lemma CoveredOwner(s: Sys, owner: seq<Block>, f: nat)
    requires Inv(s, owner) && f < s.frames
    ensures Covered(s, Live(owner), f)
  {
    assert TileOk(owner, s.orderMax, f);
    var k := owner[f];
    assert owner[k.start] == k;
    if !k.used { assert ListOk(s, owner, k.order) && FreeAt(owner, k.start, k.order); }
    assert Present(s, Live(owner), k.start, k.order);
  }

  lemma DisjointOwner(s: Sys, owner: seq<Block>, f: nat, b: nat, o: nat, c: nat, p: nat)
    requires Inv(s, owner) && Present(s, Live(owner), b, o) && Present(s, Live(owner), c, p)
    requires Within(f, b, o) && Within(f, c, p)
    ensures b == c && o == p
  {
    PresentOwner(s, owner, b, o);
    PresentOwner(s, owner, c, p);
    assert TileOk(owner, s.orderMax, b) && TileOk(owner, s.orderMax, c);
    assert owner[f] == owner[b];
  }

  /** In every reachable state the free and the handed-out blocks partition the
      frames into aligned ranges. */
  lemma RunPartition(n: nat, ops: seq<Op>, s: Sys, live: map<nat, nat>)
    requires MapFits(n) && Run(n, ops, s, live)
    ensures forall b: nat, o: nat :: Present(s, live, b, o) ==> Aligned(b, o) && b + Pow2(o) <= n
    ensures forall f: nat :: f < n ==> Covered(s, live, f)
    ensures forall f: nat, b: nat, o: nat, c: nat, p: nat ::
              Present(s, live, b, o) && Present(s, live, c, p) && Within(f, b, o) && Within(f, c, p) ==>
                b == c && o == p
    ensures forall b: nat, o: nat :: b in live && o < |s.free| ==> b !in s.free[o]
  {
    RunGood(n, ops, s, live);
    var owner :| Inv(s, owner) && Live(owner) == live;
    forall b: nat, o: nat | Present(s, live, b, o) ensures Aligned(b, o) && b + Pow2(o) <= n {
      PresentOwner(s, owner, b, o);
      InHand(s, owner, b, o);
    }
    forall f: nat | f < n ensures Covered(s, live, f) { CoveredOwner(s, owner, f); }
    forall f: nat, b: nat, o: nat, c: nat, p: nat |
      Present(s, live, b, o) && Present(s, live, c, p) && Within(f, b, o) && Within(f, c, p) ensures b == c && o == p
    {
      DisjointOwner(s, owner, f, b, o, c, p);
    }
    forall b: nat, o: nat | b in live && o < |s.free| ensures b !in s.free[o] {
      assert ListOk(s, owner, o);
    }
  }

  /** In every reachable state each pair bit is the exclusive or of "left is
      listed" and "right is listed", and below the top order never are both. */
  lemma RunPairBits(n: nat, ops: seq<Op>, s: Sys, live: map<nat, nat>, b: nat, o: nat)
    requires MapFits(n) && Run(n, ops, s, live)
    requires b < n && o < s.orderMax && Aligned(b, o)
    ensures |s.free| == s.orderMax + 1 && HasPair(s, b, o)
    ensures PairBit(s, b, o) <==> ((b in s.free[o]) != (BuddyOf(b, o) in s.free[o]))
    ensures !(b in s.free[o] && BuddyOf(b, o) in s.free[o])
  {
    RunGood(n, ops, s, live);
    var owner :| Inv(s, owner) && Live(owner) == live;
    assert PairOk(s, owner, b, o) && ListOk(s, owner, o);
  }

  /** In every reachable state the free lists hold exactly the maximal free runs. */
  lemma RunCanonical(n: nat, ops: seq<Op>, s: Sys, live: map<nat, nat>, b: nat, o: nat)
    requires MapFits(n) && Run(n, ops, s, live) && o <= Log2(n)
    ensures o < |s.free|
    ensures b in s.free[o] <==> Maximal(n, Log2(n), live, b, o)
  {
    RunGood(n, ops, s, live);
    GoodListed(s, live);
    Canonical(s, live, b, o);
  }
}
