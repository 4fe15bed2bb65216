/** The buddy allocator as it runs: maps toggled in place, lists relinked. */
module BuddyAllocator {
  import opened Common
  import opened Bits
  import opened Dyadic
  import opened Buddy
  import opened BuddyTheory
  import opened KmallocOps

  class BuddySys {
    var frames: nat
    var orderMax: nat
    var free: seq<seq<nat>>
    var bits: seq<seq<nat>>

    function State(): Sys
      reads this
    {
      Sys(frames, orderMax, free, bits)
    }

    constructor (framesNum: nat)
      requires framesNum < 0x1_0000_0000
      ensures State() == Buddy.Init(framesNum)
      ensures MapFits(framesNum) ==> Good(State(), InitLive(framesNum))
    {
      frames := framesNum;
      var top := FloorLog(framesNum);
      orderMax := top;
      var lists: seq<seq<nat>> := [];
      var maps: seq<seq<nat>> := [];
      var i := 0;
      while i < top
        invariant 0 <= i <= Log2(framesNum)
        invariant lists == seq(i, _ => [])
        invariant maps == seq(i, o requires 0 <= o < i => seq(Words(framesNum, o), _ => 0))
      {
        Log2Shr(framesNum, i + 1);
        var count := Shr(framesNum, i + 1);
        count := (count - 1) / 32 + 1;
        var row: seq<nat> := seq(count, _ => 0);
        maps := maps + [row];
        lists := lists + [[]];
        i := i + 1;
      }
      lists := lists + [[]];
      free := lists;
      bits := maps;
      if MapFits(framesNum) { InitGood(framesNum); }
      new;
      assert State() == Buddy.Init(framesNum);
    }

    /** Flips the bit of the pair of `b`; the result is non-zero when it is now set. */
    method ToggleBit(b: nat, order: nat) returns (r: nat)
      requires HasPair(State(), b, order)
      modifies this`bits
      ensures State() == Toggle(old(State()), b, order)
      ensures HasPair(State(), b, order) && (r != 0 <==> PairBit(State(), b, order))
    {
      var i := Shr(b, order + 1);
      var bit := Pow2(i % 32);
      var word := Xor(bits[order][i / 32], bit);
      bits := bits[order := bits[order][i / 32 := word]];
      r := And(word, bit);
      AndPow2(word, i % 32);
    }

    /** Takes back block `b`, merging it with free buddies as far as possible. */
    method Free(b: nat, o: nat)
      requires Shape(State()) && b < frames && o <= orderMax && Aligned(b, o)
      modifies this`free, this`bits
      ensures State() == Buddy.Free(old(State()), b, o)
    {
      var blockIdx: nat, order: nat := b, o;
      while order != orderMax
        invariant Shape(State()) && blockIdx < frames && order <= orderMax && Aligned(blockIdx, order)
        invariant FreeLoop(State(), blockIdx, order) == Buddy.Free(old(State()), b, o)
        decreases orderMax - order
      {
        var joined, merged := Join(blockIdx, order);
        if !joined {
          break;
        }
        blockIdx, order := merged, order + 1;
      }
      free := free[order := free[order] + [blockIdx]];
    }

    /** One round: the pair bit tells whether the buddy is free; then it is taken off its list
        and the two become one block. */
    method Join(blockIdx: nat, order: nat) returns (joined: bool, merged: nat)
      requires Shape(State()) && blockIdx < frames && order < orderMax && Aligned(blockIdx, order)
      modifies this`free, this`bits
      ensures Shape(State())
      ensures !joined ==> FreeLoop(old(State()), blockIdx, order) == Append(State(), blockIdx, order)
      ensures joined ==> merged < frames && Aligned(merged, order + 1)
      ensures joined ==> FreeLoop(old(State()), blockIdx, order) == FreeLoop(State(), merged, order + 1)
    {
      var buddyIdx := Xor(blockIdx, Pow2(order));
      FreeLoopRound(State(), blockIdx, order);
      var r := ToggleBit(buddyIdx, order);
      merged := blockIdx;
      joined := r == 0;
      if joined {
        free := free[order := Remove(free[order], buddyIdx)];
        if buddyIdx < blockIdx {
          merged := buddyIdx;
        }
      }
    }

    /** Hands out the lowest-order free block that is large enough, split to size. */
    method Alloc(order: nat) returns (r: Option<nat>)
      requires Listed(State())
      modifies this`free, this`bits
      ensures (r, State()) == Buddy.Alloc(old(State()), order)
    {
      var i := order;
      while i <= orderMax && free[i] == []
        invariant order <= i
        invariant Search(State(), order) == Search(State(), i)
        decreases orderMax + 1 - i
      {
        i := i + 1;
      }
      if i > orderMax {
        return None;
      }
      var left := free[i][0];
      assert left in State().free[i];
      free := free[i := Remove(free[i], left)];
      if i != orderMax {
        PairInMap(State(), left, i);
        var _ := ToggleBit(left, i);
      }
      Split(left, i, order);
      r := Some(left);
    }

    /** Cuts block `left` of order `top` down to `order`, listing each right half. */
    method Split(left: nat, top: nat, order: nat)
      requires Shape(State()) && order <= top <= orderMax && Aligned(left, top) && left + Pow2(top) <= frames
      modifies this`free, this`bits
      ensures State() == SplitLoop(old(State()), left, top, order)
    {
      var i := top;
      ghost var goal := SplitLoop(State(), left, top, order);
      while i > order
        invariant order <= i <= orderMax
        invariant Shape(State()) && Aligned(left, i) && left + Pow2(i) <= frames
        invariant SplitLoop(State(), left, i, order) == goal
        decreases i
      {
        i := i - 1;
        SplitRound(State(), left, i, order);
        OneSplit(left, i);
      }
    }

    /** Lists the right half of order `i` and flips the bit of its pair. */
    method OneSplit(left: nat, i: nat)
      requires i < |free| && HasPair(State(), left + Pow2(i), i)
      modifies this`free, this`bits
      ensures State() == SplitOff(old(State()), left, i)
    {
      var right := left + Pow2(i);
      free := free[i := free[i] + [right]];
      var _ := ToggleBit(right, i);
    }
  }
}
