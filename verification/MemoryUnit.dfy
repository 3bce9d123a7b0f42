/**
 The generated helper that makes memory available, `mem.require`, on its 64-bit
 integers: arguments are clamped, the cost is quadratic, and memory grows by whole
 32-byte words.
 */
module MemoryUnit {
  import opened Words
  import opened Opcodes
  import opened Evm

  /** Arguments above this value are clamped to it. */
  const INPUT_MAX := 0x2_0000_0000

  /** What a request does: poison marks an operation flagged as non-wrapping that wraps. */
  datatype Growth = Poison | Growth(cost: nat, size: nat)

  function Clamp(v: nat): (c: nat)
    ensures c <= INPUT_MAX && c <= v
    ensures v <= INPUT_MAX ==> c == v
    ensures v > INPUT_MAX ==> c == INPUT_MAX
  {
    if v <= INPUT_MAX then v else INPUT_MAX
  }

  /** Size in bytes a request asks for, rounded up to whole words. */
  function Requested(off: nat, len: nat): (n: nat)
    ensures n % 32 == 0
    ensures Clamp(off) + Clamp(len) <= n < Clamp(off) + Clamp(len) + 32
  {
    ((Clamp(off) + Clamp(len) + 31) / 32) * 32
  }

  function WordPrice(rev: Revision): nat {
    if rev >= AION then 1 else 3
  }

  predicate FitsU64(n: int) {
    0 <= n < TWO_64
  }

  /** Whether none of the multiplications below leaves 64 bits. */
  predicate NoWrap(rev: Revision, w: nat) {
    FitsU64(w * w) && FitsU64(w * WordPrice(rev))
  }

  function PriceOf(rev: Revision, w: nat): nat {
    (w * WordPrice(rev) + (w * w) / 512) % TWO_64
  }

  function Require(rev: Revision, cur: nat, off: nat, len: nat): Growth {
    if len == 0 then Growth(0, cur)
    else
      var req := Requested(off, len);
      if req <= cur then Growth(0, cur)
      else
        var w1 := req / 32;
        var w0 := cur / 32;
        if !NoWrap(rev, w1) || !NoWrap(rev, w0) || PriceOf(rev, w1) < PriceOf(rev, w0) then Poison
        else if off <= INPUT_MAX && len <= INPUT_MAX then Growth(PriceOf(rev, w1) - PriceOf(rev, w0), req)
        else Growth(GAS_MAX, req)
  }

  // ----- correctness while gas is bounded -----

  /** Gas with which no run can ever pay for 2^33 bytes of memory. */
  const GAS_BOUND := 0x8000_0000_0000

  /** The gas left plus the price of the memory bought so far is below the bound. */
  predicate Safe(rev: Revision, gas: nat, memory: seq<Byte>) {
    |memory| % 32 == 0 && MemoryFee(rev, Words32(memory)) + gas < GAS_BOUND
  }

  lemma LargeMemoryIsExpensive(rev: Revision, w: nat)
    requires w >= 0x1000_0000
    ensures MemoryFee(rev, w) >= GAS_BOUND
  {
    MulMonotone(0x1000_0000, w, 0x1000_0000);
    MulMonotone(0x1000_0000, w, w);
    assert w * w >= 0x100_0000_0000_0000;
  }

  lemma SafeMemoryIsSmall(rev: Revision, gas: nat, memory: seq<Byte>)
    requires Safe(rev, gas, memory)
    ensures |memory| < INPUT_MAX
  {
    if Words32(memory) >= 0x1000_0000 {
      LargeMemoryIsExpensive(rev, Words32(memory));
      assert false;
    }
  }

  /** Up to 2^30 words no intermediate value leaves 64 bits. */
  lemma SmallPrice(rev: Revision, w: nat)
    requires w <= 0x4000_0000
    ensures NoWrap(rev, w) && PriceOf(rev, w) == MemoryFee(rev, w)
  {
    MulMonotone(w, 0x4000_0000, w);
    MulMonotone(w, 0x4000_0000, 0x4000_0000);
    assert w * 0x4000_0000 == 0x4000_0000 * w;
    assert w * w <= 0x1000_0000_0000_0000;
    var fee := w * WordPrice(rev) + (w * w) / 512;
    assert fee == MemoryFee(rev, w);
    DivModUnique(fee, 0, TWO_64, fee);
  }

  /**
   With bounded gas the clamped 64-bit computation agrees with the unbounded rule for all
   128-bit arguments: it wants a cost that cannot be paid when the rule does, and
   otherwise the exact cost and the exact new size.
   */
  lemma RequireCorrect(rev: Revision, gas: nat, memory: seq<Byte>, off: Word, len: Word)
    requires Safe(rev, gas, memory)
    ensures
      var g := Require(rev, |memory|, off, len);
      var w' := ActiveWords(Words32(memory), off, len);
      && g.Growth?
      && (g.cost <= gas <==> ExpandCost(rev, memory, off, len) <= gas)
      && (g.cost <= gas ==> g.cost == ExpandCost(rev, memory, off, len) && g.size == 32 * w')
      && (g.cost <= gas && len > 0 ==> off <= INPUT_MAX && len <= INPUT_MAX)
  {
    SafeMemoryIsSmall(rev, gas, memory);
    var cur := |memory|;
    var w := Words32(memory);
    assert cur == 32 * w;
    if len > 0 {
      var req := Requested(off, len);
      if req > cur {
        SmallPrice(rev, req / 32);
        SmallPrice(rev, w);
        FeeMonotone(rev, w, req / 32);
      }
      if off <= INPUT_MAX && len <= INPUT_MAX {
        assert req == 32 * ((off + len + 31) / 32);
      } else {
        LargeMemoryIsExpensive(rev, ActiveWords(w, off, len));
      }
    }
  }

  /** Paying for growth keeps gas and memory within the bound. */
  lemma SafeAfterGrowth(rev: Revision, gas: nat, memory: seq<Byte>, off: nat, len: nat)
    requires Safe(rev, gas, memory) && ExpandCost(rev, memory, off, len) <= gas
    ensures Safe(rev, gas - ExpandCost(rev, memory, off, len), Expand(memory, off, len))
  {
    assert |Expand(memory, off, len)| == 32 * ActiveWords(Words32(memory), off, len);
  }

  // ----- exactly when a request is right -----

  /** The 64-bit rule does what the unbounded rule does. */
  predicate Agrees(rev: Revision, gas: nat, memory: seq<Byte>, off: Word, len: Word) {
    var g := Require(rev, |memory|, off, len);
    var cost := ExpandCost(rev, memory, off, len);
    && g.Growth? && (g.cost <= gas <==> cost <= gas)
    && (g.cost <= gas ==> g.cost == cost && g.size == |Expand(memory, off, len)|)
  }

  /**
   Nothing is asked for, or it is there already, or no argument is clamped, or growing is
   refused by both rules.
   */
  predicate Harmless(rev: Revision, gas: nat, memory: seq<Byte>, off: Word, len: Word) {
    || len == 0 || off + len <= |memory| || (off <= INPUT_MAX && len <= INPUT_MAX)
    || (Requested(off, len) > |memory| && gas < GAS_MAX && ExpandCost(rev, memory, off, len) > gas)
  }

  lemma FeeGrows(rev: Revision, w: nat, w': nat)
    requires w < w'
    ensures MemoryFee(rev, w) < MemoryFee(rev, w')
  {
    MulMonotone(w, w', w);
    MulMonotone(w, w', w');
    assert w * w' == w' * w;
    assert (w * w) / 512 <= (w' * w') / 512;
  }

  /** Whatever the gas, for memory of up to 2^35 bytes, a request is right exactly if it is harmless. */
  lemma AgreesExactly(rev: Revision, gas: nat, memory: seq<Byte>, off: Word, len: Word)
    requires |memory| % 32 == 0 && |memory| <= 0x8_0000_0000 && gas <= GAS_MAX
    ensures Agrees(rev, gas, memory, off, len) <==> Harmless(rev, gas, memory, off, len)
  {
    var w := Words32(memory);
    assert |memory| == 32 * w;
    if len > 0 && off + len > |memory| {
      var w' := ActiveWords(w, off, len);
      FeeGrows(rev, w, w');
      if off <= INPUT_MAX && len <= INPUT_MAX {
        UnclampedAgrees(rev, gas, memory, off, len);
      } else {
        ClampedAgrees(rev, gas, memory, off, len);
      }
    }
  }

  lemma UnclampedAgrees(rev: Revision, gas: nat, memory: seq<Byte>, off: Word, len: Word)
    requires |memory| % 32 == 0 && |memory| <= 0x8_0000_0000
    requires off <= INPUT_MAX && 0 < len <= INPUT_MAX && off + len > |memory|
    ensures Agrees(rev, gas, memory, off, len)
  {
    var w := Words32(memory);
    var req := Requested(off, len);
    assert |memory| == 32 * w && req == 32 * ((off + len + 31) / 32);
    SmallPrice(rev, req / 32);
    SmallPrice(rev, w);
    FeeMonotone(rev, w, req / 32);
  }

  lemma ClampedAgrees(rev: Revision, gas: nat, memory: seq<Byte>, off: Word, len: Word)
    requires |memory| % 32 == 0 && |memory| <= 0x8_0000_0000 && gas <= GAS_MAX
    requires len > 0 && (off > INPUT_MAX || len > INPUT_MAX) && off + len > |memory|
    requires ExpandCost(rev, memory, off, len) > 0
    ensures Agrees(rev, gas, memory, off, len)
            <==> Requested(off, len) > |memory| && gas < GAS_MAX && ExpandCost(rev, memory, off, len) > gas
  {
    var w := Words32(memory);
    var req := Requested(off, len);
    if req > |memory| {
      SmallPrice(rev, req / 32);
      SmallPrice(rev, w);
      FeeMonotone(rev, w, req / 32);
      assert Require(rev, |memory|, off, len) == Growth(GAS_MAX, req);
      if ExpandCost(rev, memory, off, len) == GAS_MAX {
        NotThatCostly(rev, w, ActiveWords(w, off, len), req);
      }
    }
  }

  /** Memory that costs as much as there can be gas is larger than any request can ask for. */
  lemma NotThatCostly(rev: Revision, w: nat, w': nat, req: nat)
    requires w <= w' && req <= 2 * INPUT_MAX + 31 && MemoryFee(rev, w') - MemoryFee(rev, w) == GAS_MAX
    ensures req != 32 * w'
  {
    if req == 32 * w' {
      SmallFee(rev, w');
      assert false;
    }
  }

  lemma SmallFee(rev: Revision, w: nat)
    requires w <= 0x4000_0000
    ensures MemoryFee(rev, w) < GAS_MAX
  {
    MulMonotone(w, 0x4000_0000, w);
    MulMonotone(w, 0x4000_0000, 0x4000_0000);
    assert w * 0x4000_0000 == 0x4000_0000 * w;
    assert w * w <= 0x1000_0000_0000_0000;
  }

  /** Beyond the arguments of any request that is right. */
  const REACH := 0x10_0000_0000

  /** A request that is right, on memory that is not too large. */
  predicate Tame(rev: Revision, gas: nat, memory: seq<Byte>, off: Word, len: Word) {
    |memory| % 32 == 0 && |memory| <= 0x8_0000_0000 && Harmless(rev, gas, memory, off, len)
  }

  lemma TameRequest(rev: Revision, gas: nat, memory: seq<Byte>, off: Word, len: Word)
    requires Tame(rev, gas, memory, off, len) && gas <= GAS_MAX
    ensures Agrees(rev, gas, memory, off, len)
    ensures ExpandCost(rev, memory, off, len) <= gas && len > 0 ==> off <= REACH && len <= REACH
  {
    AgreesExactly(rev, gas, memory, off, len);
  }

  /** Within the gas bound every request is tame. */
  lemma SafeIsTame(rev: Revision, gas: nat, cost: nat, memory: seq<Byte>, off: Word, len: Word)
    requires Safe(rev, gas, memory) && cost <= gas
    ensures Tame(rev, gas - cost, memory, off, len)
  {
    SafeMemoryIsSmall(rev, gas, memory);
    if len > 0 && !(off <= INPUT_MAX && len <= INPUT_MAX) {
      LargeMemoryIsExpensive(rev, ActiveWords(Words32(memory), off, len));
    }
  }
}
