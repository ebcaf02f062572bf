/**
  A 64-bit counter kept in two 32-bit registers, as the counter snippets
  write it: `{hi, lo} = {hi, lo} + d`. The low half takes `lo + d` and the
  high half takes the carry out of the low half.
 */
module WideCounter {

  /** The value of the register pair `{hi, lo}` as one 64-bit word. */
  function Wide(hi: bv32, lo: bv32): bv64
  {
    ((hi as bv64) << 32) | (lo as bv64)
  }

  /** The carry out of the low half when `d` is added to it. */
  function Carry(lo: bv32, d: bv32): bv32
  {
    if lo + d < lo then 1 else 0
  }

  /** The low half of `{hi, lo} + d`. */
  function AddLow(lo: bv32, d: bv32): bv32 { lo + d }

  /** The high half of `{hi, lo} + d`. */
  function AddHigh(hi: bv32, lo: bv32, d: bv32): bv32 { hi + Carry(lo, d) }

  /**
    The two halves together are the 64-bit addition `{hi, lo} + d`, for both
    increments a counter can take; in particular the pair wraps from all ones
    to zero.
   */
  lemma CarryIsWideAdd(hi: bv32, lo: bv32)
    ensures Wide(AddHigh(hi, lo, 0), AddLow(lo, 0)) == Wide(hi, lo)
    ensures Wide(AddHigh(hi, lo, 1), AddLow(lo, 1)) == Wide(hi, lo) + 1
  {
    assert AddHigh(hi, lo, 0) == hi && AddLow(lo, 0) == lo;
    if lo == 0xFFFF_FFFF {
      IncrementWithCarry(hi);
    } else {
      IncrementWithoutCarry(hi, lo);
    }
  }

  lemma IncrementWithoutCarry(hi: bv32, lo: bv32)
    requires lo != 0xFFFF_FFFF
    ensures Wide(AddHigh(hi, lo, 1), AddLow(lo, 1)) == Wide(hi, lo) + 1
  {
    assert Carry(lo, 1) == 0;
    LowStep(hi, lo);
  }

  lemma LowStep(hi: bv32, lo: bv32)
    requires lo != 0xFFFF_FFFF
    ensures Wide(hi, lo + 1) == Wide(hi, lo) + 1
  {
  }

  lemma IncrementWithCarry(hi: bv32)
    ensures Wide(AddHigh(hi, 0xFFFF_FFFF, 1), AddLow(0xFFFF_FFFF, 1)) == Wide(hi, 0xFFFF_FFFF) + 1
  {
    assert Carry(0xFFFF_FFFF, 1) == 1;
    HighStep(hi);
  }

  lemma HighStep(hi: bv32)
    ensures Wide(hi + 1, 0) == Wide(hi, 0xFFFF_FFFF) + 1
  {
  }

}
