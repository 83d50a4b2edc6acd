/** Marsaglia's 32-bit xorshift generator with shifts 13, 17 and 5. Shifts
    on `bv32` discard the bits shifted out, as on C's `uint32_t`. */
module Xorshift32 {

  /** The three xor-shift steps applied to the state `x`. */
  function Xorshift32(x: bv32): bv32
  {
    StepLeft5(StepRight17(StepLeft13(x)))
  }

  /** `x ^= x << 13` */
  function StepLeft13(x: bv32): bv32 { x ^ (x << 13) }

  /** `x ^= x >> 17` */
  function StepRight17(x: bv32): bv32 { x ^ (x >> 17) }

  /** `x ^= x << 5` */
  function StepLeft5(x: bv32): bv32 { x ^ (x << 5) }

  /** Undoes `StepLeft13`: the bits shifted in twice cancel. */
  function UndoLeft13(y: bv32): bv32
  {
    y ^ (y << 13) ^ (y << 26)
  }

  /** Undoes `StepRight17`. */
  function UndoRight17(y: bv32): bv32
  {
    y ^ (y >> 17)
  }

  /** Undoes `StepLeft5`. */
  function UndoLeft5(y: bv32): bv32
  {
    y ^ (y << 5) ^ (y << 10) ^ (y << 15) ^ (y << 20) ^ (y << 25) ^ (y << 30)
  }

  /** `UndoLeft13` recovers the input of `StepLeft13`. */
  lemma UndoLeft13Recovers(x: bv32)
    ensures UndoLeft13(StepLeft13(x)) == x
  {
    assert StepLeft13(x) == x ^ (x << 13);
    assert UndoLeft13(x ^ (x << 13)) == (x ^ (x << 13)) ^ ((x ^ (x << 13)) << 13) ^ ((x ^ (x << 13)) << 26);
    assert (x ^ (x << 13)) ^ ((x ^ (x << 13)) << 13) ^ ((x ^ (x << 13)) << 26) == x;
  }

  /** `UndoRight17` recovers the input of `StepRight17`. */
  lemma UndoRight17Recovers(x: bv32)
    ensures UndoRight17(StepRight17(x)) == x
  {
    assert StepRight17(x) == x ^ (x >> 17);
    assert UndoRight17(x ^ (x >> 17)) == (x ^ (x >> 17)) ^ ((x ^ (x >> 17)) >> 17);
    assert (x ^ (x >> 17)) ^ ((x ^ (x >> 17)) >> 17) == x;
  }

  /** `UndoLeft5` recovers the input of `StepLeft5`. */
  lemma UndoLeft5Recovers(x: bv32)
    ensures UndoLeft5(StepLeft5(x)) == x
  {
    assert StepLeft5(x) == x ^ (x << 5);
    assert UndoLeft5(x ^ (x << 5)) ==
      (x ^ (x << 5)) ^ ((x ^ (x << 5)) << 5) ^ ((x ^ (x << 5)) << 10) ^ ((x ^ (x << 5)) << 15) ^
      ((x ^ (x << 5)) << 20) ^ ((x ^ (x << 5)) << 25) ^ ((x ^ (x << 5)) << 30);
    assert (x ^ (x << 5)) ^ ((x ^ (x << 5)) << 5) ^ ((x ^ (x << 5)) << 10) ^ ((x ^ (x << 5)) << 15) ^
      ((x ^ (x << 5)) << 20) ^ ((x ^ (x << 5)) << 25) ^ ((x ^ (x << 5)) << 30) == x;
  }

  /** The generator step undone, step by step in reverse order. */
  function Unxorshift32(y: bv32): bv32
  {
    UndoLeft13(UndoRight17(UndoLeft5(y)))
  }

  /** `Unxorshift32` recovers the state before a generator step, so the step
      is a permutation of the 32-bit states. */
  lemma UnxorshiftRecovers(x: bv32)
    ensures Unxorshift32(Xorshift32(x)) == x
  {
    UndoLeft5Recovers(StepRight17(StepLeft13(x)));
    UndoRight17Recovers(StepLeft13(x));
    UndoLeft13Recovers(x);
  }

  /** The generator step is injective. */
  lemma Xorshift32Injective(x: bv32, y: bv32)
    requires Xorshift32(x) == Xorshift32(y)
    ensures x == y
  {
    UnxorshiftRecovers(x);
    UnxorshiftRecovers(y);
  }

  /** Zero is a fixed point, which is why the state must start non-zero. */
  lemma ZeroIsFixed()
    ensures Xorshift32(0) == 0
  {
  }

  /** From state 1 the first output is 270369. */
  lemma FirstOutputFromOne()
    ensures Xorshift32(1) == 270369
  {
  }

  /** A non-zero state never becomes zero, so a generator seeded non-zero
      stays non-zero forever. */
  lemma NonZeroStaysNonZero(x: bv32)
    requires x != 0
    ensures Xorshift32(x) != 0
  {
    ZeroIsFixed();
    if Xorshift32(x) == 0 {
      Xorshift32Injective(x, 0);
    }
  }

  /** The in-place update `x ^= x << 13` is `StepLeft13`; a helper that
      lets `Next` name each of its three updates. */
  lemma IsStepLeft13(x: bv32, y: bv32)
    requires y == x ^ (x << 13)
    ensures y == StepLeft13(x)
  {
  }

  /** The in-place update `x ^= x >> 17` is `StepRight17`; a helper for `Next`. */
  lemma IsStepRight17(x: bv32, y: bv32)
    requires y == x ^ (x >> 17)
    ensures y == StepRight17(x)
  {
  }

  /** The in-place update `x ^= x << 5` is `StepLeft5`; a helper for `Next`. */
  lemma IsStepLeft5(x: bv32, y: bv32)
    requires y == x ^ (x << 5)
    ensures y == StepLeft5(x)
  {
  }

  /** The generator state `struct xorshift32_state`. */
  class State {
    var a: bv32

    /** `xorshift32`: the state advances by one step and the new state is
        returned; a non-zero state stays non-zero. */
    method Next() returns (r: bv32)
      modifies this
      ensures r == Xorshift32(old(a)) && a == r
      ensures old(a) != 0 ==> a != 0
    {
      var x := a;
      ghost var x0 := x;
      x := x ^ (x << 13);
      ghost var x1 := x;
      IsStepLeft13(x0, x1);
      x := x ^ (x >> 17);
      ghost var x2 := x;
      IsStepRight17(x1, x2);
      x := x ^ (x << 5);
      IsStepLeft5(x2, x);
      if x0 != 0 {
        NonZeroStaysNonZero(x0);
      }
      a := x;
      r := x;
    }
  }
}
