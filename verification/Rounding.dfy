/** The allocator's rounding, with the bit operations and the 64-bit width of the program. */
module Rounding {
  import opened Bits
  import opened AllocatorSpec
  import opened Sums64

  /** The rounding of the program for the alignment 2^k: a sum, and a mask for the low k bits. */
  function MaskedSize(size: nat, k: nat): nat
    requires k <= 64
  {
    Pow2Mono(k, 64);
    And((size + Pow2(k) - 1) % Pow2(64), Pow2(64) - Pow2(k))
  }

  /** The mask divides and multiplies. */
  lemma MaskedIsAligned(size: nat, k: nat)
    requires k <= 64
    ensures MaskedSize(size, k) == AlignSize(size, Pow2(k))
  {
    hide Pow2, And;
    Pow2Mono(k, 64);
    Width();
    AndHighW((size + Pow2(k) - 1) % Pow2(64), k, 64);
  }

  lemma Width()
    ensures Pow2(64) == U64
  {
    hide Pow2;
    Byte();
    PowSum(32, 32);
    PowSum(16, 16);
    PowSum(8, 8);
  }

  lemma Byte()
    ensures Pow2(8) == 256
  {
    assert Pow2(4) == 16;
  }

  /** The rounding yields the smallest multiple that is large enough exactly when its sum fits 64 bits; beyond that it yields zero. */
  lemma AlignSizeIff(size: nat, k: nat)
    requires size < U64 && k <= 64
    ensures MaskedSize(size, k) == AlignUp(size, Pow2(k)) <==> size + Pow2(k) - 1 < U64
    ensures U64 <= size + Pow2(k) - 1 ==> MaskedSize(size, k) == 0
  {
    hide Pow2, And, AlignUp, MaskedSize;
    MaskedIsAligned(size, k);
    Width();
    Pow2Mono(k, 64);
    var p := Pow2(k);
    var sum := size + p - 1;
    if sum < U64 {
      AlignSizeIs(size, p);
    } else {
      WrappedSum(size, p - 1);
      DivModUnique(sum - U64, p, 0, sum - U64);
    }
  }
}
