/** A set of small indices held as the bits of a number, as the reassembly table does. */
module Bitset {
  import opened Machine

  /** Bit `i` of `r`: what `r & (1 << i) != 0` tests. */
  predicate HasBit(r: nat, i: nat) {
    if i == 0 then r % 2 == 1 else HasBit(r / 2, i - 1)
  }

  /** `r | (1 << i)`. */
  function SetBit(r: nat, i: nat): nat {
    if HasBit(r, i) then r else r + Pow2(i)
  }

  lemma {:induction false} HasSetBit(r: nat, i: nat, k: nat)
    ensures HasBit(SetBit(r, i), k) <==> (HasBit(r, k) || k == i)
    decreases i, k
  {
    if !HasBit(r, i) {
      if i == 0 {
        assert (r + 1) / 2 == r / 2;
      } else {
        assert (r + Pow2(i)) / 2 == r / 2 + Pow2(i - 1);
        assert (r + Pow2(i)) % 2 == r % 2;
        if k > 0 {
          HasSetBit(r / 2, i - 1, k - 1);
        }
      }
    }
  }

  lemma {:induction false} SetBitBound(r: nat, i: nat, n: nat)
    requires r < Pow2(n) && i < n
    ensures SetBit(r, i) < Pow2(n)
    decreases i
  {
    if !HasBit(r, i) && i > 0 {
      assert r / 2 < Pow2(n - 1) && Pow2(i) == 2 * Pow2(i - 1);
      SetBitBound(r / 2, i - 1, n - 1);
    }
  }

  lemma {:induction false} MaskHasBit(n: nat, i: nat)
    requires i < n
    ensures HasBit(Pow2(n) - 1, i)
    decreases n
  {
    assert (Pow2(n) - 1) / 2 == Pow2(n - 1) - 1;
    if i > 0 {
      MaskHasBit(n - 1, i - 1);
    }
  }

  lemma {:induction false} AllBitsMakeMask(r: nat, n: nat)
    requires r < Pow2(n) && forall i :: 0 <= i < n ==> HasBit(r, i)
    ensures r == Pow2(n) - 1
  {
    if n > 0 {
      assert HasBit(r, 0);
      forall i | 0 <= i < n - 1 ensures HasBit(r / 2, i) {
        assert HasBit(r, i + 1);
      }
      AllBitsMakeMask(r / 2, n - 1);
    }
  }

  ghost predicate AllBits(r: nat, n: nat) {
    forall i :: 0 <= i < n ==> HasBit(r, i)
  }

  /** All of the first `n` bits are set exactly in the mask `2^n - 1`. */
  lemma FullMask(r: nat, n: nat)
    requires r < Pow2(n)
    ensures r == Pow2(n) - 1 <==> AllBits(r, n)
  {
    if r == Pow2(n) - 1 {
      forall i | 0 <= i < n ensures HasBit(r, i) {
        MaskHasBit(n, i);
      }
    }
    if AllBits(r, n) {
      AllBitsMakeMask(r, n);
    }
  }

  lemma {:induction false} NoBitsInZero(i: nat)
    ensures !HasBit(0, i)
  {
    if i > 0 { NoBitsInZero(i - 1); }
  }
}
