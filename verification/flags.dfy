/** The two bmask bits the corrector reserves for its own outcomes
    (ngmixer/imageio/extractor_corrector.py, lines 14-16). They sit above
    every bit the upstream survey masks use. */
module MaskFlags {

  /** One bmask pixel, as the set of the positions of its one bits. MEDS
      stores bmask as a 32-bit integer; on that integer `b != 0`, `b |= 2**k`
      and `b = 0` are, on this set, `b != {}`, `b + {k}` and `{}`. */
  type Bits = set<nat>

  /** Width of a bmask pixel. */
  const MaskWidth: nat := 32

  /** NBRS_MASKED = 2**14: set where a neighbour left the pixel unaccounted for. */
  const NbrsMasked: nat := 14

  /** CEN_MODEL_MISSING = 2**13: set where a bad pixel could not be repaired
      for lack of a central model. */
  const CenModelMissing: nat := 13

  function Pow2(k: nat): (p: nat)
    ensures p >= 1
  {
    if k == 0 then 1 else 2 * Pow2(k - 1)
  }

  /** The integer a bmask pixel holding only bit `k` stores. */
  function FlagValue(k: nat): nat
  {
    Pow2(k)
  }

  /** The integer value of a bmask pixel whose one bits are those of `b`
      below position `n`. */
  function ValueBelow(b: Bits, n: nat): (v: nat)
    ensures v < Pow2(n)
  {
    if n == 0 then 0 else ValueBelow(b, n - 1) + (if n - 1 in b then Pow2(n - 1) else 0)
  }

  /** `b` with bit `k` set when `on` holds: how `bmask[w] |= 2**k` acts on
      one pixel. */
  function SetIf(b: Bits, on: bool, k: nat): Bits
  {
    if on then b + {k} else b
  }

  /** The two sentinels are the integers 2**14 and 2**13: distinct single
      bits of a 32-bit mask, so OR-ing one in never sets or clears the other. */
  lemma {:induction false} SentinelValues()
    ensures FlagValue(NbrsMasked) == 16384 && FlagValue(CenModelMissing) == 8192
    ensures NbrsMasked != CenModelMissing
    ensures NbrsMasked < MaskWidth && CenModelMissing < MaskWidth
    ensures ValueBelow({NbrsMasked}, MaskWidth) == 16384
    ensures ValueBelow({CenModelMissing}, MaskWidth) == 8192
  {
    assert Pow2(13) == 8192 by {
      assert Pow2(0) == 1 && Pow2(1) == 2 && Pow2(2) == 4 && Pow2(3) == 8;
      assert Pow2(4) == 16 && Pow2(5) == 32 && Pow2(6) == 64 && Pow2(7) == 128;
      assert Pow2(8) == 256 && Pow2(9) == 512 && Pow2(10) == 1024;
      assert Pow2(11) == 2048 && Pow2(12) == 4096;
    }
    assert Pow2(14) == 16384;
    SingleBitValue(NbrsMasked, MaskWidth);
    SingleBitValue(CenModelMissing, MaskWidth);
  }

  /** A mask holding only bit `k` stores the integer 2**k. */
  lemma {:induction false} SingleBitValue(k: nat, n: nat)
    requires k < n
    ensures ValueBelow({k}, n) == Pow2(k)
  {
    if n - 1 == k {
      NoBitsBelow({k}, k);
    } else {
      SingleBitValue(k, n - 1);
    }
  }

  /** A mask with no bit below `n` stores 0 below `n`. */
  lemma {:induction false} NoBitsBelow(b: Bits, n: nat)
    requires forall j :: j in b ==> j >= n
    ensures ValueBelow(b, n) == 0
  {
    if n > 0 {
      NoBitsBelow(b, n - 1);
    }
  }
}
