/** 32-bit words and the bit operations the block bitmaps use. */
module Words {

  type Word = w: int | 0 <= w < 0x1_0000_0000

  const ALL_ONES: Word := 0xFFFF_FFFF

  function Pow2(n: nat): (p: nat)
    ensures p > 0
  {
    if n == 0 then 1 else 2 * Pow2(n - 1)
  }

  /** `w & (1 << k)` is not zero. */
  predicate Bit(w: nat, k: nat) {
    if k == 0 then w % 2 == 1 else Bit(w / 2, k - 1)
  }

  /** `w | (1 << k)` */
  function SetBit(w: nat, k: nat): nat {
    if k == 0 then w / 2 * 2 + 1 else 2 * SetBit(w / 2, k - 1) + w % 2
  }

  /** `w & ~(1 << k)` */
  function ClearBit(w: nat, k: nat): nat {
    if k == 0 then w / 2 * 2 else 2 * ClearBit(w / 2, k - 1) + w % 2
  }

  lemma {:induction false} SetBitBounded(w: nat, k: nat, n: nat)
    requires k < n && w < Pow2(n)
    ensures SetBit(w, k) < Pow2(n)
  {
    if k > 0 {
      SetBitBounded(w / 2, k - 1, n - 1);
    }
  }

  lemma {:induction false} ClearBitBounded(w: nat, k: nat)
    ensures ClearBit(w, k) <= w
  {
    if k > 0 {
      ClearBitBounded(w / 2, k - 1);
    }
  }

  lemma {:induction false} BitOfSetBit(w: nat, k: nat, j: nat)
    ensures Bit(SetBit(w, k), j) == (j == k || Bit(w, j))
  {
    if k > 0 {
      assert SetBit(w, k) / 2 == SetBit(w / 2, k - 1);
    } else {
      assert SetBit(w, k) / 2 == w / 2;
    }
    if k > 0 && j > 0 {
      BitOfSetBit(w / 2, k - 1, j - 1);
    }
  }

  lemma {:induction false} BitOfClearBit(w: nat, k: nat, j: nat)
    ensures Bit(ClearBit(w, k), j) == (j != k && Bit(w, j))
  {
    if k > 0 {
      assert ClearBit(w, k) / 2 == ClearBit(w / 2, k - 1);
    } else {
      assert ClearBit(w, k) / 2 == w / 2;
    }
    if k > 0 && j > 0 {
      BitOfClearBit(w / 2, k - 1, j - 1);
    }
  }

  /** A word is determined by its bits. */
  lemma {:induction false} SameBits(v: nat, w: nat, n: nat)
    requires v < Pow2(n) && w < Pow2(n)
    requires forall k :: 0 <= k < n ==> Bit(v, k) == Bit(w, k)
    ensures v == w
  {
    if n > 0 {
      forall k | 0 <= k < n - 1
        ensures Bit(v / 2, k) == Bit(w / 2, k)
      {
        assert Bit(v, k + 1) == Bit(w, k + 1);
      }
      SameBits(v / 2, w / 2, n - 1);
      assert Bit(v, 0) == Bit(w, 0);
    }
  }

  lemma {:induction false} OnesHaveAllBits(n: nat, k: nat)
    requires k < n
    ensures Bit(Pow2(n) - 1, k)
  {
    if k > 0 {
      assert (Pow2(n) - 1) / 2 == Pow2(n - 1) - 1;
      OnesHaveAllBits(n - 1, k - 1);
    }
  }

  lemma WordWidth()
    ensures Pow2(32) == 0x1_0000_0000
  {
    assert Pow2(8) == 256;
    assert Pow2(16) == 256 * Pow2(8);
    assert Pow2(24) == 256 * Pow2(16);
    assert Pow2(32) == 256 * Pow2(24);
  }

  ghost predicate NoZeroBit(w: Word) {
    forall k :: 0 <= k < 32 ==> Bit(w, k)
  }

  /** The word skipped by the bitmap scan is exactly the word with no zero bit. */
  lemma FullWord(w: Word)
    ensures w == ALL_ONES <==> NoZeroBit(w)
  {
    WordWidth();
    var ones := Pow2(32) - 1;
    forall k | 0 <= k < 32
      ensures Bit(ones, k)
    {
      OnesHaveAllBits(32, k);
    }
    if NoZeroBit(w) {
      SameBits(w, ones, 32);
    }
  }

  function Min(a: nat, b: nat): nat {
    if a < b then a else b
  }
}
