/** Unsigned machine words as natural numbers, and what their bits are.

    A word of width w is a number below Pow2(w).  Bit(x, p) is bit p of x, counted
    from the least significant end.  The operators below are the ones the kernel
    applies to words; each comes with a lemma saying what it does to the bits. */
module Bits {

  type Byte = x: nat | x < 256

  /** The range of size_t and uintptr_t on the 32-bit target. */
  const WORD_RANGE: nat := 0x1_0000_0000

  function Pow2(k: nat): (r: nat)
    ensures r > 0
  {
    if k == 0 then 1 else 2 * Pow2(k - 1)
  }

  function AllOnes(w: nat): nat {
    Pow2(w) - 1
  }

  predicate Bit(x: nat, p: nat) {
    if p == 0 then x % 2 == 1 else Bit(x / 2, p - 1)
  }

  function And(x: nat, y: nat): nat {
    if x == 0 then 0
    else (if x % 2 == 1 && y % 2 == 1 then 1 else 0) + 2 * And(x / 2, y / 2)
  }

  function Or(x: nat, y: nat): nat {
    if x == 0 then y
    else (if x % 2 == 1 || y % 2 == 1 then 1 else 0) + 2 * Or(x / 2, y / 2)
  }

  function Shr(x: nat, k: nat): nat {
    if k == 0 then x else Shr(x / 2, k - 1)
  }

  function Shl(x: nat, k: nat): nat
    decreases k
  {
    if k == 0 then x else Shl(2 * x, k - 1)
  }

  /** Truncation to w bits: the cast to a narrower unsigned type. */
  function Low(x: nat, w: nat): nat {
    if w == 0 then 0 else x % 2 + 2 * Low(x / 2, w - 1)
  }

  /** The complement of x as a word of width w. */
  function Not(x: nat, w: nat): nat {
    if w == 0 then 0 else 1 - x % 2 + 2 * Not(x / 2, w - 1)
  }

  /** __builtin_ctz: the position of the lowest set bit. */
  function TrailingZeros(x: nat): (r: nat)
    requires x != 0
    ensures Bit(x, r)
    ensures forall p | 0 <= p < r :: !Bit(x, p)
  {
    if x % 2 == 1 then 0 else
      var r := 1 + TrailingZeros(x / 2);
      assert forall p | 0 < p < r :: Bit(x, p) == Bit(x / 2, p - 1);
      r
  }

  /** __builtin_clz on a word of width w. */
  function LeadingZeros(x: nat, w: nat): (r: nat)
    requires 0 < x < Pow2(w)
    ensures r < w && Bit(x, w - 1 - r)
    ensures forall p | w - r <= p < w :: !Bit(x, p)
    decreases w
  {
    if x / 2 == 0 then
      ZeroHasNoBits(w - 1);
      assert forall p | 0 < p < w :: Bit(x, p) == Bit(0, p - 1);
      w - 1
    else
      var r := LeadingZeros(x / 2, w - 1);
      assert forall p | w - r <= p < w :: Bit(x, p) == Bit(x / 2, p - 1);
      r
  }

  /** power::highest_of_2: the highest power of two that is at most x. */
  function HighestPow2(x: nat): (r: nat)
    requires x != 0
    ensures r <= x < 2 * r
  {
    if x == 1 then 1 else 2 * HighestPow2(x / 2)
  }

  /** Subtraction as unsigned 32-bit arithmetic does it. */
  function Sub32(x: nat, y: nat): (r: nat) {
    (x - y) % WORD_RANGE
  }

  // ---- what the operators do to the bits ----

  lemma {:induction false} ZeroHasNoBits(w: nat)
    ensures forall p | 0 <= p <= w :: !Bit(0, p)
  {
    if w > 0 {
      ZeroHasNoBits(w - 1);
      assert forall p | 0 < p <= w :: Bit(0, p) == Bit(0, p - 1);
    }
  }

  lemma {:induction false} BitAboveWidth(x: nat, w: nat, p: nat)
    requires x < Pow2(w) && w <= p
    ensures !Bit(x, p)
  {
    if w == 0 {
      ZeroHasNoBits(p);
    } else {
      BitAboveWidth(x / 2, w - 1, p - 1);
    }
  }

  lemma {:induction false} AllOnesBits(w: nat, p: nat)
    requires p < w
    ensures Bit(AllOnes(w), p)
  {
    assert AllOnes(w) == 2 * AllOnes(w - 1) + 1;
    if p > 0 {
      AllOnesBits(w - 1, p - 1);
    }
  }

  /** A word with every bit set is the all-ones word. */
  lemma {:induction false} AllBitsSet(x: nat, w: nat)
    requires x < Pow2(w)
    requires forall p | 0 <= p < w :: Bit(x, p)
    ensures x == AllOnes(w)
  {
    if w > 0 {
      assert Bit(x, 0);
      forall p | 0 <= p < w - 1
        ensures Bit(x / 2, p)
      {
        assert Bit(x, p + 1);
      }
      AllBitsSet(x / 2, w - 1);
    }
  }

  /** A word is determined by its bits. */
  lemma {:induction false} SameBits(x: nat, y: nat, w: nat)
    requires x < Pow2(w) && y < Pow2(w)
    requires forall p: nat | p < w :: Bit(x, p) == Bit(y, p)
    ensures x == y
    decreases w
  {
    if w > 0 {
      assert Bit(x, 0) == Bit(y, 0);
      forall p: nat | p < w - 1
        ensures Bit(x / 2, p) == Bit(y / 2, p)
      {
        assert Bit(x, p + 1) == Bit(y, p + 1);
      }
      SameBits(x / 2, y / 2, w - 1);
    }
  }

  lemma {:induction false} AndBits(x: nat, y: nat, p: nat)
    ensures Bit(And(x, y), p) <==> Bit(x, p) && Bit(y, p)
  {
    if x == 0 {
      ZeroHasNoBits(p);
    } else if p > 0 {
      assert And(x, y) / 2 == And(x / 2, y / 2);
      AndBits(x / 2, y / 2, p - 1);
    }
  }

  lemma {:induction false} OrBits(x: nat, y: nat, p: nat)
    ensures Bit(Or(x, y), p) <==> Bit(x, p) || Bit(y, p)
  {
    if x == 0 {
      ZeroHasNoBits(p);
    } else if p > 0 {
      assert Or(x, y) / 2 == Or(x / 2, y / 2);
      OrBits(x / 2, y / 2, p - 1);
    }
  }

  lemma {:induction false} ShrBits(x: nat, k: nat, p: nat)
    ensures Bit(Shr(x, k), p) <==> Bit(x, p + k)
  {
    if k > 0 {
      ShrBits(x / 2, k - 1, p);
    }
  }

  lemma {:induction false} ShlBits(x: nat, k: nat, p: nat)
    ensures Bit(Shl(x, k), p) <==> k <= p && Bit(x, p - k)
    decreases k
  {
    if k > 0 {
      ShlBits(2 * x, k - 1, p);
    }
  }

  lemma {:induction false} LowBits(x: nat, w: nat, p: nat)
    ensures Bit(Low(x, w), p) <==> p < w && Bit(x, p)
  {
    if w == 0 {
      ZeroHasNoBits(p);
    } else if p > 0 {
      LowBits(x / 2, w - 1, p - 1);
    }
  }

  lemma {:induction false} NotBits(x: nat, w: nat, p: nat)
    ensures Bit(Not(x, w), p) <==> p < w && !Bit(x, p)
  {
    if w == 0 {
      ZeroHasNoBits(p);
    } else if p > 0 {
      NotBits(x / 2, w - 1, p - 1);
    }
  }

  /** Bits of a word put together from a low part of width w and a high part. */
  lemma {:induction false} ConcatBits(low: nat, high: nat, w: nat, p: nat)
    requires low < Pow2(w)
    ensures Bit(low + Pow2(w) * high, p) <==> if p < w then Bit(low, p) else Bit(high, p - w)
  {
    if w > 0 {
      var t := Pow2(w - 1) * high;
      assert Pow2(w) * high == 2 * t;
      assert (low + 2 * t) / 2 == low / 2 + t;
      if p > 0 {
        ConcatBits(low / 2, high, w - 1, p - 1);
      }
    }
  }

  lemma {:induction false} AndZero(x: nat)
    ensures And(x, 0) == 0
  {
    if x != 0 {
      AndZero(x / 2);
    }
  }

  lemma {:induction false} OrZero(x: nat)
    ensures Or(x, 0) == x
  {
    if x != 0 {
      OrZero(x / 2);
    }
  }

  // ---- ranges of the results ----

  lemma {:induction false} AndBound(x: nat, y: nat)
    ensures And(x, y) <= x
  {
    if x != 0 {
      AndBound(x / 2, y / 2);
    }
  }

  lemma {:induction false} OrBound(x: nat, y: nat, w: nat)
    requires x < Pow2(w) && y < Pow2(w)
    ensures Or(x, y) < Pow2(w)
  {
    if x != 0 {
      OrBound(x / 2, y / 2, w - 1);
    }
  }

  lemma {:induction false} LowBound(x: nat, w: nat)
    ensures Low(x, w) < Pow2(w)
  {
    if w > 0 {
      LowBound(x / 2, w - 1);
    }
  }

  lemma {:induction false} NotBound(x: nat, w: nat)
    ensures Not(x, w) < Pow2(w)
  {
    if w > 0 {
      NotBound(x / 2, w - 1);
    }
  }

  lemma Pow2Byte(k: nat)
    ensures Pow2(k + 8) == 256 * Pow2(k)
  {
    assert Pow2(k + 2) == 4 * Pow2(k);
    assert Pow2(k + 4) == 4 * Pow2(k + 2);
    assert Pow2(k + 6) == 4 * Pow2(k + 4);
  }

  lemma Pow2Values()
    ensures Pow2(5) == 32 && Pow2(8) == 256 && Pow2(16) == 0x1_0000 && Pow2(32) == WORD_RANGE
  {
    assert Pow2(5) == 32;
    assert Pow2(8) == 8 * Pow2(5);
    assert Pow2(12) == 16 * Pow2(8);
    assert Pow2(16) == 16 * Pow2(12);
    assert Pow2(20) == 16 * Pow2(16);
    assert Pow2(24) == 16 * Pow2(20);
    assert Pow2(28) == 16 * Pow2(24);
    assert Pow2(32) == 16 * Pow2(28);
  }
}
