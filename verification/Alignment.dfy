/** Address alignment by masking, as the search sweeps and the bulk fills do it. */
module Alignment {
  import opened Arithmetic
  import opened Bits

  /** Clearing the low bits of an address with the complement of a power of two minus one. */
  function AlignDown(address: nat, size: nat): nat
    requires 0 < size < WORD_RANGE
  {
    And(address, WORD_RANGE - size)
  }

  function AlignUp(address: nat, size: nat): nat
    requires 0 < size < WORD_RANGE
  {
    AlignDown(address + (size - 1), size)
  }

  predicate Aligned(address: nat, size: nat)
    requires size > 0
  {
    address % size == 0
  }

  lemma {:induction false} AndKeeps(x: nat, n: nat)
    requires x < Pow2(n)
    ensures And(x, Pow2(n) - 1) == x
  {
    if x != 0 {
      assert Pow2(n) == 2 * Pow2(n - 1);
      AndKeeps(x / 2, n - 1);
    }
  }

  lemma DoubleMod(x: nat, m: nat)
    requires m > 0
    ensures x % (2 * m) == 2 * (x / 2 % m) + x % 2
  {
    var q, r := x / 2 / m, x / 2 % m;
    assert x / 2 == q * m + r;
    var t := 2 * r + x % 2;
    assert x == (2 * m) * q + t by {
      assert q * m * 2 == (2 * m) * q;
    }
    assert 0 <= t < 2 * m;
    ModUnique(x, 2 * m, q, t);
  }

  lemma {:induction false} AndMask(x: nat, n: nat, k: nat)
    requires x < Pow2(n) && k <= n
    ensures Pow2(k) <= Pow2(n)
    ensures And(x, Pow2(n) - Pow2(k)) == x - x % Pow2(k)
  {
    if k == 0 {
      AndKeeps(x, n);
    } else {
      var p, m := Pow2(n - 1), Pow2(k - 1);
      assert Pow2(n) == 2 * p && Pow2(k) == 2 * m;
      AndMask(x / 2, n - 1, k - 1);
      assert (2 * p - 2 * m) / 2 == p - m && (2 * p - 2 * m) % 2 == 0;
      DoubleMod(x, Pow2(k - 1));
    }
  }

  /** Masking rounds down to a multiple, for the four sizes the kernel aligns to. */
  lemma AlignDownIs(address: nat, size: nat)
    requires address < WORD_RANGE
    requires size in {2, 4, 16, 32}
    ensures var r := AlignDown(address, size);
            r % size == 0 && r <= address < r + size && (address % size == 0 ==> r == address)
  {
    Mask(address, size);
    var q := address / size;
    assert address == size * q + address % size;
    ModUnique(size * q, size, q, 0);
  }

  lemma Mask(address: nat, size: nat)
    requires address < WORD_RANGE
    requires size in {2, 4, 16, 32}
    ensures AlignDown(address, size) == address - address % size
  {
    Pow2Values();
    assert Pow2(1) == 2 && Pow2(2) == 4 && Pow2(4) == 16;
    AndMask(address, 32, if size == 2 then 1 else if size == 4 then 2 else if size == 16 then 4 else 5);
  }

  /** Rounding up reaches the least multiple that is not below the address. */
  lemma AlignUpIs(address: nat, size: nat)
    requires address + size <= WORD_RANGE
    requires size in {2, 4, 16, 32}
    ensures var r := AlignUp(address, size);
            r % size == 0 && address <= r < address + size && (address % size == 0 ==> r == address)
  {
    AlignDownIs(address + (size - 1), size);
    if address % size == 0 {
      var q := address / size;
      assert address + (size - 1) == size * q + (size - 1);
      ModUnique(address + (size - 1), size, q, size - 1);
      Mask(address + (size - 1), size);
    }
  }

  /** The bound of a peeling stage: the next aligned address, unless the range ends before it. */
  lemma PeelBound(begin: nat, end: nat, size: nat)
    requires begin <= end && end + size <= WORD_RANGE
    requires size in {2, 4, 16, 32}
    ensures var bound := Min(AlignUp(begin, size), AlignDown(end, size));
            && bound % size == 0 && bound <= end
            && (bound <= begin ==> begin % size == 0 || AlignDown(end, size) <= begin)
    ensures AlignDown(end, size) % size == 0 && AlignDown(end, size) <= end < AlignDown(end, size) + size
  {
    AlignUpIs(begin, size);
    AlignDownIs(end, size);
  }

  /** From one aligned address to the next. */
  lemma NextAligned(a: nat, end: nat, w: nat)
    requires w > 0 && Aligned(a, w) && Aligned(end, w)
    ensures Aligned(a + w, w)
    ensures a < end ==> a + w <= end
  {
    var p, q := a / w, end / w;
    assert a == w * p && end == w * q;
    assert a + w == w * (p + 1);
    ModUnique(a + w, w, p + 1, 0);
    if q < p {
      MulGap(w, q, p);
    } else if p < q {
      if p + 1 < q {
        MulGap(w, p + 1, q);
      }
    }
  }

  /** An address aligned to a size is aligned to every smaller one. */
  lemma CoarserAligned(a: nat, size: nat, w: nat)
    requires w in {2, 4, 16, 32} && size in {2, 4, 16, 32} && w <= size
    requires Aligned(a, size)
    ensures Aligned(a, w)
  {
    MultipleAligned(a, w, if w == size then 1 else if size == 4 then 2
                          else if size == 16 then (if w == 2 then 8 else 4)
                          else if w == 2 then 16 else if w == 4 then 8 else 2);
  }

  lemma MultipleAligned(a: nat, w: nat, c: nat)
    requires w > 0 && c > 0 && Aligned(a, w * c)
    ensures Aligned(a, w)
  {
    var q := a / (w * c);
    assert a == w * c * q;
    assert a == w * (c * q);
    ModUnique(a, w, c * q, 0);
  }
}
