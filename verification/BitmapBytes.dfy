/** Single bitmap bytes: the masks the allocator builds, and what changing bytes does to frames. */
module BitmapBytes {
  import opened Alignment
  import opened Allocator
  import opened Bits
  import opened Frames
  import opened Search
  import opened Sequences

  /** The mask of the frames at or above pos in a byte: uint8_t(0xFF << pos). */
  function FrontMask(pos: nat): Byte
    requires pos < 8
  {
    Narrow(Shl(0xFF, pos))
  }

  /** The mask of the frames up to pos in a byte: uint8_t(0xFF >> (7 - pos)). */
  function EndMask(pos: nat): Byte
    requires pos < 8
  {
    Narrow(Shr(0xFF, 7 - pos))
  }

  /** The mask of the frames below pos in a byte: uint8_t(0xFF >> (8 - pos)). */
  function BelowMask(pos: nat): Byte
    requires pos < 8
  {
    Narrow(Shr(0xFF, 8 - pos))
  }

  /** The mask of the frames above pos in a byte: uint8_t(0xFF << (pos + 1)). */
  function AboveMask(pos: nat): Byte
    requires pos < 8
  {
    Narrow(Shl(0xFF, pos + 1))
  }

  /** The cast to uint8_t. */
  function Narrow(x: nat): Byte {
    LowBound(x, 8);
    Pow2Values();
    Low(x, 8)
  }

  function OrByte(x: Byte, y: Byte): Byte {
    OrBound(x, y, 8);
    Pow2Values();
    Or(x, y)
  }

  function AndByte(x: Byte, y: Byte): Byte {
    AndBound(x, y);
    And(x, y)
  }

  lemma OrByteBits(x: Byte, y: Byte, p: nat)
    ensures Bit(OrByte(x, y), p) <==> Bit(x, p) || Bit(y, p)
  {
    OrBits(x, y, p);
  }

  lemma AndByteBits(x: Byte, y: Byte, p: nat)
    ensures Bit(AndByte(x, y), p) <==> Bit(x, p) && Bit(y, p)
  {
    AndBits(x, y, p);
  }

  lemma ByteOnes(p: nat)
    ensures Bit(0xFF, p) <==> p < 8
  {
    Pow2Values();
    if p < 8 {
      AllOnesBits(8, p);
    } else {
      BitAboveWidth(0xFF, 8, p);
    }
  }

  lemma MaskBits(pos: nat, p: nat)
    requires pos < 8 && p < 8
    ensures Bit(FrontMask(pos), p) <==> pos <= p
    ensures Bit(EndMask(pos), p) <==> p <= pos
    ensures Bit(BelowMask(pos), p) <==> p < pos
    ensures Bit(AboveMask(pos), p) <==> pos < p
  {
    hide Bit, Low, Shl, Shr, Pow2;
    LowBits(Shl(0xFF, pos), 8, p);
    ShlBits(0xFF, pos, p);
    LowBits(Shr(0xFF, 7 - pos), 8, p);
    ShrBits(0xFF, 7 - pos, p);
    LowBits(Shr(0xFF, 8 - pos), 8, p);
    ShrBits(0xFF, 8 - pos, p);
    LowBits(Shl(0xFF, pos + 1), 8, p);
    ShlBits(0xFF, pos + 1, p);
    if pos <= p { ByteOnes(p - pos); }
    if pos < p { ByteOnes(p - pos - 1); }
    ByteOnes(p + (7 - pos));
    ByteOnes(p + (8 - pos));
  }

  lemma SingleBit(pos: nat, p: nat)
    requires pos < 8 && p < 8
    ensures Bit(Narrow(Shl(1, pos)), p) <==> p == pos
    ensures Bit(Narrow(Not(Shl(1, pos), 32)), p) <==> p != pos
  {
    LowBits(Shl(1, pos), 8, p);
    ShlBits(1, pos, p);
    NotBits(Shl(1, pos), 32, p);
    LowBits(Not(Shl(1, pos), 32), 8, p);
    if pos < p {
      assert !Bit(1, p - pos) by {
        ZeroHasNoBits(p - pos - 1);
        assert Bit(1, p - pos) == Bit(0, p - pos - 1);
      }
    }
  }

  /** Bits of a byte are frames. */
  lemma ByteFrames(bytes: seq<Byte>, k: nat, p: nat)
    requires k < |bytes| && p < 8
    ensures Bit(bytes[k], p) <==> FrameBits(bytes)[8 * k + p]
  {
    assert (8 * k + p) / 8 == k && (8 * k + p) % 8 == p;
  }

  /** A byte with every bit set is the byte 0xFF. */
  lemma FullByteIs(bytes: seq<Byte>, k: nat)
    requires k < |bytes|
    ensures bytes[k] == 0xFF <==> FullByte(FrameBits(bytes), k)
  {
    Pow2Values();
    if bytes[k] == 0xFF {
      forall f | 8 * k <= f < 8 * k + 8
        ensures FrameBits(bytes)[f]
      {
        ByteOnes(f - 8 * k);
        ByteFrames(bytes, k, f - 8 * k);
        assert 8 * k + (f - 8 * k) == f;
      }
    }
    if FullByte(FrameBits(bytes), k) {
      forall p: nat | p < 8
        ensures Bit(bytes[k], p)
      {
        ByteFrames(bytes, k, p);
      }
      AllBitsSet(bytes[k], 8);
    }
  }

  /** Bytes whose bits differ from the old ones only in a range of frames. */
  lemma BytesOverwritten(was: seq<Byte>, now: seq<Byte>, lo: nat, hi: nat, value: bool)
    requires |now| == |was|
    requires forall k: nat, p: nat | k < |was| && p < 8 ::
               Bit(now[k], p) == if lo <= 8 * k + p < hi then value else Bit(was[k], p)
    ensures FrameBits(now) == Overwritten(FrameBits(was), lo, hi, value)
  {
    forall f | 0 <= f < 8 * |was|
      ensures FrameBits(now)[f] == Overwritten(FrameBits(was), lo, hi, value)[f]
    {
      assert f == 8 * (f / 8) + f % 8;
      assert Bit(now[f / 8], f % 8) == if lo <= 8 * (f / 8) + f % 8 < hi then value else Bit(was[f / 8], f % 8);
    }
  }

  /** Marking frames lo .. hi - 1 used: two partial bytes and the whole bytes between them. */
  function MarkUsed(bytes: seq<Byte>, lo: nat, hi: nat): (r: seq<Byte>)
    requires lo < hi <= 8 * |bytes|
    ensures |r| == |bytes|
  {
    var first, last := lo / 8, (hi - 1) / 8;
    var front, end := FrontMask(lo % 8), EndMask((hi - 1) % 8);
    if first == last then bytes[last := OrByte(bytes[last], AndByte(front, end))]
    else Overwritten(bytes[first := OrByte(bytes[first], front)], first + 1, last, 0xFF)[last := OrByte(bytes[last], end)]
  }

  /** Marking frames lo .. hi - 1 free. */
  function MarkFree(bytes: seq<Byte>, lo: nat, hi: nat): (r: seq<Byte>)
    requires lo < hi <= 8 * |bytes|
    ensures |r| == |bytes|
  {
    var first, last := lo / 8, (hi - 1) / 8;
    var below, above := BelowMask(lo % 8), AboveMask((hi - 1) % 8);
    if first == last then bytes[last := AndByte(bytes[last], OrByte(below, above))]
    else Overwritten(bytes[first := AndByte(bytes[first], below)], first + 1, last, 0x00)[last := AndByte(bytes[last], above)]
  }

  /** Where bit p of byte k lies relative to a range of frames. */
  lemma Position(lo: nat, hi: nat, k: nat, p: nat)
    requires lo < hi && p < 8
    ensures lo <= 8 * k + p <==> lo / 8 < k || (lo / 8 == k && lo % 8 <= p)
    ensures 8 * k + p < hi <==> k < (hi - 1) / 8 || (k == (hi - 1) / 8 && p <= (hi - 1) % 8)
    ensures lo / 8 <= (hi - 1) / 8
  {
  }

  lemma MarkUsedBit(bytes: seq<Byte>, lo: nat, hi: nat, k: nat, p: nat)
    requires lo < hi <= 8 * |bytes| && k < |bytes| && p < 8
    ensures Bit(MarkUsed(bytes, lo, hi)[k], p) == if lo <= 8 * k + p < hi then true else Bit(bytes[k], p)
  {
    hide Bit, OrByte, AndByte, FrontMask, EndMask;
    var front, end := FrontMask(lo % 8), EndMask((hi - 1) % 8);
    MaskBits(lo % 8, p);
    MaskBits((hi - 1) % 8, p);
    Position(lo, hi, k, p);
    ByteOnes(p);
    AndByteBits(front, end, p);
    OrByteBits(bytes[k], AndByte(front, end), p);
    OrByteBits(bytes[k], front, p);
    OrByteBits(bytes[k], end, p);
  }

  lemma MarkUsedFrames(bytes: seq<Byte>, lo: nat, hi: nat)
    requires lo < hi <= 8 * |bytes|
    ensures FrameBits(MarkUsed(bytes, lo, hi)) == Overwritten(FrameBits(bytes), lo, hi, true)
  {
    forall k: nat, p: nat | k < |bytes| && p < 8
      ensures Bit(MarkUsed(bytes, lo, hi)[k], p) == if lo <= 8 * k + p < hi then true else Bit(bytes[k], p)
    {
      MarkUsedBit(bytes, lo, hi, k, p);
    }
    hide MarkUsed;
    BytesOverwritten(bytes, MarkUsed(bytes, lo, hi), lo, hi, true);
  }

  lemma MarkFreeBit(bytes: seq<Byte>, lo: nat, hi: nat, k: nat, p: nat)
    requires lo < hi <= 8 * |bytes| && k < |bytes| && p < 8
    ensures Bit(MarkFree(bytes, lo, hi)[k], p) == if lo <= 8 * k + p < hi then false else Bit(bytes[k], p)
  {
    hide Bit, OrByte, AndByte, BelowMask, AboveMask;
    var below, above := BelowMask(lo % 8), AboveMask((hi - 1) % 8);
    MaskBits(lo % 8, p);
    MaskBits((hi - 1) % 8, p);
    Position(lo, hi, k, p);
    ZeroHasNoBits(p);
    OrByteBits(below, above, p);
    AndByteBits(bytes[k], OrByte(below, above), p);
    AndByteBits(bytes[k], below, p);
    AndByteBits(bytes[k], above, p);
  }

  lemma MarkFreeFrames(bytes: seq<Byte>, lo: nat, hi: nat)
    requires lo < hi <= 8 * |bytes|
    ensures FrameBits(MarkFree(bytes, lo, hi)) == Overwritten(FrameBits(bytes), lo, hi, false)
  {
    forall k: nat, p: nat | k < |bytes| && p < 8
      ensures Bit(MarkFree(bytes, lo, hi)[k], p) == if lo <= 8 * k + p < hi then false else Bit(bytes[k], p)
    {
      MarkFreeBit(bytes, lo, hi, k, p);
    }
    hide MarkFree;
    BytesOverwritten(bytes, MarkFree(bytes, lo, hi), lo, hi, false);
  }

  /** The bytes from lo up to hi are all 0xFF. */
  ghost predicate FullBytes(bytes: seq<Byte>, lo: nat, hi: nat) {
    hi <= |bytes| && forall k | lo <= k < hi :: bytes[k] == 0xFF
  }

  /** The test of is_frame_range_used, byte by byte. */
  ghost predicate MaskedUsed(bytes: seq<Byte>, lo: nat, hi: nat)
    requires lo < hi <= 8 * |bytes|
  {
    var first, last := lo / 8, (hi - 1) / 8;
    var front, end := FrontMask(lo % 8), EndMask((hi - 1) % 8);
    if first == last then AndByte(bytes[first], AndByte(front, end)) == AndByte(front, end)
    else
      && AndByte(bytes[first], front) == front
      && FullBytes(bytes, first + 1, last)
      && AndByte(bytes[last], end) == end
  }

  /** Every bit of the mask is set in x. */
  ghost predicate Within(mask: Byte, x: Byte) {
    forall p: nat | p < 8 && Bit(mask, p) :: Bit(x, p)
  }

  /** x & mask == mask says that every bit of the mask is set in x. */
  lemma MaskTest(x: Byte, mask: Byte)
    ensures AndByte(x, mask) == mask <==> Within(mask, x)
  {
    Pow2Values();
    forall p: nat
      ensures Bit(And(x, mask), p) <==> Bit(x, p) && Bit(mask, p)
    {
      AndBits(x, mask, p);
    }
    AndBound(x, mask);
    if AndByte(x, mask) == mask {
      forall p: nat | p < 8 && Bit(mask, p)
        ensures Bit(x, p)
      {
        assert Bit(And(x, mask), p);
      }
    }
    if Within(mask, x) {
      SameBits(And(x, mask), mask, 8);
    }
  }

  /** The masked test of one byte, for the mask of positions a .. b. */
  lemma MaskTestFrames(bytes: seq<Byte>, k: nat, mask: Byte, a: nat, b: nat)
    requires k < |bytes| && a < 8 && b < 8
    requires forall p: nat | p < 8 :: Bit(mask, p) <==> a <= p <= b
    ensures AndByte(bytes[k], mask) == mask <==> AllUsed(FrameBits(bytes), 8 * k + a, 8 * k + b + 1)
  {
    var fs := FrameBits(bytes);
    MaskTest(bytes[k], mask);
    forall p: nat | p < 8
      ensures Bit(bytes[k], p) <==> fs[8 * k + p]
    {
      ByteFrames(bytes, k, p);
    }
    if AllUsed(fs, 8 * k + a, 8 * k + b + 1) {
      forall p: nat | p < 8 && Bit(mask, p)
        ensures Bit(bytes[k], p)
      {
        assert fs[8 * k + p];
      }
    }
    if Within(mask, bytes[k]) {
      forall f | 8 * k + a <= f <= 8 * k + b
        ensures fs[f]
      {
        assert Bit(mask, f - 8 * k);
        assert 8 * k + (f - 8 * k) == f;
      }
    }
  }

  /** The masked tests together say that every frame of the range is used. */
  lemma MaskedUsedIs(bytes: seq<Byte>, lo: nat, hi: nat)
    requires lo < hi <= 8 * |bytes|
    ensures MaskedUsed(bytes, lo, hi) <==> AllUsed(FrameBits(bytes), lo, hi)
  {
    var fs, first, last := FrameBits(bytes), lo / 8, (hi - 1) / 8;
    var a, b := lo % 8, (hi - 1) % 8;
    var front, end := FrontMask(a), EndMask(b);
    forall p: nat | p < 8
      ensures Bit(front, p) <==> a <= p <= 7
      ensures Bit(end, p) <==> 0 <= p <= b
      ensures Bit(AndByte(front, end), p) <==> a <= p <= b
    {
      MaskBits(a, p);
      MaskBits(b, p);
      AndBits(front, end, p);
    }
    assert lo == 8 * first + a && hi - 1 == 8 * last + b;
    if first == last {
      MaskTestFrames(bytes, first, AndByte(front, end), a, b);
    } else {
      MaskTestFrames(bytes, first, front, a, 7);
      MaskTestFrames(bytes, last, end, 0, b);
      FullBytesBetween(bytes, first, last);
    }
  }

  lemma FullBytesBetween(bytes: seq<Byte>, first: nat, last: nat)
    requires first < last < |bytes|
    ensures FullBytes(bytes, first + 1, last) <==> AllUsed(FrameBits(bytes), 8 * first + 8, 8 * last)
  {
    var fs := FrameBits(bytes);
    if FullBytes(bytes, first + 1, last) {
      forall f | 8 * first + 8 <= f < 8 * last
        ensures fs[f]
      {
        FullByteIs(bytes, f / 8);
      }
    }
    if AllUsed(fs, 8 * first + 8, 8 * last) {
      forall k | first < k < last
        ensures bytes[k] == 0xFF
      {
        FullByteIs(bytes, k);
      }
    }
  }

  /** The first byte that is not full holds the first free frame, at its first clear bit. */
  lemma FirstFreeFrame(bytes: seq<Byte>, lo: nat, k: nat, hi: nat)
    requires lo <= k < hi <= |bytes|
    requires FullBytes(bytes, lo, k)
    requires bytes[k] != 0xFF
    ensures Not(bytes[k], 8) != 0
    ensures var bit := TrailingZeros(Not(bytes[k], 8));
            bit < 8 && IsFirstFit(FrameBits(bytes), 8 * lo, 8 * hi, 1, 8 * k + bit)
  {
    var fs, inv := FrameBits(bytes), Not(bytes[k], 8);
    FullByteIs(bytes, k);
    forall p: nat
      ensures Bit(inv, p) <==> p < 8 && !Bit(bytes[k], p)
    {
      NotBits(bytes[k], 8, p);
    }
    var f :| 8 * k <= f < 8 * k + 8 && !fs[f];
    assert f == 8 * k + (f - 8 * k);
    ByteFrames(bytes, k, f - 8 * k);
    assert Bit(inv, f - 8 * k);
    if inv == 0 {
      ZeroHasNoBits(f - 8 * k);
      assert false;
    }
    var bit := TrailingZeros(inv);
    ByteFrames(bytes, k, bit);
    forall t | 8 * lo <= t < 8 * k + bit
      ensures !RunAt(fs, t, 1)
    {
      if t < 8 * k {
        FullByteIs(bytes, t / 8);
        assert fs[t];
      } else {
        ByteFrames(bytes, k, t - 8 * k);
        assert 8 * k + (t - 8 * k) == t;
        assert !Bit(inv, t - 8 * k);
      }
    }
  }

  /** Full bytes hold no free frame. */
  lemma NoFreeFrame(bytes: seq<Byte>, lo: nat, hi: nat)
    requires lo <= hi <= |bytes|
    requires FullBytes(bytes, lo, hi)
    ensures NoFit(FrameBits(bytes), 8 * lo, 8 * hi, 1)
  {
    forall t: nat | 8 * lo <= t && t + 1 <= 8 * hi
      ensures !RunAt(FrameBits(bytes), t, 1)
    {
      FullByteIs(bytes, t / 8);
      assert FrameBits(bytes)[t];
    }
  }

  // ---- the branchless minimum and the wrapped overlap test ----

  lemma {:induction false} NotZero(w: nat)
    ensures Not(0, w) == AllOnes(w)
  {
    if w > 0 {
      NotZero(w - 1);
    }
  }

  lemma {:induction false} NotOnes(w: nat)
    ensures Not(AllOnes(w), w) == 0
  {
    if w > 0 {
      var ones := AllOnes(w);
      assert ones % 2 == 1 && ones / 2 == AllOnes(w - 1);
      NotOnes(w - 1);
    }
  }

  /** (a & mask) | (b & ~mask) with mask = -(a < b). */
  function SelectLower(a: nat, b: nat): nat {
    var mask := if a < b then AllOnes(32) else 0;
    Or(And(a, mask), And(b, Not(mask, 32)))
  }

  lemma SelectLowerIsMinimum(a: nat, b: nat)
    requires a < WORD_RANGE && b < WORD_RANGE
    ensures SelectLower(a, b) == if a < b then a else b
  {
    Pow2Values();
    NotZero(32);
    NotOnes(32);
    AndKeeps(a, 32);
    AndKeeps(b, 32);
    AndZero(a);
    AndZero(b);
    OrZero(a);
  }

  /** pmm_free_contiguous_frames tests overlap with a reserved range by two wrapped subtractions. */
  predicate WrappedOverlap(f: nat, n: nat, r: Range) {
    Sub32(f, r.base) < r.length || Sub32(r.base, f) < n
  }

  /** The two subtractions decide interval overlap exactly. */
  lemma WrappedOverlapIsOverlap(f: nat, n: nat, r: Range)
    requires n > 0 && r.length > 0
    requires f + n <= WORD_RANGE && r.base + r.length <= WORD_RANGE
    ensures WrappedOverlap(f, n, r) <==> Range(f, n).Meets(r)
  {
  }

  /** One wrapped subtraction decides membership of a single frame. */
  lemma WrappedMember(f: nat, r: Range)
    requires f < WORD_RANGE && r.base + r.length <= WORD_RANGE
    ensures Sub32(f, r.base) < r.length <==> r.Has(f)
  {
  }
}
