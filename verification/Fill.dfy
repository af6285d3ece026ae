/** Bulk setting of bitmap bytes: fill loops at five widths, and the peeled fills built from them.

    Every store goes through StoreAligned, whose requires clauses say that a wide store is
    aligned and stays inside the range being filled. */
module Fill {
  import opened Alignment
  import opened Arithmetic
  import opened Bits
  import opened Cpu
  import opened Search
  import opened Sequences

  /** The byte that set_bits::all_ones and set_bits::all_zeros repeat. */
  function FillByte(ones: bool): Byte {
    if ones then 0xFF else 0x00
  }

  /** The storage lies in the address space with room for rounding up. */
  predicate Addressable(mem: array<Byte>, base: nat) {
    base + mem.Length + 32 <= WORD_RANGE
  }

  /** One store of w equal bytes. */
  method StoreAligned(mem: array<Byte>, base: nat, address: nat, w: nat, value: Byte, ghost limit: nat)
    requires w in {1, 2, 4, 16, 32} && Aligned(address, w)
    requires base <= address && address + w <= limit <= base + mem.Length
    modifies mem
    ensures mem[..] == Overwritten(old(mem[..]), address - base, address - base + w, value)
  {
    var k := address - base;
    forall i | k <= i < k + w {
      mem[i] := value;
    }
  }

  /** set_gpr<T>, set_sse2 and set_avx2, for words of w bytes. */
  method SetWords(mem: array<Byte>, base: nat, w: nat, ones: bool, end: nat, start: nat) returns (current: nat)
    requires Addressable(mem, base) && w in {1, 2, 4, 16, 32}
    requires base <= start && end <= base + mem.Length
    requires start < end ==> Aligned(start, w) && Aligned(end, w)
    modifies mem
    ensures current == Max(start, end)
    ensures mem[..] == Overwritten(old(mem[..]), start - base, current - base, FillByte(ones))
  {
    hide Aligned;
    current := start;
    while current < end
      invariant start <= current <= Max(start, end)
      invariant current < end ==> Aligned(current, w)
      invariant mem[..] == Overwritten(old(mem[..]), start - base, current - base, FillByte(ones))
    {
      NextAligned(current, end, w);
      StoreAligned(mem, base, current, w, FillByte(ones), end);
      OverwrittenTwice(old(mem[..]), start - base, current - base, current - base + w, FillByte(ones));
      current := current + w;
    }
  }

  /** One stage of a peeled fill. */
  method SetStage(mem: array<Byte>, base: nat, w: nat, ones: bool, ghost start: nat, cursor: nat, bound: nat,
                  ghost end: nat, ghost was: seq<Byte>)
    returns (current: nat)
    requires Addressable(mem, base) && w in {1, 2, 4, 16, 32}
    requires base <= start <= cursor <= end && bound <= end <= base + mem.Length
    requires cursor < bound ==> Aligned(cursor, w) && Aligned(bound, w)
    requires mem[..] == Overwritten(was, start - base, cursor - base, FillByte(ones))
    modifies mem
    ensures current == Max(cursor, bound) && cursor <= current <= end && bound <= current
    ensures bound <= cursor ==> current == cursor
    ensures mem[..] == Overwritten(was, start - base, current - base, FillByte(ones))
  {
    current := SetWords(mem, base, w, ones, bound, cursor);
    OverwrittenTwice(was, start - base, cursor - base, current - base, FillByte(ones));
  }

  /** set_frames_used_32 and set_frames_free_32. */
  method SetFrames32(mem: array<Byte>, base: nat, ones: bool, start: nat, end: nat)
    requires Addressable(mem, base)
    requires base <= start <= end <= base + mem.Length
    modifies mem
    ensures mem[..] == Overwritten(old(mem[..]), start - base, end - base, FillByte(ones))
  {
    hide Aligned, Peeled, AlignDown, AlignUp, Overwritten, Max, Min, FillByte;
    ghost var was := mem[..];
    OverwrittenNone(was, start - base, FillByte(ones));
    var aligned2, aligned4 := AlignDown(end, 2), AlignDown(end, 4);
    var cursor, stop := start, start;

    stop := Min(AlignUp(cursor, 2), aligned2);
    BytesPeeled(cursor, end);
    PeelUp(cursor, end, 1, 2);
    cursor := SetStage(mem, base, 1, ones, start, cursor, stop, end, was);

    stop := Min(AlignUp(cursor, 4), aligned4);
    PeelUp(cursor, end, 2, 4);
    cursor := SetStage(mem, base, 2, ones, start, cursor, stop, end, was);

    // the bound is still the one of the halfword stage, so no word is stored here
    cursor := SetStage(mem, base, 4, ones, start, cursor, stop, end, was);

    PeeledLess(cursor, end, 4, 2);
    PeelDown(cursor, end, 2);
    cursor := SetStage(mem, base, 2, ones, start, cursor, aligned2, end, was);

    BytesPeeled(cursor, end);
    cursor := SetStage(mem, base, 1, ones, start, cursor, end, end, was);
  }

  /** set_frames_used_sse2 and set_frames_free_sse2. */
  method SetFramesSse2(mem: array<Byte>, base: nat, ones: bool, start: nat, end: nat)
    requires Addressable(mem, base)
    requires base <= start <= end <= base + mem.Length
    modifies mem
    ensures mem[..] == Overwritten(old(mem[..]), start - base, end - base, FillByte(ones))
  {
    hide Aligned, Peeled, AlignDown, AlignUp, Overwritten, Max, Min, FillByte;
    ghost var was := mem[..];
    OverwrittenNone(was, start - base, FillByte(ones));
    var aligned2, aligned4, aligned16 := AlignDown(end, 2), AlignDown(end, 4), AlignDown(end, 16);
    var cursor, stop := start, start;

    stop := Min(AlignUp(cursor, 2), aligned2);
    BytesPeeled(cursor, end);
    PeelUp(cursor, end, 1, 2);
    cursor := SetStage(mem, base, 1, ones, start, cursor, stop, end, was);

    stop := Min(AlignUp(cursor, 4), aligned4);
    PeelUp(cursor, end, 2, 4);
    cursor := SetStage(mem, base, 2, ones, start, cursor, stop, end, was);

    stop := Min(AlignUp(cursor, 16), aligned16);
    PeelUp(cursor, end, 4, 16);
    cursor := SetStage(mem, base, 4, ones, start, cursor, stop, end, was);

    PeelDown(cursor, end, 16);
    cursor := SetStage(mem, base, 16, ones, start, cursor, aligned16, end, was);

    PeeledLess(cursor, end, 16, 4);
    PeelDown(cursor, end, 4);
    cursor := SetStage(mem, base, 4, ones, start, cursor, aligned4, end, was);

    PeeledLess(cursor, end, 4, 2);
    PeelDown(cursor, end, 2);
    cursor := SetStage(mem, base, 2, ones, start, cursor, aligned2, end, was);

    BytesPeeled(cursor, end);
    cursor := SetStage(mem, base, 1, ones, start, cursor, end, end, was);
  }

  /** set_frames_used_avx2 and set_frames_free_avx2. */
  method SetFramesAvx2(mem: array<Byte>, base: nat, ones: bool, start: nat, end: nat)
    requires Addressable(mem, base)
    requires base <= start <= end <= base + mem.Length
    modifies mem
    ensures mem[..] == Overwritten(old(mem[..]), start - base, end - base, FillByte(ones))
  {
    hide Aligned, Peeled, AlignDown, AlignUp, Overwritten, Max, Min, FillByte;
    ghost var was := mem[..];
    OverwrittenNone(was, start - base, FillByte(ones));
    var aligned2, aligned4, aligned16, aligned32 := AlignDown(end, 2), AlignDown(end, 4), AlignDown(end, 16), AlignDown(end, 32);
    var cursor, stop := start, start;

    stop := Min(AlignUp(cursor, 2), aligned2);
    BytesPeeled(cursor, end);
    PeelUp(cursor, end, 1, 2);
    cursor := SetStage(mem, base, 1, ones, start, cursor, stop, end, was);

    stop := Min(AlignUp(cursor, 4), aligned4);
    PeelUp(cursor, end, 2, 4);
    cursor := SetStage(mem, base, 2, ones, start, cursor, stop, end, was);

    stop := Min(AlignUp(cursor, 16), aligned16);
    PeelUp(cursor, end, 4, 16);
    cursor := SetStage(mem, base, 4, ones, start, cursor, stop, end, was);

    stop := Min(AlignUp(cursor, 32), aligned32);
    PeelUp(cursor, end, 16, 32);
    cursor := SetStage(mem, base, 16, ones, start, cursor, stop, end, was);

    PeelDown(cursor, end, 32);
    cursor := SetStage(mem, base, 32, ones, start, cursor, aligned32, end, was);

    PeeledLess(cursor, end, 32, 16);
    PeelDown(cursor, end, 16);
    cursor := SetStage(mem, base, 16, ones, start, cursor, aligned16, end, was);

    PeeledLess(cursor, end, 16, 4);
    PeelDown(cursor, end, 4);
    cursor := SetStage(mem, base, 4, ones, start, cursor, aligned4, end, was);

    PeeledLess(cursor, end, 4, 2);
    PeelDown(cursor, end, 2);
    cursor := SetStage(mem, base, 2, ones, start, cursor, aligned2, end, was);

    BytesPeeled(cursor, end);
    cursor := SetStage(mem, base, 1, ones, start, cursor, end, end, was);
  }

  /** set_range_used and set_range_free: exactly the bytes of [start, end) change, on every tier. */
  method SetRange(tier: CpuTier, mem: array<Byte>, base: nat, ones: bool, start: nat, end: nat)
    requires Addressable(mem, base)
    requires base <= start <= end <= base + mem.Length
    modifies mem
    ensures mem[..] == Overwritten(old(mem[..]), start - base, end - base, FillByte(ones))
  {
    match tier
    case Gpr => SetFrames32(mem, base, ones, start, end);
    case Sse2 => SetFramesSse2(mem, base, ones, start, end);
    case Avx2 => SetFramesAvx2(mem, base, ones, start, end);
  }
}
