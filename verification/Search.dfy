/** The search for contiguous free frames: scanning cores at five widths, the three sweeps that
    stitch them together by alignment, and the three wrapping searches.

    Addresses are absolute.  The bitmap starts at an arbitrary address, so every alignment is
    proved.  Words are read with LoadAligned, whose requires clause is the alignment that a
    vector load needs. */
module Search {
  import opened Alignment
  import opened Arithmetic
  import opened Bits
  import opened Cpu
  import opened Frames
  import opened Shifts
  import opened Words
  import opened Wrappers

  /** The bitmap's storage: the address of its first byte and its bytes. */
  datatype Bitmap = Bitmap(base: nat, bytes: seq<Byte>) {
    /** The address one past the last byte. */
    function End(): nat { base + |bytes| }

    function Frames(): seq<bool> { FrameBits(bytes) }

    /** The first frame that is recorded at an address. */
    function FrameAt(address: nat): (f: nat)
      requires base <= address
    {
      8 * (address - base)
    }

    /** The storage lies in the address space with room for rounding up, and maps at most the
        frames of a 4 GiB space. */
    predicate Placed() {
      End() + 32 <= WORD_RANGE && |bytes| <= 0x2_0000
    }

    function LoadAligned(address: nat, w: nat): nat
      requires base <= address && address + w <= End()
      requires w in {1, 2, 4, 16, 32} && Aligned(address, w)
    {
      Load(bytes, address - base, w)
    }
  }

  datatype AllocationRun = AllocationRun(startFrame: nat, length: nat)

  /** run_found: the frame at an address less a length, in 32-bit arithmetic. */
  function RunFound(bm: Bitmap, address: nat, length: nat): nat
    requires bm.base <= address
  {
    Sub32(bm.FrameAt(address), length)
  }

  /** The lanes of an aligned vector are aligned. */
  lemma LanesAligned(address: nat, w: nat, lane: nat)
    requires (w == 16 && lane == 4) || (w == 32 && lane == 16)
    requires Aligned(address, w)
    ensures Aligned(address, lane) && Aligned(address + w, lane)
  {
    CoarserAligned(address, w, lane);
    NextAligned(address, address, w);
    CoarserAligned(address + w, w, lane);
  }

  /** The carried length is taken off the frame number; no wrap-around occurs. */
  lemma RunFoundCarried(bm: Bitmap, address: nat, length: nat)
    requires bm.Placed() && bm.base <= address <= bm.End() && length <= bm.FrameAt(address)
    ensures RunFound(bm, address, length) == bm.FrameAt(address) - length
  {
  }

  /** A run buried at offset t makes the length wrap below zero, and wraps back here. */
  lemma RunFoundBuried(bm: Bitmap, address: nat, t: nat)
    requires bm.Placed() && bm.base <= address <= bm.End() && t < 32
    ensures RunFound(bm, address, Sub32(0, t)) == bm.FrameAt(address) + t
  {
  }

  /** What a scanning core answers, given that the scan from lo has reached its start address. */
  ghost predicate CoreResult(bm: Bitmap, lo: nat, n: nat, start: nat, end: nat, run: AllocationRun,
                             current: nat, out: AllocationRun)
    requires bm.base <= start
  {
    if out.length < n then
      && current == Max(start, end)
      && Scanned(bm.Frames(), lo, bm.FrameAt(current), n, out.length)
      && out.startFrame == run.startFrame
    else
      && start <= current < end
      && out.length == n
      && IsFirstFit(bm.Frames(), lo, bm.FrameAt(end), n, out.startFrame)
  }

  /** contiguous_8_core, contiguous_16_core and contiguous_32_core, for words of w = 1, 2, 4 bytes. */
  method ContiguousGpr(bm: Bitmap, w: nat, frames: nat, end: nat, start: nat, run: AllocationRun, ghost lo: nat)
    returns (current: nat, out: AllocationRun)
    requires bm.Placed() && 0 < frames < WORD_RANGE && w in {1, 2, 4}
    requires bm.base <= start && end <= bm.End()
    requires start < end ==> Aligned(start, w) && Aligned(end, w)
    requires start <= bm.End() && Scanned(bm.Frames(), lo, bm.FrameAt(start), frames, run.length) && run.length < frames
    ensures CoreResult(bm, lo, frames, start, end, run, current, out)
  {
    hide Aligned, RunFound, Sub32, Scanned, IsFirstFit, FrameBits, Load, AllOnes, Not, Pow2, MakeShifts, TrailingZeros, LeadingZeros;
    current := start;
    var width := 8 * w;
    var length: nat, startFrame: nat := run.length, run.startFrame;
    var shifts := MakeShifts(width, frames);
    while current < end
      invariant start <= current <= Max(start, end)
      invariant current < end ==> Aligned(current, w)
      invariant Scanned(bm.Frames(), lo, bm.FrameAt(current), frames, length) && length < frames
      invariant startFrame == run.startFrame
    {
      ghost var k, hi := current - bm.base, bm.FrameAt(end);
      NextAligned(current, end, w);
      ScanBounds(bm.bytes, lo, k, frames, length);
      var value := bm.LoadAligned(current, w);
      if value == 0 {
        length := length + width;
        if length >= frames {
          length := length - width;
          StepZeroHit(bm.bytes, lo, k, w, frames, length, hi);
          RunFoundCarried(bm, current, length);
          startFrame := RunFound(bm, current, length);
          break;
        }
        StepZeroCarry(bm.bytes, lo, k, w, frames, length - width);
      } else if value == AllOnes(width) {
        StepOnes(bm.bytes, lo, k, w, frames, length);
        length := 0;
      } else {
        if length + TrailingZeros(value) >= frames {
          StepPrefixHit(bm.bytes, lo, k, w, frames, length, hi);
          RunFoundCarried(bm, current, length);
          startFrame := RunFound(bm, current, length);
          break;
        }
        if frames <= width - 1 {
          StepBuried(bm.bytes, lo, k, w, frames, length, hi);
          var inverted := shifts.Space(Not(value, width));
          if inverted != 0 {
            length := Sub32(0, TrailingZeros(inverted));
            RunFoundBuried(bm, current, TrailingZeros(inverted));
            startFrame := RunFound(bm, current, length);
            break;
          }
        }
        StepTail(bm.bytes, lo, k, w, frames, length);
        length := LeadingZeros(value, width);
      }
      current := current + w;
    }
    out := AllocationRun(startFrame, if current < end then frames else length);
  }

  /** contiguous_sse2_core: 16 bytes at a time, a mixed vector being left to the 32-bit core. */
  method ContiguousSse2(bm: Bitmap, frames: nat, end: nat, start: nat, run: AllocationRun, ghost lo: nat)
    returns (current: nat, out: AllocationRun)
    requires bm.Placed() && 0 < frames < WORD_RANGE
    requires bm.base <= start && end <= bm.End()
    requires start < end ==> Aligned(start, 16) && Aligned(end, 16)
    requires start <= bm.End() && Scanned(bm.Frames(), lo, bm.FrameAt(start), frames, run.length) && run.length < frames
    ensures CoreResult(bm, lo, frames, start, end, run, current, out)
  {
    hide Aligned, RunFound, Scanned, IsFirstFit, FrameBits, Load, AllOnes, Pow2;
    current := start;
    var length: nat := run.length;
    out := run;
    while current < end
      invariant start <= current <= Max(start, end)
      invariant current < end ==> Aligned(current, 16)
      invariant Scanned(bm.Frames(), lo, bm.FrameAt(current), frames, length) && length < frames
      invariant out.startFrame == run.startFrame
    {
      ghost var k := current - bm.base;
      NextAligned(current, end, 16);
      ScanBounds(bm.bytes, lo, k, frames, length);
      var value := bm.LoadAligned(current, 16);
      if value == 0 {
        length := length + 128;
        if length >= frames {
          length := length - 128;
          StepZeroHit(bm.bytes, lo, k, 16, frames, length, bm.FrameAt(end));
          RunFoundCarried(bm, current, length);
          out := AllocationRun(RunFound(bm, current, length), length);
          break;
        }
        StepZeroCarry(bm.bytes, lo, k, 16, frames, length - 128);
      } else if value == AllOnes(128) {
        StepOnes(bm.bytes, lo, k, 16, frames, length);
        length := 0;
      } else {
        out := out.(length := length);
        var lane: nat;
        LanesAligned(current, 16, 4);
        lane, out := ContiguousGpr(bm, 4, frames, current + 16, current, out, lo);
        length := out.length;
        if length >= frames {
          FirstFitWider(bm.Frames(), lo, bm.FrameAt(current + 16), bm.FrameAt(end), frames, out.startFrame);
          break;
        }
      }
      current := current + 16;
    }
    out := out.(length := if current < end then frames else length);
  }

  /** contiguous_avx2_core: 32 bytes at a time, a mixed vector being left to the 128-bit core. */
  method ContiguousAvx2(bm: Bitmap, frames: nat, end: nat, start: nat, run: AllocationRun, ghost lo: nat)
    returns (current: nat, out: AllocationRun)
    requires bm.Placed() && 0 < frames < WORD_RANGE
    requires bm.base <= start && end <= bm.End()
    requires start < end ==> Aligned(start, 32) && Aligned(end, 32)
    requires start <= bm.End() && Scanned(bm.Frames(), lo, bm.FrameAt(start), frames, run.length) && run.length < frames
    ensures CoreResult(bm, lo, frames, start, end, run, current, out)
  {
    hide Aligned, RunFound, Scanned, IsFirstFit, FrameBits, Load, AllOnes, Pow2;
    current := start;
    var length: nat := run.length;
    out := run;
    while current < end
      invariant start <= current <= Max(start, end)
      invariant current < end ==> Aligned(current, 32)
      invariant Scanned(bm.Frames(), lo, bm.FrameAt(current), frames, length) && length < frames
      invariant out.startFrame == run.startFrame
    {
      ghost var k := current - bm.base;
      NextAligned(current, end, 32);
      ScanBounds(bm.bytes, lo, k, frames, length);
      var value := bm.LoadAligned(current, 32);
      if value == 0 {
        length := length + 256;
        if length >= frames {
          length := length - 256;
          StepZeroHit(bm.bytes, lo, k, 32, frames, length, bm.FrameAt(end));
          RunFoundCarried(bm, current, length);
          out := AllocationRun(RunFound(bm, current, length), length);
          break;
        }
        StepZeroCarry(bm.bytes, lo, k, 32, frames, length - 256);
      } else if value == AllOnes(256) {
        StepOnes(bm.bytes, lo, k, 32, frames, length);
        length := 0;
      } else {
        out := out.(length := length);
        var lane: nat;
        LanesAligned(current, 32, 16);
        lane, out := ContiguousSse2(bm, frames, current + 32, current, out, lo);
        length := out.length;
        if length >= frames {
          FirstFitWider(bm.Frames(), lo, bm.FrameAt(current + 32), bm.FrameAt(end), frames, out.startFrame);
          break;
        }
      }
      current := current + 32;
    }
    out := out.(length := if current < end then frames else length);
  }

  // ---- sweeps: the cores stitched together by alignment ----

  /** The cursor of a sweep is aligned to w, or no whole word of w bytes is left. */
  ghost predicate Reached(cursor: nat, end: nat, w: nat)
    requires 0 < w < WORD_RANGE
  {
    Aligned(cursor, w) || AlignDown(end, w) <= cursor
  }

  /** A scan that starts at begin and has not succeeded yet. */
  ghost predicate Sweeping(bm: Bitmap, begin: nat, end: nat, n: nat, cursor: nat, run: AllocationRun) {
    && bm.Placed() && 0 < n < WORD_RANGE
    && bm.base <= begin <= cursor <= end <= bm.End()
    && run.length < n
    && Scanned(bm.Frames(), bm.FrameAt(begin), bm.FrameAt(cursor), n, run.length)
  }

  /** What a sweep of [begin, end) answers: the bit-by-bit first fit. */
  ghost predicate SweepResult(bm: Bitmap, begin: nat, end: nat, n: nat, out: AllocationRun)
    requires bm.base <= begin <= end
  {
    match FirstFit(bm.Frames(), bm.FrameAt(begin), bm.FrameAt(end), n)
    case None => out.length < n
    case Some(s) => out == AllocationRun(s, n)
  }

  /** The words of one stage are aligned, whatever the bound of the stage is, as long as the bound
      is a multiple of a size at least as wide and the cursor has been peeled to that width. */
  lemma StageAligned(cursor: nat, bound: nat, end: nat, w: nat, size: nat)
    requires w in {2, 4, 16, 32} && size in {2, 4, 16, 32} && w <= size
    requires end < WORD_RANGE && Reached(cursor, end, w)
    requires Aligned(bound, size) && bound <= end
    ensures cursor < bound ==> Aligned(cursor, w) && Aligned(bound, w)
    ensures Reached(Max(cursor, bound), end, w)
  {
    CoarserAligned(bound, size, w);
    if cursor < bound && AlignDown(end, w) <= cursor {
      AlignDownIs(end, w);
      NextAligned(AlignDown(end, w), bound, w);
      assert false;
    }
  }

  /** The cursor has been peeled to every width up to size. */
  ghost predicate Peeled(cursor: nat, end: nat, size: nat) {
    forall w | w in {2, 4, 16, 32} && w <= size :: Reached(cursor, end, w)
  }

  /** A stage of w-byte words that peels the cursor to a multiple of size. */
  lemma PeelUp(cursor: nat, end: nat, w: nat, size: nat)
    requires (w == 1 && size == 2) || (w == 2 && size == 4) || (w == 4 && size == 16) || (w == 16 && size == 32)
    requires cursor <= end && end + 32 <= WORD_RANGE
    requires Peeled(cursor, end, w)
    ensures var bound := Min(AlignUp(cursor, size), AlignDown(end, size));
            && bound <= end
            && (cursor < bound ==> Aligned(cursor, w) && Aligned(bound, w))
            && Peeled(Max(cursor, bound), end, size)
  {
    var bound := Min(AlignUp(cursor, size), AlignDown(end, size));
    PeelBound(cursor, end, size);
    forall v | v in {2, 4, 16, 32} && v <= size
      ensures Reached(Max(cursor, bound), end, v)
    {
      if v < size {
        StageAligned(cursor, bound, end, v, size);
      }
    }
    if w > 1 {
      StageAligned(cursor, bound, end, w, size);
    }
  }

  /** A stage that consumes the last whole words of a width the cursor has been peeled to. */
  lemma PeelDown(cursor: nat, end: nat, size: nat)
    requires size in {2, 4, 16, 32}
    requires cursor <= end && end + 32 <= WORD_RANGE
    requires Peeled(cursor, end, size)
    ensures var bound := AlignDown(end, size);
            && bound <= end
            && (cursor < bound ==> Aligned(cursor, size) && Aligned(bound, size))
            && Peeled(Max(cursor, bound), end, size)
  {
    var bound := AlignDown(end, size);
    AlignDownIs(end, size);
    forall v | v in {2, 4, 16, 32} && v <= size
      ensures Reached(Max(cursor, bound), end, v)
    {
      StageAligned(cursor, bound, end, v, size);
    }
    StageAligned(cursor, bound, end, size, size);
  }

  /** Bytes need no alignment. */
  lemma BytesPeeled(cursor: nat, end: nat)
    ensures Peeled(cursor, end, 1)
    ensures Aligned(cursor, 1) && Aligned(end, 1)
  {
  }

  lemma PeeledLess(cursor: nat, end: nat, size: nat, smaller: nat)
    requires smaller <= size && Peeled(cursor, end, size)
    ensures Peeled(cursor, end, smaller)
  {
  }

  /** One stage of a sweep leaves the scan going or has the answer. */
  lemma StageResult(bm: Bitmap, begin: nat, end: nat, n: nat, cursor: nat, run: AllocationRun,
                    bound: nat, cursor': nat, out: AllocationRun)
    requires Sweeping(bm, begin, end, n, cursor, run) && bound <= end
    requires CoreResult(bm, bm.FrameAt(begin), n, cursor, bound, run, cursor', out)
    ensures out.length < n ==> cursor' == Max(cursor, bound) && Sweeping(bm, begin, end, n, cursor', out)
    ensures out.length < n && bound == end ==> SweepResult(bm, begin, end, n, out)
    ensures out.length >= n ==> SweepResult(bm, begin, end, n, out)
  {
    if out.length >= n {
      FirstFitWider(bm.Frames(), bm.FrameAt(begin), bm.FrameAt(bound), bm.FrameAt(end), n, out.startFrame);
    }
  }

  /** sweep_32: bytes, halfwords and words up, words down, then halfwords and bytes to the end. */
  method Sweep32(bm: Bitmap, begin: nat, end: nat, frames: nat, run: AllocationRun) returns (out: AllocationRun)
    requires bm.Placed() && 0 < frames < WORD_RANGE
    requires bm.base <= begin <= end <= bm.End()
    requires run.length == 0
    ensures SweepResult(bm, begin, end, frames, out)
  {
    hide Aligned, Peeled, CoreResult, SweepResult, Scanned, AlignDown, AlignUp;
    ghost var lo := bm.FrameAt(begin);
    ScanStart(bm.Frames(), lo, frames);
    var aligned2, aligned4 := AlignDown(end, 2), AlignDown(end, 4);
    var cursor, next, stop, scan := begin, begin, begin, run;
    out := run;

    stop := Min(AlignUp(cursor, 2), aligned2);
    BytesPeeled(cursor, end);
    PeelUp(cursor, end, 1, 2);
    next, scan := ContiguousGpr(bm, 1, frames, stop, cursor, out, lo);
    StageResult(bm, begin, end, frames, cursor, out, stop, next, scan);
    cursor, out := next, scan;
    if out.length >= frames {
      return;
    }

    stop := Min(AlignUp(cursor, 4), aligned4);
    PeelUp(cursor, end, 2, 4);
    next, scan := ContiguousGpr(bm, 2, frames, stop, cursor, out, lo);
    StageResult(bm, begin, end, frames, cursor, out, stop, next, scan);
    cursor, out := next, scan;
    if out.length >= frames {
      return;
    }

    PeelDown(cursor, end, 4);
    next, scan := ContiguousGpr(bm, 4, frames, aligned4, cursor, out, lo);
    StageResult(bm, begin, end, frames, cursor, out, aligned4, next, scan);
    cursor, out := next, scan;
    if out.length >= frames {
      return;
    }

    PeeledLess(cursor, end, 4, 2);
    PeelDown(cursor, end, 2);
    next, scan := ContiguousGpr(bm, 2, frames, aligned2, cursor, out, lo);
    StageResult(bm, begin, end, frames, cursor, out, aligned2, next, scan);
    cursor, out := next, scan;
    if out.length >= frames {
      return;
    }

    BytesPeeled(cursor, end);
    next, scan := ContiguousGpr(bm, 1, frames, end, cursor, out, lo);
    StageResult(bm, begin, end, frames, cursor, out, end, next, scan);
    out := scan;
  }

  /** sweep_sse_2. */
  method SweepSse2(bm: Bitmap, begin: nat, end: nat, frames: nat, run: AllocationRun) returns (out: AllocationRun)
    requires bm.Placed() && 0 < frames < WORD_RANGE
    requires bm.base <= begin <= end <= bm.End()
    requires run.length == 0
    ensures SweepResult(bm, begin, end, frames, out)
  {
    hide Aligned, Peeled, CoreResult, SweepResult, Scanned, AlignDown, AlignUp;
    ghost var lo := bm.FrameAt(begin);
    ScanStart(bm.Frames(), lo, frames);
    var aligned2, aligned4, aligned16 := AlignDown(end, 2), AlignDown(end, 4), AlignDown(end, 16);
    var cursor, next, stop, scan := begin, begin, begin, run;
    out := run;

    stop := Min(AlignUp(cursor, 2), aligned2);
    BytesPeeled(cursor, end);
    PeelUp(cursor, end, 1, 2);
    next, scan := ContiguousGpr(bm, 1, frames, stop, cursor, out, lo);
    StageResult(bm, begin, end, frames, cursor, out, stop, next, scan);
    cursor, out := next, scan;
    if out.length >= frames {
      return;
    }

    stop := Min(AlignUp(cursor, 4), aligned4);
    PeelUp(cursor, end, 2, 4);
    next, scan := ContiguousGpr(bm, 2, frames, stop, cursor, out, lo);
    StageResult(bm, begin, end, frames, cursor, out, stop, next, scan);
    cursor, out := next, scan;
    if out.length >= frames {
      return;
    }

    stop := Min(AlignUp(cursor, 16), aligned16);
    PeelUp(cursor, end, 4, 16);
    next, scan := ContiguousGpr(bm, 4, frames, stop, cursor, out, lo);
    StageResult(bm, begin, end, frames, cursor, out, stop, next, scan);
    cursor, out := next, scan;
    if out.length >= frames {
      return;
    }

    PeelDown(cursor, end, 16);
    next, scan := ContiguousSse2(bm, frames, aligned16, cursor, out, lo);
    StageResult(bm, begin, end, frames, cursor, out, aligned16, next, scan);
    cursor, out := next, scan;
    if out.length >= frames {
      return;
    }

    PeeledLess(cursor, end, 16, 4);
    PeelDown(cursor, end, 4);
    next, scan := ContiguousGpr(bm, 4, frames, aligned4, cursor, out, lo);
    StageResult(bm, begin, end, frames, cursor, out, aligned4, next, scan);
    cursor, out := next, scan;
    if out.length >= frames {
      return;
    }

    PeeledLess(cursor, end, 4, 2);
    PeelDown(cursor, end, 2);
    next, scan := ContiguousGpr(bm, 2, frames, aligned2, cursor, out, lo);
    StageResult(bm, begin, end, frames, cursor, out, aligned2, next, scan);
    cursor, out := next, scan;
    if out.length >= frames {
      return;
    }

    BytesPeeled(cursor, end);
    next, scan := ContiguousGpr(bm, 1, frames, end, cursor, out, lo);
    StageResult(bm, begin, end, frames, cursor, out, end, next, scan);
    out := scan;
  }

  /** sweep_avx_2. */
  method SweepAvx2(bm: Bitmap, begin: nat, end: nat, frames: nat, run: AllocationRun) returns (out: AllocationRun)
    requires bm.Placed() && 0 < frames < WORD_RANGE
    requires bm.base <= begin <= end <= bm.End()
    requires run.length == 0
    ensures SweepResult(bm, begin, end, frames, out)
  {
    hide Aligned, Peeled, CoreResult, SweepResult, Scanned, AlignDown, AlignUp;
    ghost var lo := bm.FrameAt(begin);
    ScanStart(bm.Frames(), lo, frames);
    var aligned2, aligned4, aligned16, aligned32 := AlignDown(end, 2), AlignDown(end, 4), AlignDown(end, 16), AlignDown(end, 32);
    var cursor, next, stop, scan := begin, begin, begin, run;
    out := run;

    stop := Min(AlignUp(cursor, 2), aligned2);
    BytesPeeled(cursor, end);
    PeelUp(cursor, end, 1, 2);
    next, scan := ContiguousGpr(bm, 1, frames, stop, cursor, out, lo);
    StageResult(bm, begin, end, frames, cursor, out, stop, next, scan);
    cursor, out := next, scan;
    if out.length >= frames {
      return;
    }

    stop := Min(AlignUp(cursor, 4), aligned4);
    PeelUp(cursor, end, 2, 4);
    next, scan := ContiguousGpr(bm, 2, frames, stop, cursor, out, lo);
    StageResult(bm, begin, end, frames, cursor, out, stop, next, scan);
    cursor, out := next, scan;
    if out.length >= frames {
      return;
    }

    stop := Min(AlignUp(cursor, 16), aligned16);
    PeelUp(cursor, end, 4, 16);
    next, scan := ContiguousGpr(bm, 4, frames, stop, cursor, out, lo);
    StageResult(bm, begin, end, frames, cursor, out, stop, next, scan);
    cursor, out := next, scan;
    if out.length >= frames {
      return;
    }

    stop := Min(AlignUp(cursor, 32), aligned32);
    PeelUp(cursor, end, 16, 32);
    next, scan := ContiguousSse2(bm, frames, stop, cursor, out, lo);
    StageResult(bm, begin, end, frames, cursor, out, stop, next, scan);
    cursor, out := next, scan;
    if out.length >= frames {
      return;
    }

    PeelDown(cursor, end, 32);
    next, scan := ContiguousAvx2(bm, frames, aligned32, cursor, out, lo);
    StageResult(bm, begin, end, frames, cursor, out, aligned32, next, scan);
    cursor, out := next, scan;
    if out.length >= frames {
      return;
    }

    PeeledLess(cursor, end, 32, 16);
    PeelDown(cursor, end, 16);
    next, scan := ContiguousSse2(bm, frames, aligned16, cursor, out, lo);
    StageResult(bm, begin, end, frames, cursor, out, aligned16, next, scan);
    cursor, out := next, scan;
    if out.length >= frames {
      return;
    }

    PeeledLess(cursor, end, 16, 4);
    PeelDown(cursor, end, 4);
    next, scan := ContiguousGpr(bm, 4, frames, aligned4, cursor, out, lo);
    StageResult(bm, begin, end, frames, cursor, out, aligned4, next, scan);
    cursor, out := next, scan;
    if out.length >= frames {
      return;
    }

    PeeledLess(cursor, end, 4, 2);
    PeelDown(cursor, end, 2);
    next, scan := ContiguousGpr(bm, 2, frames, aligned2, cursor, out, lo);
    StageResult(bm, begin, end, frames, cursor, out, aligned2, next, scan);
    cursor, out := next, scan;
    if out.length >= frames {
      return;
    }

    BytesPeeled(cursor, end);
    next, scan := ContiguousGpr(bm, 1, frames, end, cursor, out, lo);
    StageResult(bm, begin, end, frames, cursor, out, end, next, scan);
    out := scan;
  }

  // ---- the wrapping searches ----

  method Sweep(tier: CpuTier, bm: Bitmap, begin: nat, end: nat, frames: nat, run: AllocationRun)
    returns (out: AllocationRun)
    requires bm.Placed() && 0 < frames < WORD_RANGE
    requires bm.base <= begin <= end <= bm.End()
    requires run.length == 0
    ensures SweepResult(bm, begin, end, frames, out)
  {
    match tier
    case Gpr => out := Sweep32(bm, begin, end, frames, run);
    case Sse2 => out := SweepSse2(bm, begin, end, frames, run);
    case Avx2 => out := SweepAvx2(bm, begin, end, frames, run);
  }

  /** A run at s is the right answer: the earliest at or above the hint, and only when there is none,
      the earliest below it. */
  ghost predicate IsAnswer(fs: seq<bool>, hint: nat, n: nat, s: nat) {
    || IsFirstFit(fs, hint, |fs|, n, s)
    || (NoFit(fs, hint, |fs|, n) && IsFirstFit(fs, 0, hint, n, s))
  }

  /** The answer of a search. */
  ghost function SearchFrom(fs: seq<bool>, hint: nat, n: nat): (r: Option<nat>)
    ensures forall s: nat :: r == Some(s) <==> IsAnswer(fs, hint, n, s)
    ensures r == None <==> NoFit(fs, hint, |fs|, n) && NoFit(fs, 0, hint, n)
  {
    match FirstFit(fs, hint, |fs|, n)
    case Some(s) => Some(s)
    case None => FirstFit(fs, 0, hint, n)
  }

  /** find_contiguous_frames_32, _sse2 and _avx2: one answer, whatever the tier. */
  method FindContiguousFrames(tier: CpuTier, bm: Bitmap, searchBegin: nat, frames: nat) returns (run: AllocationRun)
    requires bm.Placed() && 0 < frames < WORD_RANGE
    requires bm.base <= searchBegin <= bm.End()
    ensures if run.length < frames
            then NoFit(bm.Frames(), bm.FrameAt(searchBegin), |bm.Frames()|, frames)
                 && NoFit(bm.Frames(), 0, bm.FrameAt(searchBegin), frames)
            else run.length == frames && IsAnswer(bm.Frames(), bm.FrameAt(searchBegin), frames, run.startFrame)
    ensures match SearchFrom(bm.Frames(), bm.FrameAt(searchBegin), frames)
            case None => run.length < frames
            case Some(s) => run == AllocationRun(s, frames)
  {
    hide FirstFit, FrameBits, NoFit, IsFirstFit;
    run := Sweep(tier, bm, searchBegin, bm.End(), frames, AllocationRun(0, 0));
    if run.length < frames {
      run := run.(length := 0);
      run := Sweep(tier, bm, bm.base, searchBegin, frames, run);
    }
  }

  /** A search fails iff every run of that length straddles the hint. */
  lemma SearchMissesStraddling(fs: seq<bool>, hint: nat, n: nat)
    requires hint <= |fs|
    ensures SearchFrom(fs, hint, n) == None <==> forall s: nat :: RunAt(fs, s, n) ==> s < hint < s + n
  {
    if SearchFrom(fs, hint, n) == None {
      forall s: nat | RunAt(fs, s, n)
        ensures s < hint < s + n
      {
        assert NoFit(fs, hint, |fs|, n) && NoFit(fs, 0, hint, n);
      }
    }
  }

  /** When a frame next to the hint is used, no run straddles it, and the search is complete. */
  lemma SearchCompleteAtEdge(fs: seq<bool>, hint: nat, n: nat)
    requires hint <= |fs| && n > 0
    requires 0 < hint < |fs| ==> fs[hint - 1] || fs[hint]
    ensures SearchFrom(fs, hint, n) == None <==> NoFit(fs, 0, |fs|, n)
  {
    SearchMissesStraddling(fs, hint, n);
    if SearchFrom(fs, hint, n) == None {
      forall s: nat | s + n <= |fs|
        ensures !RunAt(fs, s, n)
      {
        if RunAt(fs, s, n) {
          assert false;
        }
      }
    }
  }

  /** Such a failure happens: frames 7 and 8 are free, two frames are wanted and the hint is frame 8. */
  lemma StraddlingRunIsMissed()
    ensures var fs := seq(16, i => i != 7 && i != 8);
            RunAt(fs, 7, 2) && SearchFrom(fs, 8, 2) == None
  {
    var fs := seq(16, i => i != 7 && i != 8);
    forall s: nat | RunAt(fs, s, 2)
      ensures s == 7
    {
      assert !fs[s] && !fs[s + 1];
    }
    SearchMissesStraddling(fs, 8, 2);
  }
}
