/** The physical memory manager: the bitmap, its counters and its four entry points.

    Every method is proved to compute a step of the state machine in module Allocator on the
    state that the fields represent. */
module Pmm {
  import opened Allocator
  import opened Arithmetic
  import opened BitmapBytes
  import opened Bits
  import opened Cpu
  import opened E820
  import opened Fill
  import opened Frames
  import opened Search
  import opened Sequences
  import opened Wrappers

  /** frame_address, with the null pointer for no frame. */
  function AddressOf(frame: Option<nat>): nat {
    match frame
    case None => 0
    case Some(f) => f * FRAME_SIZE
  }

  /** n frames that were free are used now, the first one at address; nothing is when there is no address. */
  ghost predicate HandsOut(before: seq<bool>, after: seq<bool>, address: nat, n: nat) {
    if address == 0 then after == before
    else && |after| == |before| && address % 0x1000 == 0
         && var f := address / 0x1000;
            RunAt(before, f, n) && forall i: nat | i < |before| :: after[i] == (before[i] || f <= i < f + n)
  }

  /** n frames that were used are free now, the first one being the one that address lies in. */
  ghost predicate TakesBack(before: seq<bool>, after: seq<bool>, address: nat, n: nat) {
    && |after| == |before|
    && var f := address / 0x1000;
       AllUsed(before, f, f + n) && forall i: nat | i < |before| :: after[i] == (before[i] && !(f <= i < f + n))
  }

  class PhysicalMemoryManager {
    const tier: CpuTier
    var usedFrames: nat
    var totalFrames: nat
    var base: nat            // g_bitmap.start, as an address
    var bitmap: array<Byte>  // the bytes from g_bitmap.start to g_bitmap.end
    var searchBegin: nat     // g_bitmap.search_begin, as an address
    var zero: Range          // g_reserved[0]
    var kernel: Range        // g_reserved[1]

    /** The globals as the loader leaves them. */
    constructor (tier: CpuTier)
      ensures this.tier == tier && zero == Range(0, 0)
    {
      this.tier := tier;
      usedFrames, totalFrames, base, searchBegin := 0, 0, 0, 0;
      bitmap := new Byte[0];
      zero, kernel := Range(0, 0), Range(0, 0);
    }

    ghost function Contents(): seq<bool>
      reads this, bitmap
    {
      FrameBits(bitmap[..])
    }

    /** The abstract state. */
    ghost function Abs(): State
      reads this, bitmap
    {
      State(Contents(), totalFrames, usedFrames, if searchBegin >= base then searchBegin - base else 0, zero, kernel)
    }

    ghost predicate Valid()
      reads this, bitmap
    {
      && base <= searchBegin <= base + bitmap.Length
      && base + bitmap.Length + 32 <= WORD_RANGE
      && kernel.base + kernel.length <= WORD_RANGE
      && Sound(Abs())
    }

    /** The frame layout that pmm_initialize establishes for a map and a kernel image. */
    static function LayoutOf(entries: seq<Entry>, kernelStart: nat, kernelEnd: nat): Layout
      requires kernelStart <= kernelEnd
    {
      var total := TotalFrames(entries);
      var bitmapEnd := kernelEnd + (total + 7) / 8;
      var start := kernelStart / FRAME_SIZE;
      Layout(total, Range(0, 1), Range(start, (bitmapEnd + (FRAME_SIZE - 1)) / FRAME_SIZE - start))
    }

    /** The first loop of pmm_initialize: the highest end of the usable entries, 0 when there are none. */
    static method HighestAddress(entries: seq<Entry>) returns (highest: nat)
      ensures forall j | 0 <= j < |entries| && entries[j].kind == Usable :: entries[j].End() <= highest
      ensures highest == 0 || exists j | 0 <= j < |entries| :: entries[j].kind == Usable && entries[j].End() == highest
      ensures highest == Highest(entries, |entries|)
    {
      highest := 0;
      for i := 0 to |entries|
        invariant highest == Highest(entries, i)
      {
        if entries[i].kind == Usable {
          var current := entries[i].End();
          highest := if highest >= current then highest else current;
        }
      }
    }

    /** The first part of pmm_initialize: how many frames there are, where the bitmap and the reserved
        ranges lie, and every frame used. */
    method LayOut(entries: seq<Entry>, kernelStart: nat, kernelEnd: nat)
      requires zero.base == 0
      requires kernelStart < kernelEnd && kernelEnd + 0x2_0000 + FRAME_SIZE <= WORD_RANGE
      modifies this
      ensures fresh(bitmap) && base == searchBegin == kernelEnd
      ensures LayoutOf(entries, kernelStart, kernelEnd) == Layout(totalFrames, zero, kernel)
      ensures zero == Range(0, 1) && totalFrames <= MAX_FRAMES && bitmap.Length == (totalFrames + 7) / 8
      ensures var l := LayoutOf(entries, kernelStart, kernelEnd);
              && Initialized(entries, 0, l, Contents())
              && usedFrames == Sub32(l.total, FreedCount(entries, 0, l)) && usedFrames < WORD_RANGE
    {
      hide FrameBits, Overwritten, FullBytes, Initialized, FreedCount, Sub32, Highest;
      var highest := HighestAddress(entries);
      totalFrames := Min(highest / FRAME_SIZE, MAX_FRAMES);
      ghost var l := LayoutOf(entries, kernelStart, kernelEnd);

      base := kernelEnd;
      bitmap := new Byte[(totalFrames + 7) / 8];
      searchBegin := base;
      OverwrittenFull(bitmap[..]);
      SetRange(tier, bitmap, base, true, base, base + bitmap.Length);
      usedFrames := totalFrames;

      zero := zero.(length := 1);
      var kernelStartIndex := kernelStart / FRAME_SIZE;
      var kernelEndIndex := (base + bitmap.Length + (FRAME_SIZE - 1)) / FRAME_SIZE;
      kernel := Range(kernelStartIndex, kernelEndIndex - kernelStartIndex);
      assert l == Layout(totalFrames, zero, kernel);
      BlankBitmap(entries, l, bitmap[..]);
    }

    /** pmm_initialize.  The bitmap is put right behind the kernel image, where it must fit. */
    method Initialize(entries: seq<Entry>, kernelStart: nat, kernelEnd: nat)
      requires zero.base == 0
      requires kernelStart < kernelEnd && kernelEnd + 0x2_0000 + FRAME_SIZE <= WORD_RANGE
      requires AllSized(entries)
      modifies this
      ensures fresh(bitmap) && base == kernelEnd && searchBegin == kernelEnd
      ensures var l := LayoutOf(entries, kernelStart, kernelEnd);
              && totalFrames == l.total && zero == l.zero && kernel == l.kernel
              && bitmap.Length == (l.total + 7) / 8
              && Initialized(entries, |entries|, l, Contents())
              && usedFrames == Sub32(l.total, FreedCount(entries, |entries|, l))
      ensures Valid() && Tight(Abs())
      ensures forall f: nat :: kernel.Has(f) <==> PageMeets(f, kernelStart, base + bitmap.Length)
      ensures NoneWraps(entries)
              ==> forall f: nat ::
                    f < |Contents()| && !Contents()[f] <==> OughtToBeFree(entries, kernelStart, base + bitmap.Length, f)
      ensures var l := LayoutOf(entries, kernelStart, kernelEnd);
              && (Counted(Abs()) <==> Excess(entries, l, l.total) % WORD_RANGE == 0)
              && (|entries| <= 4096 ==> (Counted(Abs()) <==> NoFrameTwice(entries, l, l.total)))
      ensures var l := LayoutOf(entries, kernelStart, kernelEnd);
              NoneWrapsWrong(entries, l.total) ==> FreeIffUsable(entries, l, Contents())
    {
      hide FrameBits, Overwritten, FullBytes, Initialized, FreedCount, Freed, CountOpen, Sub32, Excess, NoFrameTwice, Sound, Counted, Tight, Highest,
           NoneWrapsWrong, AllSized, FreeIffUsable, NoneWraps, OughtToBeFree, PageMeets;
      LayOut(entries, kernelStart, kernelEnd);
      ghost var l := LayoutOf(entries, kernelStart, kernelEnd);

      for i := 0 to |entries|
        invariant fresh(bitmap) && base == searchBegin == kernelEnd
        invariant l == Layout(totalFrames, zero, kernel) && bitmap.Length == (totalFrames + 7) / 8
        invariant Initialized(entries, i, l, Contents())
        invariant usedFrames == Sub32(l.total, FreedCount(entries, i, l)) && usedFrames < WORD_RANGE
      {
        FreeEntry(entries, i, l);
      }
      InitializedPages(entries, kernelStart, kernelEnd, Abs());
    }

    /** The body of the second loop of pmm_initialize. */
    method FreeEntry(entries: seq<Entry>, i: nat, ghost l: Layout)
      requires i < |entries| && l == Layout(totalFrames, zero, kernel) && zero == Range(0, 1)
      requires bitmap.Length == (totalFrames + 7) / 8 && base + bitmap.Length + 32 <= WORD_RANGE
      requires Initialized(entries, i, l, Contents())
      requires usedFrames == Sub32(l.total, FreedCount(entries, i, l)) && usedFrames < WORD_RANGE
      modifies this`usedFrames, bitmap
      ensures Initialized(entries, i + 1, l, Contents())
      ensures usedFrames == Sub32(l.total, FreedCount(entries, i + 1, l)) && usedFrames < WORD_RANGE
    {
      hide FrameBits, Initialized, FreedCount, Freed, CountOpen, Sub32;
      EntryInitialized(entries, i, l, Contents());
      if entries[i].kind == Usable {
        var startFrame, endFrame := entries[i].StartFrame(totalFrames), entries[i].EndFrame(totalFrames);
        if startFrame < endFrame {
          Sub32Twice(l.total, FreedCount(entries, i, l), CountOpen(l, startFrame, endFrame));
          FreeOpenFrames(l, startFrame, endFrame);
        }
      }
      CountNext(entries, i, l);
    }

    /** The inner loop of pmm_initialize: the frames of one entry are freed piece by piece, around
        the reserved ranges. */
    method FreeOpenFrames(ghost l: Layout, startFrame: nat, endFrame: nat)
      requires l == Layout(totalFrames, zero, kernel) && zero.base <= kernel.base
      requires zero == Range(0, 1)
      requires startFrame < endFrame <= totalFrames && bitmap.Length == (totalFrames + 7) / 8
      requires base + bitmap.Length + 32 <= WORD_RANGE && usedFrames < WORD_RANGE
      modifies this`usedFrames, bitmap
      ensures Contents() == Freed(old(Contents()), l, startFrame, endFrame)
      ensures usedFrames == Sub32(old(usedFrames), CountOpen(l, startFrame, endFrame))
    {
      hide FrameBits, Overwritten, Freed, CountOpen, Sub32;
      var runner := startFrame;
      ghost var was, counter := Contents(), usedFrames;
      FreedNone(was, l, startFrame, counter);
      for i := 0 to 2
        invariant startFrame <= runner
        invariant i >= 1 ==> 1 <= runner
        invariant i == 2 ==> l.kernel.base + l.kernel.length <= runner || endFrame <= runner
        invariant Contents() == Freed(was, l, startFrame, Min(runner, endFrame))
        invariant usedFrames == Sub32(counter, CountOpen(l, startFrame, Min(runner, endFrame)))
      {
        var reserved := if i == 0 then zero else kernel;
        var pieceEnd := Min(reserved.base, endFrame);
        if runner < pieceEnd {
          FreePiece(was, l, startFrame, runner, pieceEnd);
          Sub32Twice(counter, CountOpen(l, startFrame, runner), pieceEnd - runner);
          FreeFrameRange(runner, pieceEnd);
        }
        ghost var next := if runner >= reserved.base + reserved.length then runner else reserved.base + reserved.length;
        ghost var from := if runner < pieceEnd then pieceEnd else Min(runner, endFrame);
        SkipReserved(was, l, startFrame, from, Min(next, endFrame));
        runner := if runner >= reserved.base + reserved.length then runner else reserved.base + reserved.length;
      }
      if runner < endFrame {
        FreePiece(was, l, startFrame, runner, endFrame);
        Sub32Twice(counter, CountOpen(l, startFrame, runner), endFrame - runner);
        FreeFrameRange(runner, endFrame);
      }
    }

    /** find_free_byte: the first address in [begin, end) whose byte is not full. */
    method FindFreeByte(begin: nat, end: nat) returns (address: Option<nat>)
      requires base <= begin && end <= base + bitmap.Length
      ensures match address
              case Some(a) => && begin <= a < end && bitmap[a - base] != 0xFF
                              && FullBytes(bitmap[..], begin - base, a - base)
              case None => end <= begin || FullBytes(bitmap[..], begin - base, end - base)
    {
      var current := begin;
      while current < end
        invariant begin <= current
        invariant forall i | begin - base <= i < current - base && i < bitmap.Length :: bitmap[i] == 0xFF
      {
        if bitmap[current - base] != 0xFF {
          return Some(current);
        }
        current := current + 1;
      }
      return None;
    }

    /** is_frame_range_used. */
    method IsFrameRangeUsed(startFrame: nat, endFrame: nat) returns (used: bool)
      requires startFrame < endFrame <= 8 * bitmap.Length
      ensures used <==> AllUsed(Contents(), startFrame, endFrame)
    {
      hide FrameBits, FrontMask, EndMask, AndByte;
      MaskedUsedIs(bitmap[..], startFrame, endFrame);
      var startByte, endByte := startFrame / 8, (endFrame - 1) / 8;
      var frontMask, endMask := FrontMask(startFrame % 8), EndMask((endFrame - 1) % 8);
      if startByte == endByte {
        var mask := AndByte(frontMask, endMask);
        return AndByte(bitmap[startByte], mask) == mask;
      }
      if AndByte(bitmap[startByte], frontMask) != frontMask {
        return false;
      }
      var free := FindFreeByte(base + startByte + 1, base + endByte);
      if free.Some? {
        return false;
      }
      return AndByte(bitmap[endByte], endMask) == endMask;
    }

    /** free_frame_range: the bits of the range are cleared and counted; the counter is an
        unsigned 32-bit number. */
    method FreeFrameRange(startFrame: nat, endFrame: nat)
      requires startFrame < endFrame <= 8 * bitmap.Length
      requires base + bitmap.Length + 32 <= WORD_RANGE
      modifies this`usedFrames, bitmap
      ensures usedFrames == Sub32(old(usedFrames), endFrame - startFrame)
      ensures Contents() == Overwritten(old(Contents()), startFrame, endFrame, false)
    {
      MarkFreeFrames(bitmap[..], startFrame, endFrame);
      usedFrames := Sub32(usedFrames, endFrame - startFrame);
      var byteStart, byteEnd := startFrame / 8, (endFrame - 1) / 8;
      var below, above := BelowMask(startFrame % 8), AboveMask((endFrame - 1) % 8);
      if byteStart == byteEnd {
        bitmap[byteEnd] := AndByte(bitmap[byteEnd], OrByte(below, above));
      } else {
        bitmap[byteStart] := AndByte(bitmap[byteStart], below);
        SetRange(tier, bitmap, base, false, base + byteStart + 1, base + byteEnd);
        bitmap[byteEnd] := AndByte(bitmap[byteEnd], above);
      }
      assert bitmap[..] == MarkFree(old(bitmap[..]), startFrame, endFrame);
    }

    /** set_frame_used: one bit is set and counted; the new byte is returned. */
    method SetFrameUsed(k: nat, oldValue: Byte, bitIndex: nat) returns (value: Byte)
      requires k < bitmap.Length && bitIndex < 8 && bitmap[k] == oldValue
      modifies this`usedFrames, bitmap
      ensures usedFrames == (old(usedFrames) + 1) % WORD_RANGE
      ensures Contents() == Overwritten(old(Contents()), 8 * k + bitIndex, 8 * k + bitIndex + 1, true)
      ensures value == 0xFF <==> FullByte(Contents(), k)
    {
      value := OrByte(oldValue, Narrow(Shl(1, bitIndex)));
      bitmap[k] := value;
      usedFrames := (usedFrames + 1) % WORD_RANGE;
      SetOneBit(old(bitmap[..]), 8 * k + bitIndex, bitmap[..]);
      FullByteIs(bitmap[..], k);
    }

    /** set_frame_free: one bit is cleared and counted. */
    method SetFrameFree(k: nat, bitIndex: nat)
      requires k < bitmap.Length && bitIndex < 8
      modifies this`usedFrames, bitmap
      ensures usedFrames == Sub32(old(usedFrames), 1)
      ensures Contents() == Overwritten(old(Contents()), 8 * k + bitIndex, 8 * k + bitIndex + 1, false)
    {
      bitmap[k] := AndByte(bitmap[k], Narrow(Not(Shl(1, bitIndex), 32)));
      usedFrames := Sub32(usedFrames, 1);
      ClearOneBit(old(bitmap[..]), 8 * k + bitIndex, bitmap[..]);
    }

    /** The two passes of pmm_allocate_frame: the byte with the first free frame at or above the
        hint, or else with the first one below it. */
    method FindHintedByte() returns (address: Option<nat>)
      requires Valid()
      ensures var answer := SearchFrom(Contents(), 8 * Abs().hint, 1);
              match address
              case None => answer == None
              case Some(a) => && base <= a < base + bitmap.Length
                              && var free := Not(bitmap[a - base], 8);
                                 free != 0 && TrailingZeros(free) < 8
                                 && answer == Some(8 * (a - base) + TrailingZeros(free))
    {
      hide Sound, FrameBits, SearchFrom, FullBytes, NoFit, Not, TrailingZeros;
      ghost var was, s := bitmap[..], Abs();
      address := FindFreeByte(searchBegin, base + bitmap.Length);
      if address.None? {
        NoFreeFrame(was, searchBegin - base, |was|);
        address := FindFreeByte(base, searchBegin);
        if address.None? {
          NoFreeFrame(was, 0, searchBegin - base);
          NotFound(s, 1);
        } else {
          FoundBelow(was, s, address.value - base);
        }
      } else {
        FoundAbove(was, s, address.value - base);
      }
    }

    /** pmm_allocate_frame. */
    method AllocateFrame() returns (address: nat)
      requires Valid()
      modifies this`usedFrames, this`searchBegin, bitmap
      ensures Valid()
      ensures Abs() == Alloc(old(Abs()), 1).0
      ensures address == AddressOf(Alloc(old(Abs()), 1).1)
      ensures HandsOut(old(Contents()), Contents(), address, 1)
    {
      hide HandsOut, Alloc, Sound, FrameBits, SearchFrom, FullByte, Not, TrailingZeros, Overwritten, AddressOf;
      ghost var s := Abs();
      AllocKeepsSound(s, 1);
      var byteAddress := FindHintedByte();
      if byteAddress.None? {
        DeniedIs(s, 1);
        return 0;
      }
      var k := byteAddress.value - base;
      var value := bitmap[k];
      var bitIndex := TrailingZeros(Not(value, 8));
      value := SetFrameUsed(k, value, bitIndex);
      searchBegin := byteAddress.value + if value == 0xFF then 1 else 0;
      GrantedIs(s, 8 * k + bitIndex, 1, k, Contents(), searchBegin - base);
      return (8 * k + bitIndex) * FRAME_SIZE;
    }

    /** pmm_allocate_contiguous_frames. */
    method AllocateContiguousFrames(frames: nat) returns (address: nat)
      requires Valid() && frames < WORD_RANGE
      modifies this`usedFrames, this`searchBegin, bitmap
      ensures Valid()
      ensures Abs() == Alloc(old(Abs()), frames).0
      ensures address == AddressOf(Alloc(old(Abs()), frames).1)
      ensures HandsOut(old(Contents()), Contents(), address, frames)
    {
      hide HandsOut, Alloc, Sound, FrameBits, SearchFrom, FullByte, Overwritten, AddressOf;
      ghost var s := Abs();
      AllocKeepsSound(s, frames);
      if frames == 0 {
        DeniedIs(s, frames);
        return 0;
      }
      SoundBounds(s);
      var run := FindContiguousFrames(tier, Bitmap(base, bitmap[..]), searchBegin, frames);
      if run.length < frames {
        DeniedIs(s, frames);
        return 0;
      }
      RunInside(s, frames, run.startFrame);
      var full := MarkRunUsed(run.startFrame, frames);
      var byteEnd := (run.startFrame + frames - 1) / 8;
      usedFrames := (usedFrames + frames) % WORD_RANGE;
      searchBegin := base + byteEnd + if full then 1 else 0;
      GrantedIs(s, run.startFrame, frames, byteEnd, Contents(), searchBegin - base);
      return run.startFrame * FRAME_SIZE;
    }

    /** The marking part of pmm_allocate_contiguous_frames; says whether the last byte is full now. */
    method MarkRunUsed(startFrame: nat, frames: nat) returns (full: bool)
      requires 0 < frames && startFrame + frames <= 8 * bitmap.Length
      requires base + bitmap.Length + 32 <= WORD_RANGE
      modifies bitmap
      ensures Contents() == Overwritten(old(Contents()), startFrame, startFrame + frames, true)
      ensures full <==> FullByte(Contents(), (startFrame + frames - 1) / 8)
    {
      hide OrByte, AndByte, FrontMask, EndMask, FrameBits, FullByte;
      MarkUsedFrames(bitmap[..], startFrame, startFrame + frames);
      var byteStart := startFrame / 8;
      var incEndFrame := startFrame + frames - 1;
      var byteEnd := incEndFrame / 8;
      var frontMask, endMask := FrontMask(startFrame % 8), EndMask(incEndFrame % 8);
      var value := bitmap[byteEnd];
      if byteStart == byteEnd {
        value := OrByte(value, AndByte(frontMask, endMask));
      } else {
        bitmap[byteStart] := OrByte(bitmap[byteStart], frontMask);
        SetRange(tier, bitmap, base, true, base + byteStart + 1, base + byteEnd);
        value := OrByte(value, endMask);
      }
      bitmap[byteEnd] := value;
      assert bitmap[..] == MarkUsed(old(bitmap[..]), startFrame, startFrame + frames);
      FullByteIs(bitmap[..], byteEnd);
      full := value == 0xFF;
    }

    /** pmm_free_frame. */
    method FreeFrame(address: nat) returns (result: Outcome)
      requires Valid() && address < WORD_RANGE
      modifies this`usedFrames, this`searchBegin, bitmap
      ensures Valid()
      ensures (Abs(), result) == Free(old(Abs()), address / FRAME_SIZE, 1)
      ensures if result == Success then TakesBack(old(Contents()), Contents(), address, 1) else Contents() == old(Contents())
    {
      hide TakesBack, Free, Sound, FrameBits, Overwritten, Shl, And, SelectLower, Sub32;
      var index := address / FRAME_SIZE;
      ghost var s := Abs();
      FreeKeepsSound(s, address, 1);
      SoundBounds(s);
      FreeIs(s, index, 1);
      if index >= totalFrames {
        return OutOfRange;
      }
      WrappedMember(index, zero);
      WrappedMember(index, kernel);
      if Sub32(index, zero.base) < zero.length || Sub32(index, kernel.base) < kernel.length {
        return Reserved;
      }
      ghost var was := bitmap[..];
      var byteIndex, bitIndex := index / 8, index % 8;
      SingleBitTest(was, index);
      if And(bitmap[byteIndex], Shl(1, bitIndex)) == 0 {
        assert !Contents()[index];
        return Failed;
      }
      SetFrameFree(byteIndex, bitIndex);
      SelectLowerIsMinimum(base + byteIndex, searchBegin);
      searchBegin := SelectLower(base + byteIndex, searchBegin);
      return Success;
    }

    /** pmm_free_contiguous_frames. */
    method FreeContiguousFrames(address: nat, frames: nat) returns (result: Outcome)
      requires Valid() && address < WORD_RANGE && frames < WORD_RANGE
      modifies this`usedFrames, this`searchBegin, bitmap
      ensures Valid()
      ensures (Abs(), result) == Free(old(Abs()), address / FRAME_SIZE, frames)
      ensures if result == Success then TakesBack(old(Contents()), Contents(), address, frames) else Contents() == old(Contents())
    {
      hide TakesBack, Free, Sound, FrameBits, Overwritten, SelectLower, Sub32, WrappedOverlap;
      var index := address / FRAME_SIZE;
      ghost var s := Abs();
      FreeKeepsSound(s, address, frames);
      SoundBounds(s);
      FreeIs(s, index, frames);
      if frames == 0 {
        return ZeroFrames;
      }
      if index >= totalFrames || frames > totalFrames - index {
        return OutOfRange;
      }
      WrappedOverlapIsOverlap(index, frames, zero);
      WrappedOverlapIsOverlap(index, frames, kernel);
      if WrappedOverlap(index, frames, zero) || WrappedOverlap(index, frames, kernel) {
        return Reserved;
      }
      var used := IsFrameRangeUsed(index, index + frames);
      if !used {
        return Failed;
      }
      FreeFrameRange(index, index + frames);
      SelectLowerIsMinimum(base + index / 8, searchBegin);
      searchBegin := SelectLower(base + index / 8, searchBegin);
      return Success;
    }
  }

  // ---- initialization ----

  /** A bitmap filled with ones has no free frame yet. */
  lemma BlankBitmap(entries: seq<Entry>, l: Layout, bytes: seq<Byte>)
    requires FullBytes(bytes, 0, |bytes|)
    ensures Initialized(entries, 0, l, FrameBits(bytes))
    ensures forall counter: nat | counter < WORD_RANGE :: counter == Sub32(counter, FreedCount(entries, 0, l))
  {
    forall f: nat | f < |FrameBits(bytes)|
      ensures FrameBits(bytes)[f]
    {
      ByteOnes(f % 8);
    }
  }

  lemma OverwrittenFull(bytes: seq<Byte>)
    ensures FullBytes(Overwritten(bytes, 0, |bytes|, 0xFF), 0, |bytes|)
  {
  }

  lemma FreedNone(fs: seq<bool>, l: Layout, lo: nat, counter: nat)
    requires counter < WORD_RANGE
    ensures Freed(fs, l, lo, lo) == fs && Sub32(counter, CountOpen(l, lo, lo)) == counter
  {
  }

  lemma Sub32Twice(x: nat, a: nat, b: nat)
    ensures Sub32(Sub32(x, a), b) == Sub32(x, a + b) < WORD_RANGE
  {
  }

  lemma {:induction false} OpenNone(l: Layout, lo: nat, hi: nat)
    requires hi <= lo
    ensures CountOpen(l, lo, hi) == 0
  {
  }

  lemma CountNext(entries: seq<Entry>, n: nat, l: Layout)
    requires n < |entries|
    ensures var e := entries[n];
            && (e.kind == Usable ==> FreedCount(entries, n + 1, l) == FreedCount(entries, n, l) + CountOpen(l, e.StartFrame(l.total), e.EndFrame(l.total)))
            && (e.kind != Usable || e.StartFrame(l.total) >= e.EndFrame(l.total) ==> FreedCount(entries, n + 1, l) == FreedCount(entries, n, l))
  {
    OpenNone(l, entries[n].StartFrame(l.total), entries[n].StartFrame(l.total));
  }

  /** The free frames are exactly the ones that should be free. */
  ghost predicate FreeIffUsable(entries: seq<Entry>, l: Layout, fs: seq<bool>) {
    forall f: nat | f < |fs| :: !fs[f] <==> InUsableMemory(entries, l, f)
  }

  /** The state that initialization leaves satisfies the invariant, and its counter is right iff the
      excess is a multiple of 2^32. */
  lemma InitializedIsSound(entries: seq<Entry>, l: Layout, s: State)
    requires Initialized(entries, |entries|, l, s.fs) && AllSized(entries)
    requires s.total == l.total <= MAX_FRAMES && s.zero == l.zero == Range(0, 1) && s.kernel == l.kernel
    requires s.kernel.length > 0 && |s.fs| == 8 * ((s.total + 7) / 8) && s.hint == 0
    requires s.used == Sub32(l.total, FreedCount(entries, |entries|, l))
    ensures Sound(s) && Tight(s)
    ensures Counted(s) <==> Excess(entries, l, l.total) % WORD_RANGE == 0
    ensures |entries| <= 4096 ==> (Counted(s) <==> NoFrameTwice(entries, l, l.total))
    ensures NoneWrapsWrong(entries, l.total) ==> FreeIffUsable(entries, l, s.fs)
  {
    CounterAfterInit(entries, l, s.fs);
    if |entries| <= 4096 {
      CounterRightIff(entries, l, s.fs);
    }
    if NoneWrapsWrong(entries, l.total) {
      FreedIsUsable(entries, l);
    }
  }

  /** The frame list that initialization leaves. */
  ghost function InitialFrames(entries: seq<Entry>, l: Layout): (fs: seq<bool>)
    ensures Initialized(entries, |entries|, l, fs) && l.total <= |fs|
  {
    seq(8 * ((l.total + 7) / 8), f requires 0 <= f < 8 * ((l.total + 7) / 8) => !FreeAfter(entries, |entries|, l, f))
  }

  /** Two megabytes of memory listed twice, and a kernel of 64 KiB at one megabyte: the counter that
      initialization leaves is not the number of used frames. */
  lemma DoubledMapMiscounts()
    ensures var entries := [Entry(0, 0x20_0000, Usable), Entry(0, 0x20_0000, Usable)];
            var l := PhysicalMemoryManager.LayoutOf(entries, 0x10_0000, 0x11_0000);
            && AllSized(entries) && NoneWrapsWrong(entries, l.total) && l.total == 512
            && Sub32(l.total, FreedCount(entries, 2, l)) != CountUsed(InitialFrames(entries, l), l.total)
  {
    hide FreedCount, CountUsed;
    var e := Entry(0, 0x20_0000, Usable);
    assert Highest([e, e], 0) == 0 && Highest([e, e], 1) == 0x20_0000;
    assert Highest([e, e], 2) == 0x20_0000;
    var l := PhysicalMemoryManager.LayoutOf([e, e], 0x10_0000, 0x11_0000);
    assert l.total == 512 && l.kernel.base == 256;
    DuplicateMiscounts(e, l, InitialFrames([e, e], l), 1);
  }

  /** The kernel range is the pages that the kernel image and the bitmap behind it touch. */
  lemma KernelPages(entries: seq<Entry>, kernelStart: nat, kernelEnd: nat)
    requires kernelStart < kernelEnd
    ensures var l := PhysicalMemoryManager.LayoutOf(entries, kernelStart, kernelEnd);
            forall f: nat :: l.kernel.Has(f) <==> PageMeets(f, kernelStart, kernelEnd + (l.total + 7) / 8)
  {
    var end := kernelEnd + (TotalFrames(entries) + 7) / 8;
    forall f: nat
      ensures kernelStart / FRAME_SIZE <= f < (end + (FRAME_SIZE - 1)) / FRAME_SIZE <==> PageMeets(f, kernelStart, end)
    {
    }
  }

  /** What initialization leaves, in bytes. */
  lemma InitializedPages(entries: seq<Entry>, kernelStart: nat, kernelEnd: nat, s: State)
    requires kernelStart < kernelEnd && AllSized(entries)
    requires var l := PhysicalMemoryManager.LayoutOf(entries, kernelStart, kernelEnd);
             && Initialized(entries, |entries|, l, s.fs)
             && s.total == l.total && s.zero == l.zero && s.kernel == l.kernel
             && |s.fs| == 8 * ((s.total + 7) / 8) && s.hint == 0
             && s.used == Sub32(l.total, FreedCount(entries, |entries|, l))
    ensures var l := PhysicalMemoryManager.LayoutOf(entries, kernelStart, kernelEnd);
            && Sound(s) && Tight(s)
            && (Counted(s) <==> Excess(entries, l, l.total) % WORD_RANGE == 0)
            && (|entries| <= 4096 ==> (Counted(s) <==> NoFrameTwice(entries, l, l.total)))
            && (NoneWrapsWrong(entries, l.total) ==> FreeIffUsable(entries, l, s.fs))
    ensures var bitmapEnd := kernelEnd + (s.total + 7) / 8;
            && (forall f: nat :: s.kernel.Has(f) <==> PageMeets(f, kernelStart, bitmapEnd))
            && (NoneWraps(entries)
                ==> forall f: nat :: f < |s.fs| && !s.fs[f] <==> OughtToBeFree(entries, kernelStart, bitmapEnd, f))
  {
    hide Initialized, FreedCount, Sub32, Excess, NoFrameTwice, Sound, Counted, Tight, NoneWrapsWrong, AllSized, FreeIffUsable,
         NoneWraps, OughtToBeFree, PageMeets, Highest;
    var l := PhysicalMemoryManager.LayoutOf(entries, kernelStart, kernelEnd);
    KernelPages(entries, kernelStart, kernelEnd);
    assert l.kernel.length > 0 by {
      KernelNotEmpty(entries, kernelStart, kernelEnd);
    }
    InitializedIsSound(entries, l, s);
    if NoneWraps(entries) {
      FreeIsRight(entries, l, kernelStart, kernelEnd + (s.total + 7) / 8, s.fs);
    }
  }

  lemma KernelNotEmpty(entries: seq<Entry>, kernelStart: nat, kernelEnd: nat)
    requires kernelStart < kernelEnd
    ensures PhysicalMemoryManager.LayoutOf(entries, kernelStart, kernelEnd).kernel.length > 0
  {
  }

  lemma FreeIsRight(entries: seq<Entry>, l: Layout, kernelStart: nat, bitmapEnd: nat, fs: seq<bool>)
    requires AllSized(entries) && NoneWraps(entries) && l.total == TotalFrames(entries) <= |fs|
    requires l.zero == Range(0, 1) && forall g: nat :: l.kernel.Has(g) <==> PageMeets(g, kernelStart, bitmapEnd)
    requires Initialized(entries, |entries|, l, fs)
    ensures forall f: nat :: f < |fs| && !fs[f] <==> OughtToBeFree(entries, kernelStart, bitmapEnd, f)
  {
    hide OughtToBeFree, PageMeets, NoneWraps;
    forall f: nat
      ensures f < |fs| && !fs[f] <==> OughtToBeFree(entries, kernelStart, bitmapEnd, f)
    {
      FreedOughtToBe(entries, l, kernelStart, bitmapEnd, f);
    }
  }

  /** Over every run, whatever callers do: the bytes of a grant lie in the 32-bit space, above the first
      page, and are neither kernel image nor bitmap. */
  lemma GrantedBytes(s: State, kernelStart: nat, bitmapEnd: nat, ops: seq<Op>, g: Range)
    requires Sound(s) && forall f: nat :: s.kernel.Has(f) <==> PageMeets(f, kernelStart, bitmapEnd)
    requires g in Grants(s, ops) && kernelStart < bitmapEnd
    ensures 0x1000 <= g.base * 0x1000 && (g.base + g.length) * 0x1000 <= 0x1_0000_0000
    ensures bitmapEnd <= g.base * 0x1000 || (g.base + g.length) * 0x1000 <= kernelStart
  {
    EveryRunIsSafe(s, ops);
    hide Grants, Run, PageMeets, Sound;
    assert s.total <= MAX_FRAMES by {
      SoundBounds(s);
    }
    forall f: nat | g.Has(f)
      ensures !PageMeets(f, kernelStart, bitmapEnd)
    {
      assert !s.kernel.Has(f);
    }
    PagesApart(g.base, g.length, kernelStart, bitmapEnd);
  }

  /** Pages that each miss an interval miss it together. */
  lemma {:induction false} PagesApart(base: nat, n: nat, lo: nat, hi: nat)
    requires n > 0 && lo < hi && forall f: nat | base <= f < base + n :: !PageMeets(f, lo, hi)
    ensures hi <= base * 0x1000 || (base + n) * 0x1000 <= lo
    decreases n
  {
    assert !PageMeets(base + n - 1, lo, hi);
    if n > 1 {
      PagesApart(base, n - 1, lo, hi);
    }
  }

  /** From initialization on, over every run of callers that free only what they hold: holdings are
      disjoint, everything held is a frame that the map made free, with addresses that fit 32 bits,
      and whatever the map made free is either held or still free.  When no usable entry wraps in a
      wrong way, what the map made free is the frames wholly inside a usable entry, below the frame
      count and outside the reserved ranges.  The counter need not be right. */
  lemma HeldFramesAreUsable(entries: seq<Entry>, l: Layout, s: State, callers: nat, ops: seq<CallerOp>)
    requires Initialized(entries, |entries|, l, s.fs) && AllSized(entries) && Sound(s)
    requires s.total == l.total && s.zero == l.zero && s.kernel == l.kernel
    requires LegalRun(Shared(s, seq(callers, _ => {})), ops)
    ensures var c := CallerRun(Shared(s, seq(callers, _ => {})), ops);
            && Disjoint(c.holdings)
            && (forall f: nat | Held(c.holdings, f) :: FreeAfter(entries, |entries|, l, f) && (f + 1) * FRAME_SIZE <= WORD_RANGE)
            && (forall f: nat | FreeAfter(entries, |entries|, l, f) :: f < |c.s.fs| && (Held(c.holdings, f) <==> c.s.fs[f]))
    ensures NoneWrapsWrong(entries, l.total)
            ==> var c := CallerRun(Shared(s, seq(callers, _ => {})), ops);
                && (forall f: nat | Held(c.holdings, f) :: InUsableMemory(entries, l, f))
                && (forall f: nat | InUsableMemory(entries, l, f) :: f < |c.s.fs| && (Held(c.holdings, f) <==> c.s.fs[f]))
  {
    var start := Shared(s, seq(callers, _ => {}));
    assert Fair(s.fs, start);
    EveryCallerRunIsFair(s.fs, start, ops);
    if NoneWrapsWrong(entries, l.total) {
      FreedIsUsable(entries, l);
    }
  }

  lemma SoundBounds(s: State)
    requires Sound(s)
    ensures s.total <= |s.fs| <= 8 * 0x2_0000 && s.total <= MAX_FRAMES && s.used < WORD_RANGE
    ensures s.zero == Range(0, 1) && s.kernel.length > 0
  {
  }

  /** The outcomes of a release, one by one, and the state after a success. */
  lemma FreeIs(s: State, f: nat, n: nat)
    requires s.total <= |s.fs| && s.used < WORD_RANGE
    ensures n == 0 ==> Free(s, f, n) == (s, ZeroFrames)
    ensures n > 0 && (f >= s.total || f + n > s.total) ==> Free(s, f, n) == (s, OutOfRange)
    ensures n > 0 && f + n <= s.total && (Range(f, n).Meets(s.zero) || Range(f, n).Meets(s.kernel))
            ==> Free(s, f, n) == (s, Reserved)
    ensures n > 0 && f + n <= s.total && !Range(f, n).Meets(s.zero) && !Range(f, n).Meets(s.kernel)
            ==> if AllUsed(s.fs, f, f + n) then Free(s, f, n) == (Returned(s, f, n), Success)
                else Free(s, f, n) == (s, Failed)
  {
  }

  lemma AllocKeepsSound(s: State, n: nat)
    requires Sound(s)
    ensures Sound(Alloc(s, n).0)
    ensures HandsOut(s.fs, Alloc(s, n).0.fs, AddressOf(Alloc(s, n).1), n)
  {
    hide Alloc, Sound, Counted, HandsOut, Overwritten, RunAt, NoFit, IsAnswer, HintAfterGrant, IsReserved;
    AllocStep(s, n);
    if Alloc(s, n).1.Some? {
      RunHandedOut(s.fs, Alloc(s, n).1.value, n);
    } else {
      NothingHandedOut(s.fs, n);
    }
  }

  lemma NothingHandedOut(fs: seq<bool>, n: nat)
    ensures HandsOut(fs, fs, 0, n)
  {
  }

  lemma RunHandedOut(fs: seq<bool>, f: nat, n: nat)
    requires f > 0 && RunAt(fs, f, n)
    ensures HandsOut(fs, Overwritten(fs, f, f + n, true), f * FRAME_SIZE, n)
  {
    assert f * FRAME_SIZE / 0x1000 == f && f * FRAME_SIZE % 0x1000 == 0;
  }

  lemma FreeKeepsSound(s: State, address: nat, n: nat)
    requires Sound(s)
    ensures Sound(Free(s, address / FRAME_SIZE, n).0)
    ensures var (s', outcome) := Free(s, address / FRAME_SIZE, n);
            if outcome == Success then TakesBack(s.fs, s'.fs, address, n) else s'.fs == s.fs
  {
    hide Free, Sound, Counted, TakesBack, Overwritten, IsReserved, Sub32;
    FreeStep(s, address / FRAME_SIZE, n);
    SoundBounds(s);
    if Free(s, address / FRAME_SIZE, n).1 == Success {
      RunTakenBack(s.fs, address, n);
    }
  }

  lemma RunTakenBack(fs: seq<bool>, address: nat, n: nat)
    requires AllUsed(fs, address / 0x1000, address / 0x1000 + n)
    ensures TakesBack(fs, Overwritten(fs, address / 0x1000, address / 0x1000 + n, false), address, n)
  {
  }

  /** A search without an answer, or a request for no frames, changes nothing. */
  lemma DeniedIs(s: State, n: nat)
    requires n == 0 || SearchFrom(s.fs, 8 * s.hint, n) == None
    ensures Alloc(s, n) == (s, None) && AddressOf(Alloc(s, n).1) == 0
  {
  }

  /** The first byte with a free frame, found at or above the hint. */
  lemma FoundAbove(bytes: seq<Byte>, s: State, k: nat)
    requires s.fs == FrameBits(bytes) && s.hint <= k < |bytes|
    requires FullBytes(bytes, s.hint, k)
    requires bytes[k] != 0xFF
    ensures Not(bytes[k], 8) != 0 && TrailingZeros(Not(bytes[k], 8)) < 8
    ensures SearchFrom(s.fs, 8 * s.hint, 1) == Some(8 * k + TrailingZeros(Not(bytes[k], 8)))
  {
    FirstFreeFrame(bytes, s.hint, k, |bytes|);
  }

  /** The first byte with a free frame, found below the hint after nothing was found above it. */
  lemma FoundBelow(bytes: seq<Byte>, s: State, k: nat)
    requires s.fs == FrameBits(bytes) && k < s.hint <= |bytes|
    requires NoFit(s.fs, 8 * s.hint, |s.fs|, 1)
    requires FullBytes(bytes, 0, k)
    requires bytes[k] != 0xFF
    ensures Not(bytes[k], 8) != 0 && TrailingZeros(Not(bytes[k], 8)) < 8
    ensures SearchFrom(s.fs, 8 * s.hint, 1) == Some(8 * k + TrailingZeros(Not(bytes[k], 8)))
  {
    FirstFreeFrame(bytes, 0, k, s.hint);
  }

  lemma NotFound(s: State, n: nat)
    requires NoFit(s.fs, 8 * s.hint, |s.fs|, n) && NoFit(s.fs, 0, 8 * s.hint, n)
    ensures SearchFrom(s.fs, 8 * s.hint, n) == None
  {
  }

  lemma RunInside(s: State, n: nat, f: nat)
    requires SearchFrom(s.fs, 8 * s.hint, n) == Some(f)
    ensures f + n <= |s.fs|
  {
  }

  /** The state after a search has been answered and its frames marked. */
  lemma GrantedIs(s: State, f: nat, n: nat, last: nat, fs: seq<bool>, hint: nat)
    requires n > 0 && SearchFrom(s.fs, 8 * s.hint, n) == Some(f)
    requires 8 * last <= f + n - 1 < 8 * last + 8
    requires fs == Overwritten(s.fs, f, f + n, true)
    requires hint == last + if FullByte(fs, last) then 1 else 0
    ensures Alloc(s, n) == (State(fs, s.total, (s.used + n) % WORD_RANGE, hint, s.zero, s.kernel), Some(f))
    ensures AddressOf(Alloc(s, n).1) == f * FRAME_SIZE
  {
  }

  /** Setting one bit of the bitmap. */
  lemma SetOneBit(was: seq<Byte>, f: nat, now: seq<Byte>)
    requires f < 8 * |was|
    requires now == was[f / 8 := OrByte(was[f / 8], Narrow(Shl(1, f % 8)))]
    ensures FrameBits(now) == Overwritten(FrameBits(was), f, f + 1, true)
  {
    forall k: nat, p: nat | k < |was| && p < 8
      ensures Bit(now[k], p) == if f <= 8 * k + p < f + 1 then true else Bit(was[k], p)
    {
      OrBits(was[f / 8], Narrow(Shl(1, f % 8)), p);
      SingleBit(f % 8, p);
    }
    BytesOverwritten(was, now, f, f + 1, true);
  }

  /** Clearing one bit of the bitmap. */
  lemma ClearOneBit(was: seq<Byte>, f: nat, now: seq<Byte>)
    requires f < 8 * |was|
    requires now == was[f / 8 := AndByte(was[f / 8], Narrow(Not(Shl(1, f % 8), 32)))]
    ensures FrameBits(now) == Overwritten(FrameBits(was), f, f + 1, false)
  {
    forall k: nat, p: nat | k < |was| && p < 8
      ensures Bit(now[k], p) == if f <= 8 * k + p < f + 1 then false else Bit(was[k], p)
    {
      AndBits(was[f / 8], Narrow(Not(Shl(1, f % 8), 32)), p);
      SingleBit(f % 8, p);
    }
    BytesOverwritten(was, now, f, f + 1, false);
  }

  /** is_frame_used. */
  lemma SingleBitTest(bytes: seq<Byte>, f: nat)
    requires f < 8 * |bytes|
    ensures And(bytes[f / 8], Shl(1, f % 8)) != 0 <==> FrameBits(bytes)[f]
  {
    var b := f % 8;
    var x := And(bytes[f / 8], Shl(1, b));
    forall p: nat
      ensures Bit(x, p) <==> Bit(bytes[f / 8], p) && p == b
    {
      AndBits(bytes[f / 8], Shl(1, b), p);
      ShlBits(1, b, p);
      if p > b {
        ZeroHasNoBits(p - b - 1);
        assert Bit(1, p - b) == Bit(0, p - b - 1);
      }
    }
    ByteFrames(bytes, f / 8, b);
    if x == 0 {
      ZeroHasNoBits(b);
      assert !Bit(x, b);
    } else {
      assert Bit(x, TrailingZeros(x));
    }
  }
}
