/** The firmware's memory map (section 15.1, INT 15H E820H, of the ACPI Specification) and the
    frame list that initialization must make of it. */
module E820 {
  import opened Allocator
  import opened Arithmetic
  import opened Bits
  import opened Sequences

  const RANGE_64: nat := 0x1_0000_0000_0000_0000

  datatype MemoryType = Usable | ReservedMemory | AcpiReclaimable | AcpiNvs | BadMemory

  /** base and length are 64-bit numbers. */
  datatype Entry = Entry(base: nat, length: nat, kind: MemoryType) {
    predicate Sized() { base < RANGE_64 && length < RANGE_64 }

    /** base + length in 64-bit arithmetic. */
    function End(): nat { (base + length) % RANGE_64 }

    /** The first whole frame, in 64-bit arithmetic, but at most total. */
    function StartFrame(total: nat): nat {
      Min((base + (FRAME_SIZE - 1)) % RANGE_64 / FRAME_SIZE, total)
    }

    /** The first frame that is not whole, but at most total. */
    function EndFrame(total: nat): nat {
      Min(End() / FRAME_SIZE, total)
    }

    predicate Covers(total: nat, f: nat) {
      kind == Usable && StartFrame(total) <= f < EndFrame(total)
    }
  }

  /** The highest end of the usable ones of the first n entries, or 0 when there are none. */
  function Highest(entries: seq<Entry>, n: nat): (r: nat)
    requires n <= |entries|
    ensures forall j | 0 <= j < n && entries[j].kind == Usable :: entries[j].End() <= r
    ensures r == 0 || exists j | 0 <= j < n :: entries[j].kind == Usable && entries[j].End() == r
  {
    if n == 0 then 0
    else if entries[n - 1].kind == Usable && entries[n - 1].End() > Highest(entries, n - 1) then entries[n - 1].End()
    else Highest(entries, n - 1)
  }

  function TotalFrames(entries: seq<Entry>): nat {
    Min(Highest(entries, |entries|) / FRAME_SIZE, MAX_FRAMES)
  }

  /** What the frames are laid out against: how many there are, and what is reserved. */
  datatype Layout = Layout(total: nat, zero: Range, kernel: Range) {
    predicate Reserved(f: nat) { zero.Has(f) || kernel.Has(f) }
  }

  /** A frame is free after the first n entries iff it exists, is not reserved and lies in a usable
      one of them. */
  ghost predicate FreeAfter(entries: seq<Entry>, n: nat, l: Layout, f: nat)
    requires n <= |entries|
  {
    f < l.total && !l.Reserved(f) && exists j | 0 <= j < n :: entries[j].Covers(l.total, f)
  }

  /** The bytes of frame f are bytes of the entry. */
  predicate WhollyInside(e: Entry, f: nat) {
    e.base <= f * FRAME_SIZE && (f + 1) * FRAME_SIZE <= e.base + e.length
  }

  /** Rounding the base up wraps and there is a frame to hit, or only the end wraps and there is a
      frame above the base to miss. */
  predicate WrapsWrong(e: Entry, total: nat) {
    if e.base > RANGE_64 - FRAME_SIZE then total > 0 && e.End() >= FRAME_SIZE
    else e.base + e.length >= RANGE_64 && total > 0 && e.base <= (total - 1) * FRAME_SIZE
  }

  /** The frame range of an entry is the frames wholly inside it, iff the 64-bit sums do not wrap
      in one of two ways. */
  lemma WholeFrames(e: Entry, total: nat)
    requires e.Sized() && total <= MAX_FRAMES
    ensures (forall f: nat :: e.StartFrame(total) <= f < e.EndFrame(total) <==> f < total && WhollyInside(e, f))
            <==> !WrapsWrong(e, total)
  {
    if e.base > RANGE_64 - FRAME_SIZE {
      assert e.StartFrame(total) == 0;
      assert forall f: nat | f < total :: !WhollyInside(e, f);
      if WrapsWrong(e, total) {
        assert e.StartFrame(total) <= 0 < e.EndFrame(total) && !WhollyInside(e, 0);
      }
    } else if WrapsWrong(e, total) {
      assert WhollyInside(e, total - 1);
      assert e.EndFrame(total) <= e.StartFrame(total);
    }
  }

  /** A frame that should be free: it exists, is not reserved, and its bytes are bytes of a usable
      entry. */
  ghost predicate InUsableMemory(entries: seq<Entry>, l: Layout, f: nat) {
    f < l.total && !l.Reserved(f)
    && exists j | 0 <= j < |entries| :: entries[j].kind == Usable && WhollyInside(entries[j], f)
  }

  /** base and length have 64 bits. */
  predicate AllSized(entries: seq<Entry>) {
    forall j | 0 <= j < |entries| :: entries[j].Sized()
  }

  predicate NoneWrapsWrong(entries: seq<Entry>, total: nat) {
    forall j | 0 <= j < |entries| && entries[j].kind == Usable :: !WrapsWrong(entries[j], total)
  }

  /** The frames that initialization frees are the frames that should be free, on every map in which
      no usable entry wraps in one of the two wrong ways. */
  lemma FreedIsUsable(entries: seq<Entry>, l: Layout)
    requires AllSized(entries) && l.total <= MAX_FRAMES && NoneWrapsWrong(entries, l.total)
    ensures forall f: nat :: FreeAfter(entries, |entries|, l, f) <==> InUsableMemory(entries, l, f)
  {
    forall f: nat, j | 0 <= j < |entries| && f < l.total && entries[j].kind == Usable
      ensures entries[j].Covers(l.total, f) <==> WhollyInside(entries[j], f)
    {
      WholeFrames(entries[j], l.total);
    }
  }

  /** A map of one usable entry of no bytes, in the last page of the 64-bit space: all of the 32-bit
      space counts as memory, every frame that is not reserved is freed, and none should be. */
  lemma WrappingEntryCoversAll(l: Layout, f: nat)
    ensures var map_ := [Entry(RANGE_64 - 1, 0, Usable)];
            && AllSized(map_) && TotalFrames(map_) == MAX_FRAMES
            && (l.total == MAX_FRAMES && f < l.total && !l.Reserved(f)
                ==> FreeAfter(map_, 1, l, f) && !InUsableMemory(map_, l, f))
  {
    var e := Entry(RANGE_64 - 1, 0, Usable);
    assert e.End() == RANGE_64 - 1;
    assert Highest([e], 0) == 0 && Highest([e], 1) == RANGE_64 - 1;
    if l.total == MAX_FRAMES && f < l.total {
      assert [e][0].Covers(l.total, f);
    }
  }

  // ---- the same in bytes ----

  /** The 4 KiB of frame f meet the bytes lo .. hi - 1. */
  predicate PageMeets(f: nat, lo: nat, hi: nat) {
    f * 0x1000 < hi && lo < (f + 1) * 0x1000
  }

  /** The frames that exist: they have a 32-bit address, and end no later than some usable entry. */
  lemma ExistingFrames(entries: seq<Entry>, f: nat)
    ensures f < TotalFrames(entries)
            <==> (f + 1) * 0x1000 <= 0x1_0000_0000
                 && exists j | 0 <= j < |entries| :: entries[j].kind == Usable && (f + 1) * 0x1000 <= entries[j].End()
  {
    var h := Highest(entries, |entries|);
    assert f < h / FRAME_SIZE <==> (f + 1) * 0x1000 <= h;
  }

  /** No usable entry reaches past the 64-bit space, nor begins in its last page. */
  predicate NoneWraps(entries: seq<Entry>) {
    forall j | 0 <= j < |entries| && entries[j].kind == Usable ::
      entries[j].base + entries[j].length < RANGE_64 && entries[j].base <= RANGE_64 - 0x1000
  }

  /** A frame that ought to be free: its page has a 32-bit address, is not the first one, meets neither
      kernel nor bitmap, and is made of bytes of one usable entry. */
  ghost predicate OughtToBeFree(entries: seq<Entry>, kernelStart: nat, bitmapEnd: nat, f: nat) {
    && 0 < f && (f + 1) * 0x1000 <= 0x1_0000_0000
    && !PageMeets(f, kernelStart, bitmapEnd)
    && exists j | 0 <= j < |entries| ::
         entries[j].kind == Usable && entries[j].base <= f * 0x1000
         && (f + 1) * 0x1000 <= entries[j].base + entries[j].length
  }

  /** On a map that does not wrap, the frames that initialization frees are the ones that ought to be. */
  lemma FreedOughtToBe(entries: seq<Entry>, l: Layout, kernelStart: nat, bitmapEnd: nat, f: nat)
    requires AllSized(entries) && NoneWraps(entries) && l.total == TotalFrames(entries)
    requires l.zero == Range(0, 1) && forall g: nat :: l.kernel.Has(g) <==> PageMeets(g, kernelStart, bitmapEnd)
    ensures FreeAfter(entries, |entries|, l, f) <==> OughtToBeFree(entries, kernelStart, bitmapEnd, f)
  {
    FreedIsUsable(entries, l);
    ExistingFrames(entries, f);
    assert l.Reserved(f) <==> f == 0 || PageMeets(f, kernelStart, bitmapEnd);
    if OughtToBeFree(entries, kernelStart, bitmapEnd, f) {
      var j :| 0 <= j < |entries| && entries[j].kind == Usable && entries[j].base <= f * 0x1000
               && (f + 1) * 0x1000 <= entries[j].base + entries[j].length;
      assert entries[j].End() == entries[j].base + entries[j].length;
      assert WhollyInside(entries[j], f);
    }
  }

  // ---- one entry: the reserved ranges cut out of its frames ----

  /** The frames of [lo, hi) that are not reserved, freed. */
  ghost function Freed(fs: seq<bool>, l: Layout, lo: nat, hi: nat): (r: seq<bool>)
    ensures |r| == |fs|
  {
    seq(|fs|, f requires 0 <= f < |fs| => fs[f] && !(lo <= f < hi && !l.Reserved(f)))
  }

  /** How many frames of [lo, hi) are not reserved. */
  function CountOpen(l: Layout, lo: nat, hi: nat): nat
    decreases hi
  {
    if hi <= lo then 0 else CountOpen(l, lo, hi - 1) + if l.Reserved(hi - 1) then 0 else 1
  }

  /** Freeing the next piece, which holds no reserved frame. */
  lemma {:induction false} FreePiece(fs: seq<bool>, l: Layout, lo: nat, a: nat, b: nat)
    requires lo <= a <= b && forall f | a <= f < b :: !l.Reserved(f)
    ensures Overwritten(Freed(fs, l, lo, a), a, b, false) == Freed(fs, l, lo, b)
    ensures CountOpen(l, lo, b) == CountOpen(l, lo, a) + (b - a)
    decreases b
  {
    if a < b {
      FreePiece(fs, l, lo, a, b - 1);
    }
  }

  /** Skipping frames that are all reserved. */
  lemma {:induction false} SkipReserved(fs: seq<bool>, l: Layout, lo: nat, a: nat, b: nat)
    requires lo <= a <= b && forall f | a <= f < b :: l.Reserved(f)
    ensures Freed(fs, l, lo, a) == Freed(fs, l, lo, b)
    ensures CountOpen(l, lo, b) == CountOpen(l, lo, a)
    decreases b
  {
    if a < b {
      SkipReserved(fs, l, lo, a, b - 1);
    }
  }

  // ---- the whole map ----

  /** The frame list after the first n entries. */
  ghost predicate Initialized(entries: seq<Entry>, n: nat, l: Layout, fs: seq<bool>)
    requires n <= |entries|
  {
    forall f: nat | f < |fs| :: !fs[f] <==> FreeAfter(entries, n, l, f)
  }

  lemma EntryInitialized(entries: seq<Entry>, n: nat, l: Layout, fs: seq<bool>)
    requires n < |entries| && Initialized(entries, n, l, fs)
    ensures entries[n].kind == Usable
            ==> Initialized(entries, n + 1, l, Freed(fs, l, entries[n].StartFrame(l.total), entries[n].EndFrame(l.total)))
    ensures entries[n].kind != Usable || entries[n].StartFrame(l.total) >= entries[n].EndFrame(l.total)
            ==> Initialized(entries, n + 1, l, fs)
  {
    forall f: nat
      ensures FreeAfter(entries, n + 1, l, f)
              <==> FreeAfter(entries, n, l, f) || (f < l.total && !l.Reserved(f) && entries[n].Covers(l.total, f))
    {
    }
  }

  /** How many frames the first n entries free, a frame counting once for every entry that frees it. */
  function FreedCount(entries: seq<Entry>, n: nat, l: Layout): nat
    requires n <= |entries|
  {
    if n == 0 then 0
    else FreedCount(entries, n - 1, l)
         + if entries[n - 1].kind == Usable then CountOpen(l, entries[n - 1].StartFrame(l.total), entries[n - 1].EndFrame(l.total)) else 0
  }

  /** How many of the first n entries free a frame. */
  function Times(entries: seq<Entry>, n: nat, l: Layout, f: nat): nat
    requires n <= |entries|
  {
    if n == 0 || l.Reserved(f) then 0
    else Times(entries, n - 1, l, f) + if entries[n - 1].Covers(l.total, f) then 1 else 0
  }

  function SumTimes(entries: seq<Entry>, n: nat, l: Layout, m: nat): nat
    requires n <= |entries|
  {
    if m == 0 then 0 else SumTimes(entries, n, l, m - 1) + Times(entries, n, l, m - 1)
  }

  /** The frames that are freed more often than once, with how much more often. */
  function Excess(entries: seq<Entry>, l: Layout, m: nat): nat {
    if m == 0 then 0
    else
      var t := Times(entries, |entries|, l, m - 1);
      Excess(entries, l, m - 1) + if t > 1 then t - 1 else 0
  }

  /** The usable entries do not overlap in a whole frame that is to be freed. */
  ghost predicate NoFrameTwice(entries: seq<Entry>, l: Layout, m: nat) {
    forall f: nat | f < m :: Times(entries, |entries|, l, f) <= 1
  }

  lemma {:induction false} AddEntry(entries: seq<Entry>, n: nat, l: Layout, m: nat)
    requires n < |entries| && m <= l.total
    ensures SumTimes(entries, n + 1, l, m)
            == SumTimes(entries, n, l, m)
               + if entries[n].kind == Usable
                 then CountOpen(l, entries[n].StartFrame(l.total), Min(entries[n].EndFrame(l.total), m)) else 0
    decreases m
  {
    if m > 0 {
      AddEntry(entries, n, l, m - 1);
    }
  }

  /** Counting by entries and counting by frames give the same number. */
  lemma {:induction false} CountedTwoWays(entries: seq<Entry>, n: nat, l: Layout)
    requires n <= |entries|
    ensures FreedCount(entries, n, l) == SumTimes(entries, n, l, l.total)
    decreases n
  {
    if n == 0 {
      NoTimes(entries, l, l.total);
    } else {
      CountedTwoWays(entries, n - 1, l);
      AddEntry(entries, n - 1, l, l.total);
    }
  }

  lemma {:induction false} NoTimes(entries: seq<Entry>, l: Layout, m: nat)
    ensures SumTimes(entries, 0, l, m) == 0
  {
    if m > 0 {
      NoTimes(entries, l, m - 1);
    }
  }

  lemma {:induction false} TimesIsFree(entries: seq<Entry>, n: nat, l: Layout, f: nat)
    requires n <= |entries| && f < l.total
    ensures Times(entries, n, l, f) > 0 <==> FreeAfter(entries, n, l, f)
    decreases n
  {
    if n > 0 {
      TimesIsFree(entries, n - 1, l, f);
    }
  }

  /** Used frames and times freed add up to the frames plus the excess. */
  lemma {:induction false} CountBalance(entries: seq<Entry>, l: Layout, fs: seq<bool>, m: nat)
    requires Initialized(entries, |entries|, l, fs) && m <= l.total <= |fs|
    ensures CountUsed(fs, m) + SumTimes(entries, |entries|, l, m) == m + Excess(entries, l, m)
    decreases m
  {
    if m > 0 {
      CountBalance(entries, l, fs, m - 1);
      TimesIsFree(entries, |entries|, l, m - 1);
      assert !fs[m - 1] <==> FreeAfter(entries, |entries|, l, m - 1);
    }
  }

  lemma {:induction false} NoExcess(entries: seq<Entry>, l: Layout, m: nat)
    ensures Excess(entries, l, m) == 0 <==> NoFrameTwice(entries, l, m)
    decreases m
  {
    if m > 0 {
      NoExcess(entries, l, m - 1);
    }
  }

  lemma CounterModulo(total: nat, freed: nat, used: nat, excess: nat)
    requires used + freed == total + excess && used <= total < WORD_RANGE
    ensures Sub32(total, freed) == used <==> excess % WORD_RANGE == 0
  {
    assert total - freed == used - excess;
  }

  /** The used-frame counter that initialization leaves is the number of used frames less the
      excess, in 32-bit arithmetic: it is right iff the excess is a multiple of 2^32, which is so
      when no frame is freed twice. */
  lemma CounterAfterInit(entries: seq<Entry>, l: Layout, fs: seq<bool>)
    requires Initialized(entries, |entries|, l, fs) && l.total <= |fs| && l.total <= MAX_FRAMES
    ensures var counter := Sub32(l.total, FreedCount(entries, |entries|, l));
            && (counter == CountUsed(fs, l.total) <==> Excess(entries, l, l.total) % WORD_RANGE == 0)
            && (NoFrameTwice(entries, l, l.total) <==> Excess(entries, l, l.total) == 0)
  {
    hide FreedCount, SumTimes, Excess, CountUsed, Initialized, Sub32;
    CountedTwoWays(entries, |entries|, l);
    CountBalance(entries, l, fs, l.total);
    NoExcess(entries, l, l.total);
    CountBound(fs, l.total);
    CounterModulo(l.total, FreedCount(entries, |entries|, l), CountUsed(fs, l.total), Excess(entries, l, l.total));
  }

  lemma {:induction false} TimesBound(entries: seq<Entry>, n: nat, l: Layout, f: nat)
    requires n <= |entries|
    ensures Times(entries, n, l, f) <= n
  {
    if n > 0 {
      TimesBound(entries, n - 1, l, f);
    }
  }

  lemma {:induction false} ExcessBound(entries: seq<Entry>, l: Layout, m: nat)
    requires |entries| <= 4096
    ensures Excess(entries, l, m) <= m * 4095
  {
    if m > 0 {
      ExcessBound(entries, l, m - 1);
      TimesBound(entries, |entries|, l, m - 1);
    }
  }

  /** On a map of at most 4096 entries the counter is right iff no frame is freed twice. */
  lemma CounterRightIff(entries: seq<Entry>, l: Layout, fs: seq<bool>)
    requires Initialized(entries, |entries|, l, fs) && l.total <= |fs| && l.total <= MAX_FRAMES
    requires |entries| <= 4096
    ensures Sub32(l.total, FreedCount(entries, |entries|, l)) == CountUsed(fs, l.total) <==> NoFrameTwice(entries, l, l.total)
  {
    CounterAfterInit(entries, l, fs);
    ExcessBound(entries, l, l.total);
    assert Excess(entries, l, l.total) < WORD_RANGE;
  }

  /** Any map that names the same usable range twice, over a frame that is not reserved: the counter
      is wrong. */
  lemma DuplicateMiscounts(e: Entry, l: Layout, fs: seq<bool>, f: nat)
    requires Initialized([e, e], 2, l, fs) && l.total <= |fs| && l.total <= MAX_FRAMES
    requires f < l.total && !l.Reserved(f) && e.Covers(l.total, f)
    ensures Excess([e, e], l, l.total) > 0
    ensures Sub32(l.total, FreedCount([e, e], 2, l)) != CountUsed(fs, l.total)
  {
    assert Times([e, e], 0, l, f) == 0;
    assert Times([e, e], 1, l, f) == 1;
    assert Times([e, e], 2, l, f) == 2;
    NoExcess([e, e], l, l.total);
    CounterRightIff([e, e], l, fs);
  }
}
