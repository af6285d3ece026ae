/** One word of the bitmap seen as a stretch of frames: what each test a scanning core makes on
    the word says about the frames, and how the scan moves over it. */
module Words {
  import opened Bits
  import opened Frames
  import opened Shifts

  /** The word of w bytes at index k, as bits and as frames. */
  lemma WordBits(bytes: seq<Byte>, k: nat, w: nat)
    requires k + w <= |bytes|
    ensures Load(bytes, k, w) < Pow2(8 * w)
    ensures forall p: nat | p < 8 * w :: Bit(Load(bytes, k, w), p) <==> FrameBits(bytes)[8 * k + p]
  {
    LoadBound(bytes, k, w);
    forall p: nat | p < 8 * w
      ensures Bit(Load(bytes, k, w), p) <==> FrameBits(bytes)[8 * k + p]
    {
      LoadBits(bytes, k, w, p);
    }
  }

  lemma ZeroWord(bytes: seq<Byte>, k: nat, w: nat)
    requires k + w <= |bytes| && Load(bytes, k, w) == 0
    ensures forall i | 8 * k <= i < 8 * k + 8 * w :: !FrameBits(bytes)[i]
  {
    WordBits(bytes, k, w);
    forall i | 8 * k <= i < 8 * k + 8 * w
      ensures !FrameBits(bytes)[i]
    {
      ZeroHasNoBits(i - 8 * k);
      assert !Bit(Load(bytes, k, w), i - 8 * k);
      assert i == 8 * k + (i - 8 * k);
    }
  }

  lemma OnesWord(bytes: seq<Byte>, k: nat, w: nat)
    requires k + w <= |bytes| && Load(bytes, k, w) == AllOnes(8 * w)
    ensures forall i | 8 * k <= i < 8 * k + 8 * w :: FrameBits(bytes)[i]
  {
    WordBits(bytes, k, w);
    forall i | 8 * k <= i < 8 * k + 8 * w
      ensures FrameBits(bytes)[i]
    {
      AllOnesBits(8 * w, i - 8 * k);
      assert i == 8 * k + (i - 8 * k);
    }
  }

  /** A word that is not zero: its trailing zeros are the free frames at its start, its leading
      zeros the free frames at its end, and a used frame bounds either. */
  lemma MixedWord(bytes: seq<Byte>, k: nat, w: nat)
    requires k + w <= |bytes| && Load(bytes, k, w) != 0
    ensures Load(bytes, k, w) < Pow2(8 * w)
    ensures var fs, t := FrameBits(bytes), TrailingZeros(Load(bytes, k, w));
            t < 8 * w && fs[8 * k + t] && forall i | 8 * k <= i < 8 * k + t :: !fs[i]
    ensures var fs, l, next := FrameBits(bytes), LeadingZeros(Load(bytes, k, w), 8 * w), 8 * k + 8 * w;
            l < 8 * w && fs[next - l - 1] && forall i | next - l <= i < next :: !fs[i]
  {
    WordBits(bytes, k, w);
    var value := Load(bytes, k, w);
    var fs, t, l := FrameBits(bytes), TrailingZeros(value), LeadingZeros(value, 8 * w);
    if t >= 8 * w {
      BitAboveWidth(value, 8 * w, t);
    }
    forall i | 8 * k <= i < 8 * k + t
      ensures !fs[i]
    {
      assert !Bit(value, i - 8 * k);
      assert i == 8 * k + (i - 8 * k);
    }
    var next := 8 * k + 8 * w;
    forall i | next - l <= i < next
      ensures !fs[i]
    {
      assert !Bit(value, i - 8 * k);
      assert i == 8 * k + (i - 8 * k);
    }
    assert next - l - 1 == 8 * k + (8 * w - 1 - l);
  }

  /** Set bits of the inverted word are runs of free frames that lie inside the word. */
  lemma InvertedRun(bytes: seq<Byte>, k: nat, w: nat, p: nat, n: nat)
    requires k + w <= |bytes| && n > 0
    ensures AllSet(Not(Load(bytes, k, w), 8 * w), p, n) <==> p + n <= 8 * w && RunAt(FrameBits(bytes), 8 * k + p, n)
  {
    WordBits(bytes, k, w);
    var value, fs := Load(bytes, k, w), FrameBits(bytes);
    var inv := Not(value, 8 * w);
    forall q: nat
      ensures Bit(inv, q) <==> q < 8 * w && !fs[8 * k + q]
    {
      NotBits(value, 8 * w, q);
    }
    if AllSet(inv, p, n) {
      assert Bit(inv, p + n - 1);
      forall i | 8 * k + p <= i < 8 * k + p + n
        ensures !fs[i]
      {
        assert Bit(inv, i - 8 * k);
        assert i == 8 * k + (i - 8 * k);
      }
    }
    if p + n <= 8 * w && RunAt(fs, 8 * k + p, n) {
      forall q | p <= q < p + n
        ensures Bit(inv, q)
      {
        assert !fs[8 * k + q];
      }
    }
  }

  /** What the scan invariant gives a core before it looks at the next word. */
  lemma ScanBounds(bytes: seq<Byte>, lo: nat, k: nat, n: nat, length: nat)
    requires k <= |bytes| && Scanned(FrameBits(bytes), lo, 8 * k, n, length)
    ensures 0 < n && length < n && length <= 8 * k
  {
    TailRunFree(FrameBits(bytes), lo, 8 * k);
  }

  /** A zero word that completes the wanted run. */
  lemma StepZeroHit(bytes: seq<Byte>, lo: nat, k: nat, w: nat, n: nat, length: nat, hi: nat)
    requires k + w <= |bytes| && Load(bytes, k, w) == 0
    requires Scanned(FrameBits(bytes), lo, 8 * k, n, length)
    requires length + 8 * w >= n && 8 * k + 8 * w <= hi
    ensures length <= 8 * k && IsFirstFit(FrameBits(bytes), lo, hi, n, 8 * k - length)
  {
    ZeroWord(bytes, k, w);
    ScanHit(FrameBits(bytes), lo, 8 * k, n, length, 8 * w, hi);
  }

  /** A zero word that only lengthens the carried run. */
  lemma StepZeroCarry(bytes: seq<Byte>, lo: nat, k: nat, w: nat, n: nat, length: nat)
    requires k + w <= |bytes| && Load(bytes, k, w) == 0
    requires Scanned(FrameBits(bytes), lo, 8 * k, n, length)
    requires length + 8 * w < n
    ensures Scanned(FrameBits(bytes), lo, 8 * (k + w), n, length + 8 * w)
  {
    ZeroWord(bytes, k, w);
    ScanAdvanceFree(FrameBits(bytes), lo, 8 * k, n, length, 8 * w);
  }

  /** A mixed word whose free frames at the start complete the carried run. */
  lemma StepPrefixHit(bytes: seq<Byte>, lo: nat, k: nat, w: nat, n: nat, length: nat, hi: nat)
    requires k + w <= |bytes| && Load(bytes, k, w) != 0
    requires Scanned(FrameBits(bytes), lo, 8 * k, n, length)
    requires length + TrailingZeros(Load(bytes, k, w)) >= n && 8 * k + 8 * w <= hi
    ensures length <= 8 * k && IsFirstFit(FrameBits(bytes), lo, hi, n, 8 * k - length)
  {
    MixedWord(bytes, k, w);
    ScanHit(FrameBits(bytes), lo, 8 * k, n, length, TrailingZeros(Load(bytes, k, w)), hi);
  }

  /** An all-ones word resets the carried run. */
  lemma StepOnes(bytes: seq<Byte>, lo: nat, k: nat, w: nat, n: nat, length: nat)
    requires w > 0 && k + w <= |bytes| && Load(bytes, k, w) == AllOnes(8 * w)
    requires Scanned(FrameBits(bytes), lo, 8 * k, n, length)
    ensures Scanned(FrameBits(bytes), lo, 8 * (k + w), n, 0)
  {
    var fs, pos := FrameBits(bytes), 8 * k;
    OnesWord(bytes, k, w);
    ScanMiss(fs, lo, pos, n, length, 0);
    forall t: nat | lo <= t && t + n <= pos + 8 * w
      ensures !RunAt(fs, t, n)
    {
      if t > pos {
        assert fs[t];
      }
    }
    ScanAdvance(fs, lo, pos, n, length, 8 * w, 0);
  }

  /** A mixed word with a long enough run inside, none starting earlier. */
  lemma StepBuried(bytes: seq<Byte>, lo: nat, k: nat, w: nat, n: nat, length: nat, hi: nat)
    requires w in {1, 2, 4} && k + w <= |bytes| && 0 < n < 8 * w
    requires Load(bytes, k, w) != 0
    requires Scanned(FrameBits(bytes), lo, 8 * k, n, length)
    requires length + TrailingZeros(Load(bytes, k, w)) < n
    requires 8 * k + 8 * w <= hi
    ensures var s := MakeShifts(8 * w, n).Space(Not(Load(bytes, k, w), 8 * w));
            if s == 0 then forall t | lo <= t <= 8 * k + 8 * w - n :: !RunAt(FrameBits(bytes), t, n)
            else TrailingZeros(s) < 8 * w && IsFirstFit(FrameBits(bytes), lo, hi, n, 8 * k + TrailingZeros(s))
  {
    var fs, pos, value := FrameBits(bytes), 8 * k, Load(bytes, k, w);
    var inv := Not(value, 8 * w);
    var s := MakeShifts(8 * w, n).Space(inv);
    MixedWord(bytes, k, w);
    ScanMiss(fs, lo, pos, n, length, TrailingZeros(value));
    EarliestInWord(8 * w, n, inv);
    forall p: nat
      ensures AllSet(inv, p, n) <==> p + n <= 8 * w && RunAt(fs, pos + p, n)
    {
      InvertedRun(bytes, k, w, p, n);
    }
    if s == 0 {
      forall t | lo <= t <= pos + 8 * w - n
        ensures !RunAt(fs, t, n)
      {
        if t > pos {
          assert !AllSet(inv, t - pos, n);
          assert pos + (t - pos) == t;
        }
      }
    } else {
      forall t | lo <= t < pos + TrailingZeros(s)
        ensures !RunAt(fs, t, n)
      {
        if t > pos {
          assert !AllSet(inv, t - pos, n);
          assert pos + (t - pos) == t;
        }
      }
    }
  }

  /** A mixed word without a long enough run ends in fewer free frames than are wanted. */
  lemma TailShort(fs: seq<bool>, lo: nat, next: nat, n: nat, l: nat)
    requires 0 < n <= next - lo && next <= |fs| && l <= next
    requires forall i | next - l <= i < next :: !fs[i]
    requires !RunAt(fs, next - n, n)
    ensures l < n
  {
  }

  /** A mixed word without a long enough run: its leading zeros are carried on. */
  lemma StepTail(bytes: seq<Byte>, lo: nat, k: nat, w: nat, n: nat, length: nat)
    requires w in {1, 2, 4} && k + w <= |bytes| && n > 0
    requires Load(bytes, k, w) != 0
    requires Scanned(FrameBits(bytes), lo, 8 * k, n, length)
    requires length + TrailingZeros(Load(bytes, k, w)) < n
    requires n < 8 * w ==> MakeShifts(8 * w, n).Space(Not(Load(bytes, k, w), 8 * w)) == 0
    ensures Load(bytes, k, w) < Pow2(8 * w)
    ensures var l := LeadingZeros(Load(bytes, k, w), 8 * w);
            l < n && Scanned(FrameBits(bytes), lo, 8 * (k + w), n, l)
  {
    hide FrameBits, Load, Not, AllOnes, MakeShifts, TrailingZeros, LeadingZeros, Pow2, Bit, RunAt, TailRun;
    var fs, pos, value := FrameBits(bytes), 8 * k, Load(bytes, k, w);
    MixedWord(bytes, k, w);
    var l := LeadingZeros(value, 8 * w);
    if n < 8 * w {
      StepBuried(bytes, lo, k, w, n, length, pos + 8 * w);
      TailShort(fs, lo, pos + 8 * w, n, l);
    } else {
      ScanMiss(fs, lo, pos, n, length, TrailingZeros(value));
    }
    ScanAdvance(fs, lo, pos, n, length, 8 * w, l);
  }
}
