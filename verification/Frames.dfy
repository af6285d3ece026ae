/** What the bitmap's bytes say about frames, and what a search of them must answer.

    A frame list has one entry per bit of the bitmap, true for a used frame.  Bit i of
    byte k is frame 8k + i, and a wide load groups bytes little-endian. */
module Frames {
  import opened Bits
  import opened Wrappers

  function FrameBits(bytes: seq<Byte>): (fs: seq<bool>)
    ensures |fs| == 8 * |bytes|
  {
    seq(8 * |bytes|, f requires 0 <= f < 8 * |bytes| => Bit(bytes[f / 8], f % 8))
  }

  /** The little-endian word of w bytes at index k. */
  function Load(bytes: seq<Byte>, k: nat, w: nat): nat
    requires k + w <= |bytes|
    decreases w
  {
    if w == 0 then 0 else bytes[k] + 256 * Load(bytes, k + 1, w - 1)
  }

  lemma {:induction false} LoadBits(bytes: seq<Byte>, k: nat, w: nat, p: nat)
    requires k + w <= |bytes| && p < 8 * w
    ensures Bit(Load(bytes, k, w), p) <==> FrameBits(bytes)[8 * k + p]
    decreases w
  {
    hide Bit, Pow2;
    Pow2Values();
    ConcatBits(bytes[k], Load(bytes, k + 1, w - 1), 8, p);
    assert (8 * k + p) / 8 == k + p / 8 && (8 * k + p) % 8 == p % 8;
    if p >= 8 {
      LoadBits(bytes, k + 1, w - 1, p - 8);
      assert 8 * (k + 1) + (p - 8) == 8 * k + p;
    }
  }

  lemma {:induction false} LoadBound(bytes: seq<Byte>, k: nat, w: nat)
    requires k + w <= |bytes|
    ensures Load(bytes, k, w) < Pow2(8 * w)
    decreases w
  {
    if w > 0 {
      LoadBound(bytes, k + 1, w - 1);
      Pow2Byte(8 * w - 8);
    }
  }

  // ---- runs of frames ----

  /** Frames lo .. hi - 1 exist and are all used. */
  ghost predicate AllUsed(fs: seq<bool>, lo: nat, hi: nat) {
    hi <= |fs| && forall i | lo <= i < hi :: fs[i]
  }

  /** Frames s .. s + n - 1 exist and are all free. */
  ghost predicate RunAt(fs: seq<bool>, s: nat, n: nat) {
    s + n <= |fs| && forall i | s <= i < s + n :: !fs[i]
  }

  /** No run of n free frames lies in [lo, hi). */
  ghost predicate NoFit(fs: seq<bool>, lo: nat, hi: nat, n: nat) {
    forall s: nat | lo <= s && s + n <= hi :: !RunAt(fs, s, n)
  }

  /** The earliest run of n free frames in [lo, hi) starts at s. */
  ghost predicate IsFirstFit(fs: seq<bool>, lo: nat, hi: nat, n: nat, s: nat) {
    && lo <= s && s + n <= hi
    && RunAt(fs, s, n)
    && forall t | lo <= t < s :: !RunAt(fs, t, n)
  }

  lemma FirstFitWider(fs: seq<bool>, lo: nat, hi: nat, wider: nat, n: nat, s: nat)
    requires IsFirstFit(fs, lo, hi, n, s) && hi <= wider
    ensures IsFirstFit(fs, lo, wider, n, s)
  {
  }

  /** First fit, one frame at a time: the reference every search is measured against. */
  ghost function FirstFit(fs: seq<bool>, lo: nat, hi: nat, n: nat): (r: Option<nat>)
    ensures r.None? <==> NoFit(fs, lo, hi, n)
    ensures forall s: nat :: r == Some(s) <==> IsFirstFit(fs, lo, hi, n, s)
    decreases hi - lo
  {
    if lo + n > hi then None
    else if RunAt(fs, lo, n) then Some(lo)
    else if lo == hi then None
    else FirstFit(fs, lo + 1, hi, n)
  }

  /** The length of the free run that ends at hi and does not start before lo. */
  function TailRun(fs: seq<bool>, lo: nat, hi: nat): nat
    requires hi <= |fs|
  {
    if hi <= lo || fs[hi - 1] then 0 else 1 + TailRun(fs, lo, hi - 1)
  }

  lemma {:induction false} TailRunIs(fs: seq<bool>, lo: nat, hi: nat, n: nat)
    requires lo <= hi <= |fs| && n <= hi - lo
    requires forall i | hi - n <= i < hi :: !fs[i]
    requires hi - n == lo || fs[hi - n - 1]
    ensures TailRun(fs, lo, hi) == n
  {
    if n > 0 {
      TailRunIs(fs, lo, hi - 1, n - 1);
    }
  }

  lemma {:induction false} TailRunFree(fs: seq<bool>, lo: nat, hi: nat)
    requires lo <= hi <= |fs|
    ensures var n := TailRun(fs, lo, hi);
            && n <= hi - lo
            && (forall i | hi - n <= i < hi :: !fs[i])
            && (hi - n == lo || fs[hi - n - 1])
  {
    if hi > lo && !fs[hi - 1] {
      TailRunFree(fs, lo, hi - 1);
    }
  }

  // ---- a scan that carries the length of the free run behind it ----

  /** A scan that started at lo has reached pos without finding n free frames in a row, and
      length is exactly the free run that ends at pos. */
  ghost predicate Scanned(fs: seq<bool>, lo: nat, pos: nat, n: nat, length: nat) {
    && lo <= pos <= |fs|
    && length == TailRun(fs, lo, pos)
    && length < n
    && NoFit(fs, lo, pos, n)
  }

  lemma ScanStart(fs: seq<bool>, lo: nat, n: nat)
    requires lo <= |fs| && n > 0
    ensures Scanned(fs, lo, lo, n, 0)
  {
  }

  /** The carried run and the next k free frames are long enough: the run starts where the
      carried run does, and it is the earliest. */
  lemma ScanHit(fs: seq<bool>, lo: nat, pos: nat, n: nat, length: nat, k: nat, hi: nat)
    requires Scanned(fs, lo, pos, n, length)
    requires pos + k <= hi && pos + k <= |fs|
    requires forall i | pos <= i < pos + k :: !fs[i]
    requires length + k >= n
    ensures length <= pos && IsFirstFit(fs, lo, hi, n, pos - length)
  {
    TailRunFree(fs, lo, pos);
    NothingBefore(fs, lo, pos, n, length);
  }

  /** No run can start before the carried one. */
  lemma NothingBefore(fs: seq<bool>, lo: nat, pos: nat, n: nat, length: nat)
    requires Scanned(fs, lo, pos, n, length)
    ensures length <= pos - lo
    ensures forall t | lo <= t < pos - length :: !RunAt(fs, t, n)
  {
    TailRunFree(fs, lo, pos);
    forall t | lo <= t < pos - length
      ensures !RunAt(fs, t, n)
    {
      if t + n > pos {
        assert fs[pos - length - 1];
        assert t <= pos - length - 1 < t + n;
      }
    }
  }

  /** The next k free frames are too few and frame pos + k is used: nothing starts before pos + k + 1. */
  lemma ScanMiss(fs: seq<bool>, lo: nat, pos: nat, n: nat, length: nat, k: nat)
    requires Scanned(fs, lo, pos, n, length)
    requires pos + k < |fs| && fs[pos + k]
    requires length + k < n
    ensures forall t | lo <= t <= pos + k :: !RunAt(fs, t, n)
  {
    NothingBefore(fs, lo, pos, n, length);
    forall t | lo <= t <= pos + k
      ensures !RunAt(fs, t, n)
    {
      if t >= pos - length {
        assert t <= pos + k < t + n;
      }
    }
  }

  /** Moving on over w frames in which no run ends, leaving j free frames behind the new position. */
  lemma ScanAdvance(fs: seq<bool>, lo: nat, pos: nat, n: nat, length: nat, w: nat, j: nat)
    requires Scanned(fs, lo, pos, n, length)
    requires pos + w <= |fs| && j < w && j < n
    requires fs[pos + w - j - 1]
    requires forall i | pos + w - j <= i < pos + w :: !fs[i]
    requires forall t: nat | lo <= t && t + n <= pos + w :: !RunAt(fs, t, n)
    ensures Scanned(fs, lo, pos + w, n, j)
  {
    TailRunIs(fs, lo, pos + w, j);
  }

  /** Moving on over w free frames. */
  lemma ScanAdvanceFree(fs: seq<bool>, lo: nat, pos: nat, n: nat, length: nat, w: nat)
    requires Scanned(fs, lo, pos, n, length)
    requires pos + w <= |fs| && length + w < n
    requires forall i | pos <= i < pos + w :: !fs[i]
    ensures Scanned(fs, lo, pos + w, n, length + w)
  {
    NothingBefore(fs, lo, pos, n, length);
    TailRunFree(fs, lo, pos);
    TailRunIs(fs, lo, pos + w, length + w);
  }
}
