/** Conversions between milliseconds and timer ticks in 32-bit arithmetic, and the wait loop. */
module Timer {
  import opened Arithmetic
  import opened Bits

  const UINT32_MAX: nat := 0xFFFF_FFFF
  const MS_PER_SECOND: nat := 1000

  /** The highest frequency at which sleep_ms is exact. */
  const SLEEP_LIMIT: nat := 4299265
  /** The highest frequency at which the stopwatch is exact. */
  const STOPWATCH_LIMIT: nat := 4294968

  function Wrap(x: nat): nat {
    x % WORD_RANGE
  }

  function Saturated(x: nat): nat {
    if x > UINT32_MAX then UINT32_MAX else x
  }

  // ---- sleep_ms ----

  /** The ticks of the part of a second, rounded up. */
  function RemainingTicks(remainingMs: nat, frequency: nat): nat {
    Sub32(Wrap(Wrap(remainingMs * frequency) + MS_PER_SECOND), 1) / MS_PER_SECOND
  }

  /** The number of ticks that sleep_ms waits for, step by step as it computes it. */
  function SleepRequest(ms: nat, frequency: nat): nat {
    if frequency == 0 || ms == 0 then 0
    else
      var wholeSeconds := ms / MS_PER_SECOND;
      var remainingMs := ms - wholeSeconds * MS_PER_SECOND;
      if wholeSeconds > UINT32_MAX / frequency then UINT32_MAX
      else
        var wholeSecondTicks := Wrap(wholeSeconds * frequency);
        var remainingTicks := RemainingTicks(remainingMs, frequency);
        if wholeSecondTicks > UINT32_MAX - remainingTicks then UINT32_MAX
        else wholeSecondTicks + remainingTicks
  }

  /** What it should be: the time in ticks, rounded up. */
  function IdealTicks(ms: nat, frequency: nat): nat {
    Saturated((ms * frequency + MS_PER_SECOND - 1) / MS_PER_SECOND)
  }

  /** More whole seconds than fit means more ticks than fit. */
  lemma QuotientExceeded(a: nat, f: nat)
    requires f > 0
    ensures a > UINT32_MAX / f <==> a * f > UINT32_MAX
  {
    var q := UINT32_MAX / f;
    assert q * f <= UINT32_MAX < (q + 1) * f by {
      assert UINT32_MAX == q * f + UINT32_MAX % f;
      assert (q + 1) * f == q * f + f;
    }
    if a > q {
      MulLess(q + 1, a, f);
    } else {
      MulLess(a, q, f);
    }
  }

  lemma SplitTicks(ms: nat, f: nat)
    ensures (ms * f + 999) / 1000 == ms / 1000 * f + (ms % 1000 * f + 999) / 1000
  {
    var s, r := ms / 1000, ms % 1000;
    var a, b := s * f, r * f;
    assert ms == 1000 * s + r;
    assert ms * f == 1000 * a + b by {
      Distribute(f, 1000, s, r);
    }
    ModUnique(1000 * a + b + 999, 1000, a + (b + 999) / 1000, (b + 999) % 1000);
  }

  lemma RemainingExact(r: nat, f: nat)
    requires r < 1000 && f <= SLEEP_LIMIT
    ensures RemainingTicks(r, f) == (r * f + 999) / 1000 <= f
  {
    MulLess(r, 999, f);
    RoundedUp(r * f);
  }

  lemma RoundedUp(rest: nat)
    requires rest + 999 < WORD_RANGE
    ensures Sub32(Wrap(Wrap(rest) + MS_PER_SECOND), 1) == rest + 999
  {
  }

  lemma SleepExactAt(ms: nat, f: nat)
    requires ms <= UINT32_MAX && 0 < f <= SLEEP_LIMIT
    ensures SleepRequest(ms, f) == IdealTicks(ms, f)
  {
    hide RemainingTicks;
    var s, r := ms / 1000, ms % 1000;
    SplitTicks(ms, f);
    QuotientExceeded(s, f);
    RemainingExact(r, f);
    assert ms - s * MS_PER_SECOND == r;
    if ms == 0 {
      assert IdealTicks(0, f) == 0;
    }
  }

  lemma ZeroWraps()
    ensures Wrap(0) == 0
  {
  }

  lemma WrappedTicks(x: nat)
    requires x + 999 >= WORD_RANGE
    ensures Sub32(Wrap(Wrap(x) + 1000), 1) == Wrap(x + 999) <= x + 999 - WORD_RANGE
  {
  }

  /** Above the limit a sleep of 999 milliseconds is too short. */
  lemma SleepTooShort(f: nat)
    requires SLEEP_LIMIT < f <= UINT32_MAX
    ensures SleepRequest(999, f) < IdealTicks(999, f)
  {
    hide Wrap, Sub32;
    var x := 999 * f;
    WrappedTicks(x);
    assert RemainingTicks(999, f) == Wrap(x + 999) / 1000;
    assert Wrap(0 * f) == 0 by {
      ZeroWraps();
    }
    assert IdealTicks(999, f) == (x + 999) / 1000;
  }

  /** sleep_ms asks for exactly the time rounded up to ticks, saturating, for every duration, iff the
      frequency is at most 4 299 265 Hz. */
  lemma SleepExactIff(f: nat)
    requires 0 < f <= UINT32_MAX
    ensures f <= SLEEP_LIMIT <==> forall ms: nat | ms <= UINT32_MAX :: SleepRequest(ms, f) == IdealTicks(ms, f)
  {
    if f <= SLEEP_LIMIT {
      forall ms: nat | ms <= UINT32_MAX
        ensures SleepRequest(ms, f) == IdealTicks(ms, f)
      {
        SleepExactAt(ms, f);
      }
    } else {
      SleepTooShort(f);
    }
  }

  // ---- the stopwatch ----

  /** The milliseconds of the part of a second, rounded down. */
  function RemainingMs(remainingTicks: nat, frequency: nat): (r: nat)
    requires frequency > 0
    ensures r <= UINT32_MAX
  {
    QuotientBound(Wrap(remainingTicks * MS_PER_SECOND), frequency);
    Wrap(remainingTicks * MS_PER_SECOND) / frequency
  }

  lemma QuotientBound(x: nat, f: nat)
    requires f > 0
    ensures x / f <= x
  {
    var q := x / f;
    assert x == f * q + x % f;
    MulLess(1, f, q);
  }

  /** The milliseconds that the stopwatch reports, step by step as its destructor computes them. */
  function StopwatchMs(ticks: nat, frequency: nat): nat
    requires frequency > 0
  {
    var wholeSeconds := ticks / frequency;
    var remainingTicks := Sub32(ticks, Wrap(wholeSeconds * frequency));
    if wholeSeconds > UINT32_MAX / MS_PER_SECOND then UINT32_MAX
    else
      var wholeSecondsMs := Wrap(wholeSeconds * MS_PER_SECOND);
      var remainingMs := RemainingMs(remainingTicks, frequency);
      if wholeSecondsMs > UINT32_MAX - remainingMs then UINT32_MAX else wholeSecondsMs + remainingMs
  }

  function IdealMs(ticks: nat, frequency: nat): nat
    requires frequency > 0
  {
    Saturated(ticks * MS_PER_SECOND / frequency)
  }

  lemma SplitMs(ticks: nat, f: nat)
    requires f > 0
    ensures ticks * MS_PER_SECOND / f == ticks / f * MS_PER_SECOND + ticks % f * MS_PER_SECOND / f
  {
    var s, r := ticks / f, ticks % f;
    assert ticks == f * s + r;
    var a := r * MS_PER_SECOND;
    var q, rest := a / f, a % f;
    assert a == f * q + rest;
    Distribute(f, MS_PER_SECOND, s, q);
    ModUnique(ticks * MS_PER_SECOND, f, MS_PER_SECOND * s + q, rest);
  }

  lemma RemainderIs(ticks: nat, f: nat)
    requires f > 0 && ticks <= UINT32_MAX
    ensures Sub32(ticks, Wrap(ticks / f * f)) == ticks % f
  {
    var q := ticks / f;
    assert ticks == f * q + ticks % f && f * q == q * f;
    NoWrap(ticks, q * f);
  }

  lemma NoWrap(x: nat, y: nat)
    requires y <= x <= UINT32_MAX
    ensures Sub32(x, Wrap(y)) == x - y
  {
  }

  lemma StopwatchExactAt(ticks: nat, f: nat)
    requires ticks <= UINT32_MAX && 0 < f <= STOPWATCH_LIMIT
    ensures StopwatchMs(ticks, f) == IdealMs(ticks, f)
  {
    hide RemainingMs, Wrap, Sub32, Saturated;
    SplitMs(ticks, f);
    RemainderIs(ticks, f);
    var s, r := ticks / f, ticks % f;
    RemainingMsIs(r, f);
    StopwatchSum(s, RemainingMs(r, f));
  }

  lemma RemainingMsIs(r: nat, f: nat)
    requires r < f <= STOPWATCH_LIMIT
    ensures RemainingMs(r, f) == r * MS_PER_SECOND / f
  {
    assert r * MS_PER_SECOND < WORD_RANGE;
  }

  /** The saturating sum of whole seconds and the rest, both in milliseconds. */
  lemma StopwatchSum(s: nat, a: nat)
    requires a <= UINT32_MAX
    ensures Saturated(s * MS_PER_SECOND + a)
            == if s > UINT32_MAX / MS_PER_SECOND then UINT32_MAX
               else if Wrap(s * MS_PER_SECOND) > UINT32_MAX - a then UINT32_MAX else Wrap(s * MS_PER_SECOND) + a
  {
  }

  /** Above the limit an interval of f - 1 ticks is reported too short. */
  lemma StopwatchTooShort(f: nat)
    requires STOPWATCH_LIMIT < f <= UINT32_MAX
    ensures StopwatchMs(f - 1, f) < IdealMs(f - 1, f)
  {
    var x := (f - 1) * 1000;
    ModUnique(f - 1, f, 0, f - 1);
    RemainderIs(f - 1, f);
    assert x >= WORD_RANGE;
    assert x == f * 999 + (f - 1000);
    ModUnique(x, f, 999, f - 1000);
    var w := Wrap(x);
    assert w < f * 999 by {
      if f <= 4299266 {
        assert w == x - WORD_RANGE;
      }
    }
    var q := w / f;
    assert w == f * q + w % f;
    if q >= 999 {
      MulLess(999, q, f);
    }
  }

  /** The stopwatch reports exactly the elapsed time rounded down, saturating, for every interval, iff
      the frequency is at most 4 294 968 Hz. */
  lemma StopwatchExactIff(f: nat)
    requires 0 < f <= UINT32_MAX
    ensures f <= STOPWATCH_LIMIT <==> forall ticks: nat | ticks <= UINT32_MAX :: StopwatchMs(ticks, f) == IdealMs(ticks, f)
  {
    if f <= STOPWATCH_LIMIT {
      forall ticks: nat | ticks <= UINT32_MAX
        ensures StopwatchMs(ticks, f) == IdealMs(ticks, f)
      {
        StopwatchExactAt(ticks, f);
      }
    } else {
      StopwatchTooShort(f);
    }
  }

  /** Rounding up to ticks and back down to milliseconds gains less than one tick. */
  lemma RoundTripGain(ms: nat, f: nat, t: nat)
    requires 0 < f <= 1000 && t == (ms * f + 999) / 1000
    ensures t <= ms <= t * 1000 / f && (t * 1000 / f - ms) * f < 1000
  {
    var x, y := ms * f, t * 1000;
    MulLess(f, 1000, ms);
    assert x <= y < x + 1000;
    var q := y / f;
    assert y == f * q + y % f;
    if q < ms {
      MulGap(f, q, ms);
    }
    assert (q - ms) * f == f * q - x;
  }

  /** At up to 1000 Hz, an interval of the ticks that a sleep asks for is reported as at least the
      time asked for, and as less than one tick more. */
  lemma SleptIntervalReported(ms: nat, f: nat)
    requires ms <= UINT32_MAX && 0 < f <= 1000
    ensures var reported := StopwatchMs(SleepRequest(ms, f), f);
            ms <= reported && (reported - ms) * f < MS_PER_SECOND
  {
    hide SleepRequest, StopwatchMs;
    var t := (ms * f + 999) / 1000;
    RoundTripGain(ms, f, t);
    SleepExactAt(ms, f);
    StopwatchExactAt(t, f);
    var q := t * 1000 / f;
    MulLess(Saturated(q) - ms, q - ms, f);
  }

  // ---- the wait loop ----

  function Total(arrivals: seq<nat>): nat {
    if arrivals == [] then 0 else Total(arrivals[..|arrivals| - 1]) + arrivals[|arrivals| - 1]
  }

  class TimerState {
    var ticks: nat

    constructor ()
      ensures ticks == 0
    {
      ticks := 0;
    }

    /** handle_timer_interrupt: the counter wraps. */
    method HandleTimerInterrupt()
      modifies this
      ensures ticks == Wrap(old(ticks) + 1)
    {
      ticks := Wrap(ticks + 1);
    }

    /** The timer interrupts that arrive during one halt. */
    method Halt(arrivals: nat)
      requires ticks <= UINT32_MAX
      modifies this
      ensures ticks == Wrap(old(ticks) + arrivals)
    {
      var k := 0;
      while k < arrivals
        invariant k <= arrivals
        invariant ticks == Wrap(old(ticks) + k)
      {
        HandleTimerInterrupt();
        k := k + 1;
      }
    }

    /** sleep_ticks.  Each halt ends after some number of timer interrupts, given by arrivals.  The loop
        ends at the first halt by which the interrupts that have come, counted modulo 2^32, are as many
        as wanted; also when the counter wraps on the way. */
    method SleepTicks(wanted: nat, arrivals: seq<nat>) returns (halts: nat, done: bool)
      requires ticks <= UINT32_MAX && wanted <= UINT32_MAX
      modifies this
      ensures halts <= |arrivals| && ticks == Wrap(old(ticks) + Total(arrivals[..halts]))
      ensures done <==> Wrap(Total(arrivals[..halts])) >= wanted
      ensures !done ==> halts == |arrivals|
      ensures forall h | 0 <= h < halts :: Wrap(Total(arrivals[..h])) < wanted
      ensures (forall i | 0 <= i < |arrivals| :: arrivals[i] <= WORD_RANGE - wanted)
              ==> (done <==> Total(arrivals[..halts]) >= wanted)
                  && forall h | 0 <= h < halts :: Total(arrivals[..h]) < wanted
    {
      hide Sub32, Wrap, Total;
      var start := ticks;
      halts := 0;
      TotalNone();
      WindowTest(start, 0, 0);
      while Sub32(ticks, start) < wanted && halts < |arrivals|
        invariant halts <= |arrivals|
        invariant ticks == Wrap(start + Total(arrivals[..halts])) && ticks <= UINT32_MAX
        invariant Sub32(ticks, start) == Wrap(Total(arrivals[..halts]))
        invariant forall h | 0 <= h < halts :: Wrap(Total(arrivals[..h])) < wanted
        decreases |arrivals| - halts
      {
        TotalNext(arrivals, halts);
        WindowTest(start, Total(arrivals[..halts]), arrivals[halts]);
        Halt(arrivals[halts]);
        halts := halts + 1;
      }
      done := Sub32(ticks, start) >= wanted;
      if forall i | 0 <= i < |arrivals| :: arrivals[i] <= WORD_RANGE - wanted {
        InWindow(arrivals, wanted, halts);
      }
    }
  }

  lemma TotalNone()
    ensures Total([]) == 0 && Wrap(0) == 0
  {
  }

  lemma TotalNext(arrivals: seq<nat>, h: nat)
    requires h < |arrivals|
    ensures Total(arrivals[..h + 1]) == Total(arrivals[..h]) + arrivals[h]
  {
    assert arrivals[..h + 1][..h] == arrivals[..h];
  }

  /** While the wrapped count has been too small and no halt steps over the window, the true count is
      the wrapped one. */
  lemma {:induction false} InWindow(arrivals: seq<nat>, wanted: nat, h: nat)
    requires h <= |arrivals| && wanted <= UINT32_MAX
    requires forall i | 0 <= i < |arrivals| :: arrivals[i] <= WORD_RANGE - wanted
    requires forall g | 0 <= g < h :: Wrap(Total(arrivals[..g])) < wanted
    ensures wanted > 0 && Wrap(Total(arrivals[..h])) < wanted ==> Total(arrivals[..h]) < wanted
    ensures forall g | 0 <= g < h :: Total(arrivals[..g]) < wanted
    ensures Wrap(Total(arrivals[..h])) >= wanted ==> Total(arrivals[..h]) >= wanted
  {
    if h > 0 {
      InWindow(arrivals, wanted, h - 1);
      TotalNext(arrivals, h - 1);
    }
  }

  /** The wait sees the wanted ticks at the first halt by which they have come. */
  ghost predicate SeenInTime(arrivals: seq<nat>, wanted: nat) {
    forall h | 0 <= h <= |arrivals| ::
      Total(arrivals[..h]) >= wanted && (forall g | 0 <= g < h :: Total(arrivals[..g]) < wanted)
      ==> Wrap(Total(arrivals[..h])) >= wanted
  }

  /** However the interrupts come, if at most bound of them come in one halt, the wait ends in time:
      iff the bound leaves the window of answers no room to be stepped over. */
  lemma SeenInTimeIff(wanted: nat, bound: nat)
    requires 0 < wanted <= UINT32_MAX
    ensures (forall arrivals: seq<nat> | (forall i | 0 <= i < |arrivals| :: arrivals[i] <= bound) :: SeenInTime(arrivals, wanted))
            <==> bound <= WORD_RANGE - wanted
  {
    if bound <= WORD_RANGE - wanted {
      forall arrivals: seq<nat> | (forall i | 0 <= i < |arrivals| :: arrivals[i] <= bound)
        ensures SeenInTime(arrivals, wanted)
      {
        forall h | 0 <= h <= |arrivals| && forall g | 0 <= g < h :: Total(arrivals[..g]) < wanted
          ensures Total(arrivals[..h]) < WORD_RANGE
        {
          if h > 0 {
            assert Total(arrivals[..h - 1]) < wanted;
            TotalNext(arrivals, h - 1);
          }
        }
      }
    } else {
      var ones: seq<nat> := seq(wanted - 1, _ => 1);
      var arrivals := ones + [WORD_RANGE - wanted + 1];
      forall g | 0 <= g < wanted
        ensures Total(arrivals[..g]) == g
      {
        TotalOnes(arrivals, g);
      }
      TotalNext(arrivals, wanted - 1);
      assert Total(arrivals[..wanted]) == WORD_RANGE;
      assert !SeenInTime(arrivals, wanted);
      assert forall i | 0 <= i < |arrivals| :: arrivals[i] <= bound;
    }
  }

  lemma {:induction false} TotalOnes(arrivals: seq<nat>, g: nat)
    requires g <= |arrivals| && forall i | 0 <= i < g :: arrivals[i] == 1
    ensures Total(arrivals[..g]) == g
  {
    if g > 0 {
      TotalOnes(arrivals, g - 1);
      TotalNext(arrivals, g - 1);
    }
  }

  /** Counting on from a wrapped count, and measuring how far it has come. */
  lemma WindowTest(start: nat, passed: nat, more: nat)
    requires start <= UINT32_MAX
    ensures Wrap(start + 0) == start
    ensures Wrap(Wrap(start + passed) + more) == Wrap(start + passed + more)
    ensures Sub32(Wrap(start + passed + more), start) == Wrap(passed + more)
    ensures Sub32(start, start) == 0 && Wrap(start + passed + more) <= UINT32_MAX
  {
  }
}
