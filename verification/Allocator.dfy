/** The frame allocator as a state machine over a list of frames, and what holds in its runs.

    This is what the bitmap operations of module Pmm are proved to compute.  One step hands out
    or takes back n consecutive frames; single-frame allocation and release are the case n = 1. */
module Allocator {
  import opened Bits
  import opened Frames
  import opened Search
  import opened Sequences
  import opened Wrappers

  /** The frames of a 32-bit address space. */
  const MAX_FRAMES: nat := 0x10_0000
  const FRAME_SIZE: nat := 4096

  datatype Range = Range(base: nat, length: nat) {
    predicate Has(f: nat) { base <= f < base + length }

    predicate Meets(other: Range) {
      base < other.base + other.length && other.base < base + length
    }
  }

  datatype Outcome = Success | Failed | Reserved | OutOfRange | ZeroFrames

  /** fs: the frames, true for used; hint: the byte at which the next search begins;
      zero and kernel: the reserved ranges. */
  datatype State = State(fs: seq<bool>, total: nat, used: nat, hint: nat, zero: Range, kernel: Range)

  function CountUsed(fs: seq<bool>, n: nat): nat
    requires n <= |fs|
  {
    if n == 0 then 0 else CountUsed(fs, n - 1) + if fs[n - 1] then 1 else 0
  }

  ghost predicate IsReserved(s: State, f: nat) {
    s.zero.Has(f) || s.kernel.Has(f)
  }

  /** The invariant of the bitmap, the hint and the reserved ranges.  It says nothing of the counter. */
  ghost predicate Sound(s: State) {
    && s.total <= MAX_FRAMES && s.used < WORD_RANGE
    && |s.fs| == 8 * ((s.total + 7) / 8)
    && 8 * s.hint <= |s.fs|
    && s.zero == Range(0, 1) && s.kernel.length > 0
    && (forall f | s.total <= f < |s.fs| :: s.fs[f])
    && (forall f: nat | f < s.total && IsReserved(s, f) :: s.fs[f])
  }

  /** The counter is right. */
  ghost predicate Counted(s: State) {
    s.total <= |s.fs| && s.used == CountUsed(s.fs, s.total)
  }

  /** The eight frames of one bitmap byte are used. */
  ghost predicate FullByte(fs: seq<bool>, k: nat) {
    AllUsed(fs, 8 * k, 8 * k + 8)
  }

  /** The state after frames f .. f + n - 1 have been handed out; the counter has 32 bits. */
  ghost function Granted(s: State, f: nat, n: nat): State
    requires n > 0
  {
    var fs := Overwritten(s.fs, f, f + n, true);
    var last := (f + n - 1) / 8;
    s.(fs := fs, used := (s.used + n) % WORD_RANGE, hint := last + if FullByte(fs, last) then 1 else 0)
  }

  ghost function Alloc(s: State, n: nat): (State, Option<nat>) {
    if n == 0 then (s, None)
    else match SearchFrom(s.fs, 8 * s.hint, n)
         case None => (s, None)
         case Some(f) => (Granted(s, f, n), Some(f))
  }

  /** The state after frames f .. f + n - 1 have been taken back. */
  ghost function Returned(s: State, f: nat, n: nat): State {
    s.(fs := Overwritten(s.fs, f, f + n, false),
       used := Sub32(s.used, n),
       hint := if f / 8 < s.hint then f / 8 else s.hint)
  }

  ghost function FreeOutcome(s: State, f: nat, n: nat): Outcome {
    if n == 0 then ZeroFrames
    else if f >= s.total || f + n > s.total then OutOfRange
    else if Range(f, n).Meets(s.zero) || Range(f, n).Meets(s.kernel) then Reserved
    else if !AllUsed(s.fs, f, f + n) then Failed
    else Success
  }

  ghost function Free(s: State, f: nat, n: nat): (State, Outcome) {
    var outcome := FreeOutcome(s, f, n);
    (if outcome == Success then Returned(s, f, n) else s, outcome)
  }

  // ---- counting ----

  /** Turning n frames of one kind into the other kind moves the count by n. */
  lemma {:induction false} CountOverwritten(fs: seq<bool>, lo: nat, hi: nat, value: bool, n: nat)
    requires lo <= hi && n <= |fs| && hi <= |fs|
    requires forall i | lo <= i < hi :: fs[i] == !value
    ensures CountUsed(Overwritten(fs, lo, hi, value), n)
            == CountUsed(fs, n) + (if value then 1 else -1) * Covered(lo, hi, n)
  {
    if n > 0 {
      CountOverwritten(fs, lo, hi, value, n - 1);
    }
  }

  /** How many of the positions lo .. hi - 1 are below n. */
  function Covered(lo: nat, hi: nat, n: nat): nat {
    if n <= lo || hi <= lo then 0 else if n <= hi then n - lo else hi - lo
  }

  lemma {:induction false} CountBound(fs: seq<bool>, n: nat)
    requires n <= |fs|
    ensures CountUsed(fs, n) <= n
    ensures CountUsed(fs, n) == n <==> forall i | 0 <= i < n :: fs[i]
  {
    if n > 0 {
      CountBound(fs, n - 1);
    }
  }

  // ---- one step ----

  lemma GrantIsRun(s: State, n: nat)
    requires Alloc(s, n).1.Some?
    ensures var f := Alloc(s, n).1.value;
            n > 0 && RunAt(s.fs, f, n) && Alloc(s, n).0 == Granted(s, f, n)
  {
  }

  lemma GrantedSound(s: State, f: nat, n: nat)
    requires Sound(s) && n > 0 && RunAt(s.fs, f, n)
    ensures Sound(Granted(s, f, n)) && 0 < f && f + n <= s.total <= MAX_FRAMES
    ensures forall i | f <= i < f + n :: !IsReserved(s, i)
  {
    assert !s.fs[f + n - 1] && !s.fs[f];
  }

  lemma GrantHint(s: State, f: nat, n: nat)
    requires Sound(s) && n > 0 && f + n <= |s.fs|
    ensures HintAfterGrant(Granted(s, f, n).fs, f + n - 1, Granted(s, f, n).hint)
  {
    assert 8 * ((f + n - 1) / 8) + 8 <= |s.fs|;
    hide Overwritten;
  }

  lemma GrantedCounted(s: State, f: nat, n: nat)
    requires Counted(s) && s.total <= MAX_FRAMES && n > 0 && RunAt(s.fs, f, n) && f + n <= s.total
    ensures Counted(Granted(s, f, n)) && Granted(s, f, n).used == s.used + n
  {
    CountOverwritten(s.fs, f, f + n, true, s.total);
    CountBound(Overwritten(s.fs, f, f + n, true), s.total);
    hide CountUsed, Overwritten, FullByte, RunAt;
    assert Covered(f, f + n, s.total) == n;
    NoCarry(s.used + n);
  }

  lemma NoCarry(x: nat)
    requires x < WORD_RANGE
    ensures x % WORD_RANGE == x
  {
  }

  /** The outcomes frame by frame. */
  lemma OutcomeIs(s: State, f: nat, n: nat)
    requires Sound(s)
    ensures var outcome := FreeOutcome(s, f, n);
            && (outcome == ZeroFrames <==> n == 0)
            && (outcome == OutOfRange <==> n > 0 && f + n > s.total)
            && (outcome == Reserved <==> n > 0 && f + n <= s.total && exists i | f <= i < f + n :: IsReserved(s, i))
            && (outcome == Success <==> n > 0 && f + n <= s.total && forall i | f <= i < f + n :: !IsReserved(s, i) && s.fs[i])
  {
    var r := Range(f, n);
    if n > 0 && (r.Meets(s.zero) || r.Meets(s.kernel)) {
      var i := ReservedFrame(s, r);
      assert f <= i < f + n && IsReserved(s, i);
    }
  }

  lemma ReturnedSound(s: State, f: nat, n: nat)
    requires Sound(s) && FreeOutcome(s, f, n) == Success
    ensures Sound(Returned(s, f, n))
  {
    var s' := Returned(s, f, n);
    forall i: nat | i < s.total && IsReserved(s, i)
      ensures s'.fs[i]
    {
      if f <= i < f + n {
        assert false;
      }
    }
  }

  lemma ReturnedCounted(s: State, f: nat, n: nat)
    requires Counted(s) && s.total <= MAX_FRAMES && f + n <= s.total && AllUsed(s.fs, f, f + n)
    ensures Counted(Returned(s, f, n)) && n <= s.used && Returned(s, f, n).used == s.used - n
  {
    CountOverwritten(s.fs, f, f + n, false, s.total);
    CountBound(s.fs, s.total);
  }

  /** After a grant the next search begins at the byte of the last frame handed out, or at the next one
      when that has no free frame left. */
  ghost predicate HintAfterGrant(fs: seq<bool>, last: nat, hint: nat) {
    if exists i | 8 * (last / 8) <= i < 8 * (last / 8) + 8 && i < |fs| :: !fs[i] then 8 * hint <= last < 8 * hint + 8
    else 8 * hint - 8 <= last < 8 * hint
  }

  /** A grant is the earliest run at or above the hint, or else below it; it is made of frames that were
      free, exist, and are not reserved; its address is not null and fits 32 bits; the invariant is kept,
      and so is a right counter. */
  lemma AllocStep(s: State, n: nat)
    requires Sound(s)
    ensures var (s', r) := Alloc(s, n);
            && Sound(s') && (Counted(s) ==> Counted(s'))
            && (r.None? ==> s' == s)
            && (r.None? <==> n == 0 || (NoFit(s.fs, 8 * s.hint, |s.fs|, n) && NoFit(s.fs, 0, 8 * s.hint, n)))
            && (r.Some? ==>
                  && IsAnswer(s.fs, 8 * s.hint, n, r.value)
                  && HintAfterGrant(s'.fs, r.value + n - 1, s'.hint)
                  && s'.total == s.total && s'.zero == s.zero && s'.kernel == s.kernel
                  && n > 0 && 0 < r.value && r.value + n <= s.total
                  && (r.value + n) * FRAME_SIZE <= WORD_RANGE
                  && RunAt(s.fs, r.value, n)
                  && s'.fs == Overwritten(s.fs, r.value, r.value + n, true)
                  && s'.used == (s.used + n) % WORD_RANGE
                  && (Counted(s) ==> s'.used == s.used + n)
                  && (forall f | r.value <= f < r.value + n :: !IsReserved(s, f)))
  {
    hide Counted, Sound, Overwritten, SearchFrom, IsAnswer, NoFit, HintAfterGrant, FullByte, IsReserved;
    if Alloc(s, n).1.Some? {
      var f := Alloc(s, n).1.value;
      GrantIsRun(s, n);
      GrantedSound(s, f, n);
      GrantHint(s, f, n);
      if Counted(s) {
        GrantedCounted(s, f, n);
      }
    }
  }

  lemma FreeStep(s: State, f: nat, n: nat)
    requires Sound(s)
    ensures var (s', outcome) := Free(s, f, n);
            && Sound(s') && (Counted(s) ==> Counted(s'))
            && (outcome == ZeroFrames <==> n == 0)
            && (outcome == OutOfRange <==> n > 0 && f + n > s.total)
            && (outcome == Reserved <==> n > 0 && f + n <= s.total && exists i | f <= i < f + n :: IsReserved(s, i))
            && (outcome == Success <==> n > 0 && f + n <= s.total && forall i | f <= i < f + n :: !IsReserved(s, i) && s.fs[i])
            && (outcome != Success ==> s' == s)
            && (outcome == Success ==>
                  && 8 * s'.hint <= (if 8 * s.hint <= f then 8 * s.hint else f) < 8 * s'.hint + 8
                  && s'.total == s.total && s'.zero == s.zero && s'.kernel == s.kernel)
            && (outcome == Success ==> s'.fs == Overwritten(s.fs, f, f + n, false) && s'.used == Sub32(s.used, n))
            && (outcome == Success && Counted(s) ==> s'.used == s.used - n)
  {
    OutcomeIs(s, f, n);
    if FreeOutcome(s, f, n) == Success {
      ReturnedSound(s, f, n);
      if Counted(s) {
        ReturnedCounted(s, f, n);
      }
    }
    hide Counted, Sound, Overwritten, FreeOutcome, Sub32;
  }

  lemma CounterBack(used: nat, n: nat)
    requires used < WORD_RANGE && n <= MAX_FRAMES
    ensures Sub32((used + n) % WORD_RANGE, n) == used
  {
  }

  lemma GrantedThenReturned(s: State, f: nat, n: nat)
    requires s.used < WORD_RANGE && 0 < n <= MAX_FRAMES && RunAt(s.fs, f, n)
    ensures Returned(Granted(s, f, n), f, n) == s.(hint := f / 8)
  {
    hide Sub32, FullByte;
    var s1 := Granted(s, f, n);
    assert Returned(s1, f, n).fs == s.fs;
    assert f / 8 <= (f + n - 1) / 8 <= s1.hint;
    CounterBack(s.used, n);
  }

  /** Returning a grant always succeeds, restores frames and counter, and puts the hint at the
      first byte of the run. */
  lemma AllocThenFree(s: State, n: nat)
    requires Sound(s) && Alloc(s, n).1.Some?
    ensures var (s1, r) := Alloc(s, n);
            var (s2, outcome) := Free(s1, r.value, n);
            outcome == Success && s2 == s.(hint := r.value / 8)
  {
    AllocStep(s, n);
    GrantIsRun(s, n);
    GrantNotReserved(s, n);
    var f := Alloc(s, n).1.value;
    GrantedThenReturned(s, f, n);
    hide Alloc, SearchFrom, Returned, Sound;
    assert FreeOutcome(Granted(s, f, n), f, n) == Success;
  }

  /** A request for one frame fails iff every frame is used, which a right counter shows. */
  lemma SingleExhaustion(s: State)
    requires Sound(s)
    ensures Alloc(s, 1).1.None? <==> AllUsed(s.fs, 0, s.total)
    ensures Counted(s) ==> (Alloc(s, 1).1.None? <==> s.used == s.total)
  {
    CountBound(s.fs, s.total);
    SearchMissesStraddling(s.fs, 8 * s.hint, 1);
    if AllUsed(s.fs, 0, s.total) {
      forall f: nat
        ensures !RunAt(s.fs, f, 1)
      {
        if f < |s.fs| {
          assert s.fs[f];
        }
      }
    } else {
      var f :| 0 <= f < s.total && !s.fs[f];
      assert RunAt(s.fs, f, 1);
    }
  }

  // ---- histories without contiguous allocation ----

  /** Nothing below the hint is free. */
  ghost predicate Tight(s: State) {
    8 * s.hint <= |s.fs| && forall f | 0 <= f < 8 * s.hint :: s.fs[f]
  }

  /** Single-frame allocation keeps the hint tight. */
  lemma TightAfterAlloc(s: State)
    requires Sound(s) && Tight(s)
    ensures Tight(Alloc(s, 1).0)
  {
    AllocStep(s, 1);
    var (s', r) := Alloc(s, 1);
    if r.Some? {
      var a := r.value;
      assert !s.fs[a];
      assert IsFirstFit(s.fs, 8 * s.hint, |s.fs|, 1, a);
      forall g | 0 <= g < 8 * s'.hint
        ensures s'.fs[g]
      {
        if 8 * s.hint <= g < a {
          assert !RunAt(s.fs, g, 1);
        }
      }
    }
  }

  /** Every kind of release keeps the hint tight. */
  lemma TightAfterFree(s: State, f: nat, n: nat)
    requires Sound(s) && Tight(s)
    ensures Tight(Free(s, f, n).0)
  {
    FreeStep(s, f, n);
  }

  /** With a tight hint one frame means the lowest free frame of all, and a search for any number
      of frames is complete. */
  lemma TightIsLowest(s: State, n: nat)
    requires Sound(s) && Tight(s) && n > 0
    ensures match Alloc(s, n).1
            case None => NoFit(s.fs, 0, |s.fs|, n)
            case Some(f) => IsFirstFit(s.fs, 0, |s.fs|, n, f)
  {
    SearchCompleteAtEdge(s.fs, 8 * s.hint, n);
    forall g | 0 <= g < 8 * s.hint
      ensures !RunAt(s.fs, g, n)
    {
      assert s.fs[g];
    }
  }

  // ---- runs with arbitrary callers ----

  datatype Op = Take(n: nat) | Give(f: nat, m: nat)

  ghost function Step(s: State, op: Op): State {
    match op
    case Take(n) => Alloc(s, n).0
    case Give(f, n) => Free(s, f, n).0
  }

  ghost function Run(s: State, ops: seq<Op>): State
    decreases |ops|
  {
    if ops == [] then s else Run(Step(s, ops[0]), ops[1..])
  }

  /** The ranges handed out along a run. */
  ghost function Grants(s: State, ops: seq<Op>): seq<Range>
    decreases |ops|
  {
    if ops == [] then []
    else
      var rest := Grants(Step(s, ops[0]), ops[1..]);
      if ops[0].Take? && Alloc(s, ops[0].n).1.Some? then [Range(Alloc(s, ops[0].n).1.value, ops[0].n)] + rest
      else rest
  }

  /** Whatever callers do, and whatever they free, and whether the counter is right or not: the
      invariant holds at the end of every run, and nothing handed out is null, reserved, or beyond the
      managed frames.  A right counter stays right. */
  lemma {:induction false} EveryRunIsSafe(s: State, ops: seq<Op>)
    requires Sound(s)
    ensures var s' := Run(s, ops);
            Sound(s') && (Counted(s) ==> Counted(s')) && s'.total == s.total && s'.zero == s.zero && s'.kernel == s.kernel
    ensures forall g | g in Grants(s, ops) ::
              && 0 < g.base && 0 < g.length && g.base + g.length <= s.total
              && !g.Meets(s.zero) && !g.Meets(s.kernel)
    decreases |ops|
  {
    if ops != [] {
      match ops[0] {
        case Take(n) => AllocStep(s, n);
        case Give(f, n) => FreeStep(s, f, n);
      }
      EveryRunIsSafe(Step(s, ops[0]), ops[1..]);
      if ops[0].Take? && Alloc(s, ops[0].n).1.Some? {
        GrantNotReserved(s, ops[0].n);
      }
    }
  }

  /** Over every run that takes single frames only, nothing below the hint is free: the next frame
      taken is the lowest free frame of all, and a search fails only when there is no such run. */
  lemma {:induction false} SingleRunsAreTight(s: State, ops: seq<Op>, n: nat)
    requires Sound(s) && Tight(s) && n > 0
    requires forall i | 0 <= i < |ops| && ops[i].Take? :: ops[i].n == 1
    ensures var s' := Run(s, ops);
            && Sound(s') && Tight(s')
            && match Alloc(s', n).1
               case None => NoFit(s'.fs, 0, |s'.fs|, n)
               case Some(f) => IsFirstFit(s'.fs, 0, |s'.fs|, n, f)
    decreases |ops|
  {
    if ops == [] {
      TightIsLowest(s, n);
    } else {
      match ops[0] {
        case Take(_) =>
          TightAfterAlloc(s);
          AllocStep(s, 1);
        case Give(f, m) =>
          TightAfterFree(s, f, m);
          FreeStep(s, f, m);
      }
      SingleRunsAreTight(Step(s, ops[0]), ops[1..], n);
    }
  }

  /** A range that meets a reserved range contains a reserved frame. */
  lemma ReservedFrame(s: State, r: Range) returns (f: nat)
    requires r.length > 0 && s.zero.length > 0 && s.kernel.length > 0
    requires r.Meets(s.zero) || r.Meets(s.kernel)
    ensures r.Has(f) && IsReserved(s, f)
  {
    var other := if r.Meets(s.zero) then s.zero else s.kernel;
    f := if r.base >= other.base then r.base else other.base;
  }

  lemma GrantNotReserved(s: State, n: nat)
    requires Sound(s) && Alloc(s, n).1.Some?
    ensures var g := Range(Alloc(s, n).1.value, n);
            !g.Meets(s.zero) && !g.Meets(s.kernel)
  {
    AllocStep(s, n);
    var g := Range(Alloc(s, n).1.value, n);
    if g.Meets(s.zero) || g.Meets(s.kernel) {
      var f := ReservedFrame(s, g);
      assert false;
    }
  }

  // ---- runs with callers that free only what they hold ----

  /** holdings[c] is the set of frames that caller c has been given and has not returned. */
  datatype Shared = Shared(s: State, holdings: seq<set<nat>>)

  datatype CallerOp = Request(caller: nat, n: nat) | Release(caller: nat, f: nat, m: nat)

  function FramesOf(f: nat, n: nat): (r: set<nat>)
    ensures forall i :: i in r <==> f <= i < f + n
  {
    if n == 0 then {} else FramesOf(f, n - 1) + {f + n - 1}
  }

  /** A caller may release any frames it holds, in any grouping. */
  ghost predicate Legal(c: Shared, op: CallerOp) {
    && op.caller < |c.holdings|
    && (op.Release? ==> FramesOf(op.f, op.m) <= c.holdings[op.caller])
  }

  ghost function CallerStep(c: Shared, op: CallerOp): Shared
    requires Legal(c, op)
  {
    var mine := c.holdings[op.caller];
    match op
    case Request(caller, n) =>
      var (s', r) := Alloc(c.s, n);
      Shared(s', c.holdings[caller := if r.Some? then mine + FramesOf(r.value, n) else mine])
    case Release(caller, f, n) =>
      Shared(Free(c.s, f, n).0, c.holdings[caller := mine - FramesOf(f, n)])
  }

  ghost predicate LegalRun(c: Shared, ops: seq<CallerOp>)
    decreases |ops|
  {
    ops == [] || (Legal(c, ops[0]) && LegalRun(CallerStep(c, ops[0]), ops[1..]))
  }

  ghost function CallerRun(c: Shared, ops: seq<CallerOp>): Shared
    requires LegalRun(c, ops)
    decreases |ops|
  {
    if ops == [] then c else CallerRun(CallerStep(c, ops[0]), ops[1..])
  }

  ghost predicate Held(holdings: seq<set<nat>>, f: nat) {
    exists k | 0 <= k < |holdings| :: f in holdings[k]
  }

  ghost predicate Disjoint(holdings: seq<set<nat>>) {
    forall j, k | 0 <= j < k < |holdings| :: holdings[j] !! holdings[k]
  }

  /** One holding grows by frames that nobody holds. */
  lemma HoldingGrows(holdings: seq<set<nat>>, i: nat, given: set<nat>)
    requires i < |holdings| && Disjoint(holdings)
    requires forall f: nat | f in given :: !Held(holdings, f)
    ensures var after := holdings[i := holdings[i] + given];
            Disjoint(after) && forall f: nat :: Held(after, f) <==> Held(holdings, f) || f in given
  {
    var after := holdings[i := holdings[i] + given];
    forall f: nat
      ensures Held(after, f) <==> Held(holdings, f) || f in given
    {
      if f in given {
        assert f in after[i];
      }
      if Held(holdings, f) {
        var k :| 0 <= k < |holdings| && f in holdings[k];
        assert f in after[k];
      }
    }
    forall k | 0 <= k < |holdings|
      ensures given !! holdings[k]
    {
      forall f | f in given && f in holdings[k]
        ensures false
      {
        assert Held(holdings, f);
      }
    }
  }

  /** One holding shrinks by frames that are in it. */
  lemma HoldingShrinks(holdings: seq<set<nat>>, i: nat, back: set<nat>)
    requires i < |holdings| && Disjoint(holdings) && back <= holdings[i]
    ensures var after := holdings[i := holdings[i] - back];
            Disjoint(after) && forall f: nat :: Held(after, f) <==> Held(holdings, f) && f !in back
  {
    var after := holdings[i := holdings[i] - back];
    forall f: nat
      ensures Held(after, f) <==> Held(holdings, f) && f !in back
    {
      if Held(after, f) {
        var k :| 0 <= k < |after| && f in after[k];
        assert f in holdings[k];
      }
      if Held(holdings, f) && f !in back {
        var k :| 0 <= k < |holdings| && f in holdings[k];
        assert f in after[k];
      }
    }
  }

  /** Every frame that was free at the start is now either free or held by exactly one caller, and
      no other frame is free or held. */
  ghost predicate Fair(start: seq<bool>, c: Shared) {
    && Sound(c.s) && |start| == |c.s.fs| && Disjoint(c.holdings)
    && (forall f: nat | f < |start| :: !c.s.fs[f] <==> !start[f] && !Held(c.holdings, f))
    && (forall f: nat | Held(c.holdings, f) :: f < c.s.total <= |start| && !start[f] && !IsReserved(c.s, f))
  }

  lemma RequestFair(start: seq<bool>, c: Shared, op: CallerOp)
    requires Fair(start, c) && op.Request? && Legal(c, op)
    ensures Fair(start, CallerStep(c, op))
  {
    AllocStep(c.s, op.n);
    var r := Alloc(c.s, op.n).1;
    if r.Some? {
      hide Alloc, Sound, Held, Disjoint;
      HoldingGrows(c.holdings, op.caller, FramesOf(r.value, op.n));
    } else {
      assert CallerStep(c, op).holdings == c.holdings;
    }
  }

  /** A caller that releases frames it holds always succeeds. */
  lemma ReleaseSucceeds(start: seq<bool>, c: Shared, op: CallerOp)
    requires Fair(start, c) && op.Release? && Legal(c, op) && op.m > 0
    ensures Free(c.s, op.f, op.m).1 == Success
  {
    var f, n := op.f, op.m;
    forall i | f <= i < f + n
      ensures i < c.s.total && c.s.fs[i] && !IsReserved(c.s, i)
    {
      assert i in FramesOf(f, n);
      assert i in c.holdings[op.caller];
      assert Held(c.holdings, i);
    }
    assert Held(c.holdings, f + n - 1) by {
      assert f + n - 1 in FramesOf(f, n);
      assert f + n - 1 in c.holdings[op.caller];
    }
    var r := Range(f, n);
    if r.Meets(c.s.zero) || r.Meets(c.s.kernel) {
      var i := ReservedFrame(c.s, r);
      assert false;
    }
  }

  lemma ReleaseFair(start: seq<bool>, c: Shared, op: CallerOp)
    requires Fair(start, c) && op.Release? && Legal(c, op)
    ensures Fair(start, CallerStep(c, op))
  {
    var mine, back := c.holdings[op.caller], FramesOf(op.f, op.m);
    FreeStep(c.s, op.f, op.m);
    if op.m == 0 {
      assert mine - back == mine;
      assert CallerStep(c, op).holdings == c.holdings;
    } else {
      ReleaseSucceeds(start, c, op);
      HoldingShrinks(c.holdings, op.caller, back);
      forall f: nat | f in back
        ensures Held(c.holdings, f)
      {
        assert f in mine;
      }
      hide Free, Sound, Disjoint, Held;
    }
  }

  /** Over every legal run callers hold disjoint sets of frames that were free at the start, and
      together with the frames still free these are all the frames that were free at the start. */
  lemma {:induction false} EveryCallerRunIsFair(start: seq<bool>, c: Shared, ops: seq<CallerOp>)
    requires Fair(start, c) && LegalRun(c, ops)
    ensures Fair(start, CallerRun(c, ops))
    decreases |ops|
  {
    if ops != [] {
      if ops[0].Request? {
        RequestFair(start, c, ops[0]);
      } else {
        ReleaseFair(start, c, ops[0]);
      }
      EveryCallerRunIsFair(start, CallerStep(c, ops[0]), ops[1..]);
    }
  }
}
