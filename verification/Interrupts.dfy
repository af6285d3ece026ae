/** Interrupt entry and exit as a machine over the stack pointer, the words on the stacks and the two
    nesting counters, and the stack sizes that the linker script reserves for it. */
module Interrupts {
  import opened Wrappers

  const EXCEPTION_COUNT_MAX: nat := 3
  const PIC_COUNT_MAX: nat := 15
  const FIRST_IRQ: nat := 0x20

  /** Bytes pushed before the stack is switched: the processor's frame, the vector, an error code
      and the eight general registers. */
  const PREAMBLE: nat := 52

  // ---- the linker script ----

  /** rawKernel and rawInterrupt are the bytes that the kernel, or one interrupt, uses by itself.
      The kernel stack ends where the interrupt stack begins. */
  datatype Stacks = Stacks(kernelBottom: nat, rawKernel: nat, rawInterrupt: nat) {
    function KernelStackSize(): nat { rawKernel + PREAMBLE }

    function InterruptStackSize(): nat { rawInterrupt + (rawInterrupt + PREAMBLE) * 17 }

    function Bottom(): nat { kernelBottom + KernelStackSize() }

    function Top(): nat { Bottom() + InterruptStackSize() }

    /** An activation pushes at least the saved stack pointer. */
    predicate Sensible() { rawInterrupt >= 4 }
  }

  // ---- the machine ----

  /** mem: the words on the stacks, by address; a word takes four bytes. */
  datatype Cpu = Cpu(esp: nat, mem: map<nat, nat>, pic: nat, exception: nat)

  /** The words at address, address + 4, and so on. */
  function StoreWords(mem: map<nat, nat>, address: nat, words: seq<nat>): (r: map<nat, nat>)
    ensures forall i | 0 <= i < |words| :: address + 4 * i in r && r[address + 4 * i] == words[i]
    ensures forall a | a in mem && (a < address || a >= address + 4 * |words|) :: a in r && r[a] == mem[a]
    decreases |words|
  {
    if words == [] then mem
    else
      var last := |words| - 1;
      StoreWords(mem, address, words[..last])[address + 4 * last := words[last]]
  }

  /** A stub and common_interrupt_entry up to the call of the dispatcher.  The frame is thirteen
      words, lowest first; word 8 is the vector.  None is nesting_overflow_hlt. */
  function Enter(s: Stacks, cpu: Cpu, vector: nat, frame: seq<nat>): Option<Cpu>
    requires |frame| == 13 && frame[8] == vector && cpu.esp >= PREAMBLE && s.Top() >= 4
  {
    if vector < FIRST_IRQ && cpu.exception >= EXCEPTION_COUNT_MAX then None
    else if vector >= FIRST_IRQ && cpu.pic >= PIC_COUNT_MAX then None
    else
      var edx := cpu.esp - PREAMBLE;
      var mem := StoreWords(cpu.mem, edx, frame);
      var esp := if edx <= s.Bottom() then s.Top() else edx;
      var esp' := if edx > s.Top() then s.Top() else esp;
      if esp' < 4 then None
      else
        Some(Cpu(esp' - 4, mem[esp' - 4 := edx],
                 if vector >= FIRST_IRQ then cpu.pic + 1 else cpu.pic,
                 if vector < FIRST_IRQ then cpu.exception + 1 else cpu.exception))
  }

  /** common_interrupt_entry from the pop of the stack pointer to iret. */
  function Leave(cpu: Cpu): Option<Cpu> {
    if cpu.esp !in cpu.mem then None
    else
      var edx := cpu.mem[cpu.esp];
      if edx + 0x20 !in cpu.mem then None
      else
        var irq := cpu.mem[edx + 0x20] >= 0x20;
        if (if irq then cpu.pic else cpu.exception) == 0 then None
        else
          Some(Cpu(edx + PREAMBLE, cpu.mem, if irq then cpu.pic - 1 else cpu.pic,
                   if irq then cpu.exception else cpu.exception - 1))
  }

  // ---- runs ----

  /** An interrupt being served: its vector, the stack pointer it interrupted, and the stack pointer
      that the common entry ran on. */
  datatype Activation = Activation(vector: nat, before: nat, start: nat) {
    /** Where the stack pointer of the interrupted code is saved. */
    function Slot(): int { start - 4 }

    /** The address of the saved frame. */
    function Frame(): int { before - PREAMBLE }
  }

  /** The machine, with the interrupts being served, innermost last. */
  datatype Config = Config(cpu: Cpu, live: seq<Activation>)

  /** What can happen next: code runs, an interrupt arrives, or the innermost handler returns. */
  datatype Event =
    | Work(esp: nat, address: nat, words: seq<nat>)
    | Interrupt(vector: nat, frame: seq<nat>)
    | Return

  /** Code uses its own part of its stack only: the kernel at most rawKernel bytes of the kernel stack,
      a handler at most rawInterrupt bytes below the stack pointer it was entered on. */
  ghost predicate Allowed(s: Stacks, c: Config, e: Event) {
    match e
    case Work(esp, address, words) =>
      var n := |c.live|;
      if n == 0 then
        s.Bottom() - s.rawKernel <= esp <= s.Bottom() && s.kernelBottom <= address && address + 4 * |words| <= s.Bottom()
      else
        var a := c.live[n - 1];
        a.start - s.rawInterrupt <= esp <= a.Slot() && a.start - s.rawInterrupt <= address && address + 4 * |words| <= a.Slot()
    case Interrupt(vector, frame) => vector < 48 && |frame| == 13 && frame[8] == vector
    case Return => c.live != [] && c.cpu.esp == c.live[|c.live| - 1].Slot()
  }

  /** The next configuration; None when the machine has halted, or would have got lost. */
  ghost function Next(s: Stacks, c: Config, e: Event): Option<Config> {
    match e
    case Work(esp, address, words) => Some(Config(c.cpu.(esp := esp, mem := StoreWords(c.cpu.mem, address, words)), c.live))
    case Interrupt(vector, frame) =>
      if |frame| != 13 || frame[8] != vector || c.cpu.esp < PREAMBLE || s.Top() < 4 then None
      else (match Enter(s, c.cpu, vector, frame)
            case None => None
            case Some(cpu) => Some(Config(cpu, c.live + [Activation(vector, c.cpu.esp, cpu.esp + 4)])))
    case Return =>
      match Leave(c.cpu)
      case None => None
      case Some(cpu) => if c.live == [] then None else Some(Config(cpu, c.live[..|c.live| - 1]))
  }

  /** How many of the interrupts being served are hardware interrupts, vectors 32 and up, or are not. */
  function CountKind(live: seq<Activation>, irq: bool): nat {
    if live == [] then 0
    else CountKind(live[..|live| - 1], irq) + if (live[|live| - 1].vector >= 32) == irq then 1 else 0
  }

  lemma {:induction false} CountBoth(live: seq<Activation>)
    ensures CountKind(live, true) + CountKind(live, false) == |live|
  {
    if live != [] {
      CountBoth(live[..|live| - 1]);
    }
  }

  /** How far below the top the k-th activation can start, when each one before it used all it may. */
  function Below(s: Stacks, k: nat): nat {
    if k == 0 then 0 else Below(s, k - 1) + s.rawInterrupt + PREAMBLE
  }

  /** The first interrupt switches to the top of the interrupt stack; a nested one stays where it is,
      inside the part of the stack that the handler it interrupted may use. */
  ghost predicate NestedAt(s: Stacks, live: seq<Activation>, k: nat)
    requires k < |live|
  {
    && live[k].start >= s.Top() - Below(s, k)
    && if k == 0 then live[k].start == s.Top() && s.kernelBottom + PREAMBLE <= live[k].before <= s.Bottom()
       else && live[k].start == live[k].Frame()
            && live[k - 1].start - s.rawInterrupt <= live[k].before <= live[k - 1].Slot()
  }

  ghost predicate Nested(s: Stacks, live: seq<Activation>) {
    forall k: nat | k < |live| :: NestedAt(s, live, k)
  }

  /** An activation finds its saved stack pointer and vector where the exit path looks for them. */
  ghost predicate SavedAt(mem: map<nat, nat>, a: Activation) {
    && a.Slot() in mem && mem[a.Slot()] == a.Frame()
    && a.Frame() + 0x20 in mem && mem[a.Frame() + 0x20] == a.vector
  }

  ghost predicate Saved(mem: map<nat, nat>, live: seq<Activation>) {
    forall k | 0 <= k < |live| :: SavedAt(mem, live[k])
  }

  ghost predicate Inv(s: Stacks, c: Config) {
    && s.Sensible()
    && c.cpu.pic == CountKind(c.live, true) <= PIC_COUNT_MAX
    && c.cpu.exception == CountKind(c.live, false) <= EXCEPTION_COUNT_MAX
    && Nested(s, c.live)
    && Saved(c.cpu.mem, c.live)
    && if c.live == [] then s.kernelBottom + PREAMBLE <= c.cpu.esp <= s.Bottom()
       else c.live[|c.live| - 1].start - s.rawInterrupt <= c.cpu.esp <= c.live[|c.live| - 1].Slot()
  }

  lemma {:induction false} BelowIs(s: Stacks, k: nat)
    ensures Below(s, k) == k * (s.rawInterrupt + PREAMBLE)
  {
    if k > 0 {
      BelowIs(s, k - 1);
    }
  }

  lemma BelowBound(s: Stacks, k: nat)
    requires k <= 17
    ensures s.Bottom() + s.rawInterrupt <= s.Top() - Below(s, k)
  {
    BelowIs(s, k);
    assert k * (s.rawInterrupt + PREAMBLE) <= 17 * (s.rawInterrupt + PREAMBLE);
  }

  /** Later activations start lower, by a preamble at least. */
  lemma {:induction false} StartsDescend(s: Stacks, live: seq<Activation>, j: nat, k: nat)
    requires Nested(s, live) && j < k < |live|
    ensures live[k].start == live[k].Frame() && live[k].start + PREAMBLE + 4 <= live[j].start
    decreases k
  {
    assert NestedAt(s, live, k);
    if j < k - 1 {
      StartsDescend(s, live, j, k - 1);
    }
  }

  /** Where the activations and their frames lie. */
  lemma Places(s: Stacks, live: seq<Activation>, k: nat)
    requires s.Sensible() && Nested(s, live) && k < |live| <= PIC_COUNT_MAX + EXCEPTION_COUNT_MAX
    ensures s.Bottom() + s.rawInterrupt <= live[k].start <= s.Top()
    ensures k == 0 ==> live[k].start == s.Top() && s.kernelBottom <= live[k].Frame() <= s.Bottom() - PREAMBLE
    ensures k > 0 ==> live[k].Frame() == live[k].start
    ensures live[|live| - 1].start <= live[k].start
  {
    assert NestedAt(s, live, k);
    BelowBound(s, k);
    if k > 0 {
      StartsDescend(s, live, 0, k);
      assert NestedAt(s, live, 0);
    }
    if k < |live| - 1 {
      StartsDescend(s, live, k, |live| - 1);
    }
  }

  lemma LiveBound(s: Stacks, c: Config)
    requires Inv(s, c)
    ensures |c.live| <= PIC_COUNT_MAX + EXCEPTION_COUNT_MAX
  {
    CountBoth(c.live);
  }

  /** Where the stack pointer can be, whatever is being served. */
  lemma EspBounds(s: Stacks, c: Config)
    requires Inv(s, c)
    ensures c.cpu.esp >= PREAMBLE && s.Top() >= 4
    ensures if c.live == [] then s.kernelBottom + PREAMBLE <= c.cpu.esp <= s.Bottom()
            else s.Bottom() <= c.cpu.esp < s.Top()
  {
    LiveBound(s, c);
    if c.live != [] {
      Places(s, c.live, |c.live| - 1);
    }
  }

  /** Words written below the innermost saved stack pointer, and above the deepest stack pointer of
      its handler, leave everything saved in place. */
  lemma WorkKeepsSaved(s: Stacks, c: Config, address: nat, words: seq<nat>)
    requires Inv(s, c) && c.live != []
    requires var a := c.live[|c.live| - 1];
             a.start - s.rawInterrupt <= address && address + 4 * |words| <= a.Slot()
    ensures Saved(StoreWords(c.cpu.mem, address, words), c.live)
  {
    LiveBound(s, c);
    Places(s, c.live, |c.live| - 1);
    forall k: nat | k < |c.live|
      ensures SavedAt(StoreWords(c.cpu.mem, address, words), c.live[k])
    {
      Places(s, c.live, k);
      assert SavedAt(c.cpu.mem, c.live[k]);
    }
  }

  lemma WorkStep(s: Stacks, c: Config, e: Event)
    requires Inv(s, c) && e.Work? && Allowed(s, c, e)
    ensures Next(s, c, e).Some? && Inv(s, Next(s, c, e).value)
  {
    if c.live != [] {
      WorkKeepsSaved(s, c, e.address, e.words);
    }
  }

  /** The activation that an accepted interrupt adds. */
  lemma EnterActivation(s: Stacks, c: Config, e: Event)
    requires Inv(s, c) && e.Interrupt? && Allowed(s, c, e)
    ensures Next(s, c, e).None? <==> if e.vector >= FIRST_IRQ then c.cpu.pic == PIC_COUNT_MAX
                                     else c.cpu.exception == EXCEPTION_COUNT_MAX
    ensures Next(s, c, e).Some?
            ==> && |c.live| <= 17
                && var start := if c.live == [] then s.Top() else c.cpu.esp - PREAMBLE;
                   var c' := Next(s, c, e).value;
                   && c'.live == c.live + [Activation(e.vector, c.cpu.esp, start)]
                   && c'.cpu.esp == start - 4
                   && c'.cpu.mem == StoreWords(c.cpu.mem, c.cpu.esp - PREAMBLE, e.frame)[start - 4 := c.cpu.esp - PREAMBLE]
                   && c'.cpu.pic == c.cpu.pic + (if e.vector >= FIRST_IRQ then 1 else 0)
                   && c'.cpu.exception == c.cpu.exception + (if e.vector >= FIRST_IRQ then 0 else 1)
  {
    hide StoreWords, Nested, Saved, CountKind, Below;
    EspBounds(s, c);
    CountBoth(c.live);
    if c.live != [] && |c.live| <= 17 {
      Deepest(s, c);
    }
  }

  /** A nested interrupt never mistakes the interrupt stack for another one: even at full depth its
      frame lies above the bottom. */
  lemma Deepest(s: Stacks, c: Config)
    requires Inv(s, c) && 0 < |c.live| <= 17
    ensures s.Bottom() < s.Top() - Below(s, |c.live|) <= c.cpu.esp - PREAMBLE < s.Top()
  {
    var n := |c.live| - 1;
    assert NestedAt(s, c.live, n);
    Places(s, c.live, n);
    BelowBound(s, n + 1);
  }

  lemma EnterNested(s: Stacks, c: Config, e: Event)
    requires Inv(s, c) && e.Interrupt? && Allowed(s, c, e) && Next(s, c, e).Some?
    ensures Nested(s, Next(s, c, e).value.live)
  {
    hide Next, Saved;
    EnterActivation(s, c, e);
    var c' := Next(s, c, e).value;
    forall k: nat | k < |c'.live|
      ensures NestedAt(s, c'.live, k)
    {
      if k < |c.live| {
        assert NestedAt(s, c.live, k);
      } else if k > 0 {
        Deepest(s, c);
      }
    }
  }

  lemma EnterSaved(s: Stacks, c: Config, e: Event)
    requires Inv(s, c) && e.Interrupt? && Allowed(s, c, e) && Next(s, c, e).Some?
    ensures Saved(Next(s, c, e).value.cpu.mem, Next(s, c, e).value.live)
  {
    hide Next;
    EnterActivation(s, c, e);
    EspBounds(s, c);
    var c' := Next(s, c, e).value;
    var n := |c.live|;
    if n > 0 {
      Deepest(s, c);
    }
    forall k: nat | k <= n
      ensures SavedAt(c'.cpu.mem, c'.live[k])
    {
      if k < n {
        Places(s, c.live, k);
        assert SavedAt(c.cpu.mem, c.live[k]);
      } else {
        assert c'.live[n].Frame() + 0x20 == (c.cpu.esp - PREAMBLE) + 4 * 8;
      }
    }
  }

  lemma EnterFrame(s: Stacks, c: Config, e: Event)
    requires Inv(s, c) && e.Interrupt? && Allowed(s, c, e) && Next(s, c, e).Some?
    ensures var mem := Next(s, c, e).value.cpu.mem;
            forall i | 0 <= i < 13 :: c.cpu.esp - 52 + 4 * i in mem && mem[c.cpu.esp - 52 + 4 * i] == e.frame[i]
  {
    hide Next, Saved, Nested, CountKind;
    EnterActivation(s, c, e);
    EspBounds(s, c);
  }

  /** An interrupt is refused iff its counter is at its limit; otherwise the invariant is kept. */
  lemma InterruptKeeps(s: Stacks, c: Config, e: Event)
    requires Inv(s, c) && e.Interrupt? && Allowed(s, c, e)
    ensures Next(s, c, e).None? <==> if e.vector >= FIRST_IRQ then c.cpu.pic == PIC_COUNT_MAX
                                     else c.cpu.exception == EXCEPTION_COUNT_MAX
    ensures Next(s, c, e).Some? ==> Inv(s, Next(s, c, e).value)
  {
    hide Next, Saved, Nested;
    EnterActivation(s, c, e);
    if Next(s, c, e).Some? {
      EnterNested(s, c, e);
      EnterSaved(s, c, e);
      var live' := Next(s, c, e).value.live;
      assert live'[..|live'| - 1] == c.live;
    }
  }

  /** An interrupt is refused iff as many of its kind are being served as may be: fifteen hardware
      interrupts, vectors 32 and up, or three exceptions.  Otherwise the thirteen words of its frame stand
      right below the interrupted stack pointer, and the invariant is kept. */
  lemma InterruptStep(s: Stacks, c: Config, e: Event)
    requires Inv(s, c) && e.Interrupt? && Allowed(s, c, e)
    ensures Next(s, c, e).None? <==> if e.vector >= 32 then CountKind(c.live, true) == 15 else CountKind(c.live, false) == 3
    ensures Next(s, c, e).Some?
            ==> var c' := Next(s, c, e).value;
                && Inv(s, c') && |c'.live| == |c.live| + 1 && c'.live[|c.live|].before == c.cpu.esp
                && forall i | 0 <= i < 13 ::
                     c.cpu.esp - 52 + 4 * i in c'.cpu.mem && c'.cpu.mem[c.cpu.esp - 52 + 4 * i] == e.frame[i]
  {
    hide Next, Saved, Nested;
    InterruptKeeps(s, c, e);
    if Next(s, c, e).Some? {
      EnterActivation(s, c, e);
      EnterFrame(s, c, e);
    }
  }

  /** The exit path restores the interrupted stack pointer and the counter of the right kind. */
  lemma ReturnStep(s: Stacks, c: Config, e: Event)
    requires Inv(s, c) && e.Return? && Allowed(s, c, e)
    ensures Next(s, c, e).Some? && Inv(s, Next(s, c, e).value)
    ensures Next(s, c, e).value.cpu.esp == c.live[|c.live| - 1].before
  {
    var n := |c.live| - 1;
    var a, rest := c.live[n], c.live[..n];
    assert SavedAt(c.cpu.mem, a);
    assert NestedAt(s, c.live, n);
    LiveBound(s, c);
    Places(s, c.live, n);
    forall k: nat | k < n
      ensures NestedAt(s, rest, k)
    {
      assert NestedAt(s, c.live, k);
    }
  }

  ghost predicate AllowedRun(s: Stacks, c: Config, events: seq<Event>)
    decreases |events|
  {
    events == [] || (Allowed(s, c, events[0])
                     && (Next(s, c, events[0]).Some? ==> AllowedRun(s, Next(s, c, events[0]).value, events[1..])))
  }

  /** The configuration a run ends in; a refused interrupt halts the machine where it is. */
  ghost function Run(s: Stacks, c: Config, events: seq<Event>): Config
    decreases |events|
  {
    if events == [] || Next(s, c, events[0]).None? then c else Run(s, Next(s, c, events[0]).value, events[1..])
  }

  /** Over every run the counters are the numbers of interrupts being served of each kind, and the
      stack pointer stays inside the stack that the linker script reserves. */
  lemma {:induction false} EveryRunFits(s: Stacks, c: Config, events: seq<Event>)
    requires Inv(s, c) && AllowedRun(s, c, events)
    ensures var r := Run(s, c, events);
            && r.cpu.pic == CountKind(r.live, true) <= 15
            && r.cpu.exception == CountKind(r.live, false) <= 3
            && (if r.live == [] then s.kernelBottom + PREAMBLE <= r.cpu.esp <= s.Bottom()
                else s.Bottom() <= r.cpu.esp < s.Top())
            && Inv(s, r)
    decreases |events|
  {
    if events == [] {
      EspBounds(s, c);
    } else {
      match events[0] {
        case Work(_, _, _) => WorkStep(s, c, events[0]);
        case Interrupt(_, _) => InterruptStep(s, c, events[0]);
        case Return => ReturnStep(s, c, events[0]);
      }
      if Next(s, c, events[0]).Some? {
        EveryRunFits(s, Next(s, c, events[0]).value, events[1..]);
      } else {
        EspBounds(s, c);
      }
    }
  }

  // ---- the reserved size is the least ----

  /** The interrupts of a worst run: fifteen hardware interrupts, then three exceptions. */
  function WorstVector(k: nat): nat {
    if k < PIC_COUNT_MAX then FIRST_IRQ + k else 0
  }

  function WorstFrame(k: nat): seq<nat> {
    seq(13, i => if i == 8 then WorstVector(k) else 0)
  }

  /** The stack pointer when activation k has used all that it may, and so has every one before it. */
  function DeepEsp(s: Stacks, k: nat): nat
    requires k <= 17
  {
    BelowBound(s, k);
    s.Top() - Below(s, k) - s.rawInterrupt
  }

  /** An interrupt arrives, and its handler uses all that it may. */
  function WorstPair(s: Stacks, k: nat): seq<Event>
    requires k <= 17
  {
    [Interrupt(WorstVector(k), WorstFrame(k)), Work(DeepEsp(s, k), DeepEsp(s, k), [])]
  }

  function WorstRun(s: Stacks, n: nat): seq<Event>
    requires n <= 18
  {
    if n == 0 then [] else WorstRun(s, n - 1) + WorstPair(s, n - 1)
  }

  lemma {:induction false} RunAppend(s: Stacks, c: Config, a: seq<Event>, b: seq<Event>)
    requires AllowedRun(s, c, a) && !Halts(s, c, a) && AllowedRun(s, Run(s, c, a), b)
    ensures AllowedRun(s, c, a + b) && Run(s, c, a + b) == Run(s, Run(s, c, a), b)
    ensures Halts(s, c, a + b) <==> Halts(s, Run(s, c, a), b)
    decreases |a|
  {
    if a == [] {
      assert a + b == b;
    } else {
      assert (a + b)[1..] == a[1..] + b;
      RunAppend(s, Next(s, c, a[0]).value, a[1..], b);
    }
  }

  ghost predicate Halts(s: Stacks, c: Config, events: seq<Event>)
    decreases |events|
  {
    events != [] && (Next(s, c, events[0]).None? || Halts(s, Next(s, c, events[0]).value, events[1..]))
  }

  lemma {:induction false} WorstKinds(live: seq<Activation>)
    requires forall k | 0 <= k < |live| :: live[k].vector == WorstVector(k)
    requires |live| <= 18
    ensures CountKind(live, true) == if |live| <= PIC_COUNT_MAX then |live| else PIC_COUNT_MAX
    ensures CountKind(live, false) == if |live| <= PIC_COUNT_MAX then 0 else |live| - PIC_COUNT_MAX
  {
    if live != [] {
      WorstKinds(live[..|live| - 1]);
    }
  }

  /** After n nested interrupts of the worst run. */
  ghost predicate Worst(s: Stacks, c: Config, n: nat)
    requires n <= 18
  {
    && Inv(s, c) && |c.live| == n
    && (forall k | 0 <= k < n :: c.live[k].vector == WorstVector(k))
    && (n > 0 ==> c.cpu.esp == DeepEsp(s, n - 1))
  }

  lemma WorstStep(s: Stacks, c: Config, n: nat)
    requires n < 18 && Worst(s, c, n)
    ensures var pair := WorstPair(s, n);
            && AllowedRun(s, c, pair) && !Halts(s, c, pair)
            && Worst(s, Run(s, c, pair), n + 1)
  {
    hide Saved, Nested, CountKind;
    var pair := WorstPair(s, n);
    var e, w := pair[0], pair[1];
    WorstKinds(c.live);
    EnterActivation(s, c, e);
    InterruptKeeps(s, c, e);
    var c' := Next(s, c, e).value;
    assert c'.live[n].start == s.Top() - Below(s, n);
    WorkStep(s, c', w);
    TwoSteps(s, c, e, w);
  }

  lemma TwoSteps(s: Stacks, c: Config, e: Event, w: Event)
    requires Allowed(s, c, e) && Next(s, c, e).Some?
    requires Allowed(s, Next(s, c, e).value, w) && Next(s, Next(s, c, e).value, w).Some?
    ensures AllowedRun(s, c, [e, w]) && !Halts(s, c, [e, w])
    ensures Run(s, c, [e, w]) == Next(s, Next(s, c, e).value, w).value
  {
    hide Allowed, Next;
    var c' := Next(s, c, e).value;
    assert [e, w][1..] == [w] && [w][1..] == [];
    assert AllowedRun(s, c', [w]);
    assert Run(s, c', [w]) == Run(s, Next(s, c', w).value, []);
    assert !Halts(s, c', [w]);
  }

  lemma {:induction false} WorstRunStep(s: Stacks, c: Config, n: nat)
    requires n <= 18 && Inv(s, c) && c.live == []
    ensures AllowedRun(s, c, WorstRun(s, n)) && !Halts(s, c, WorstRun(s, n))
    ensures Worst(s, Run(s, c, WorstRun(s, n)), n)
    decreases n
  {
    if n > 0 {
      WorstRunStep(s, c, n - 1);
      WorstStep(s, Run(s, c, WorstRun(s, n - 1)), n - 1);
      RunAppend(s, c, WorstRun(s, n - 1), WorstPair(s, n - 1));
    }
  }

  /** The reserved size is exact: an allowed run serves fifteen hardware interrupts and three
      exceptions at once and uses the interrupt stack down to its last byte; after that every
      further interrupt is refused. */
  lemma ReservedSizeIsNeeded(s: Stacks, c: Config, e: Event)
    requires Inv(s, c) && c.live == []
    requires e.Interrupt? && e.vector < 48 && |e.frame| == 13 && e.frame[8] == e.vector
    ensures AllowedRun(s, c, WorstRun(s, 18))
    ensures var r := Run(s, c, WorstRun(s, 18));
            r.cpu.esp == s.Bottom() && |r.live| == 18 && Next(s, r, e).None?
  {
    hide CountKind, Allowed, Next;
    WorstRunStep(s, c, 18);
    var r := Run(s, c, WorstRun(s, 18));
    WorstKinds(r.live);
    BelowIs(s, 17);
    InterruptAllowed(s, r, e);
    InterruptStep(s, r, e);
  }

  lemma InterruptAllowed(s: Stacks, c: Config, e: Event)
    requires e.Interrupt? && e.vector < 48 && |e.frame| == 13 && e.frame[8] == e.vector
    ensures Allowed(s, c, e)
  {
  }
}
