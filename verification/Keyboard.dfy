/** The keyboard driver: scancode decoding with modifier state, and the ring of events between the
    interrupt handler and its readers. */
module Keyboard {
  import opened Wrappers

  const QUEUE_SIZE: nat := 64
  const EXTENDED_PREFIX: nat := 0xE0
  const RELEASE_MASK: nat := 0x80

  const LEFT_CTRL: nat := 0x1D
  const LEFT_SHIFT: nat := 0x2A
  const RIGHT_SHIFT: nat := 0x36
  const LEFT_ALT: nat := 0x38
  const CAPS_LOCK: nat := 0x3A
  const RIGHT_CTRL: nat := 0xE01D
  const RIGHT_ALT: nat := 0xE038

  /** The bits of modifier_state. */
  datatype Modifiers = Modifiers(leftShift: bool, rightShift: bool, leftCtrl: bool, rightCtrl: bool,
                                 leftAlt: bool, rightAlt: bool, capsDown: bool, capsOn: bool)

  const NO_MODIFIERS := Modifiers(false, false, false, false, false, false, false, false)

  datatype Event = Event(key: nat, keyCode: nat, pressed: bool, extended: bool, modifiers: Modifiers)

  /** map_scancode_set_1_key; 0 is the unknown key. */
  function MapKey(keyCode: nat, extended: bool): nat {
    if extended then
      if keyCode in {0x1D, 0x38, 0x47, 0x48, 0x49, 0x4B, 0x4D, 0x4F, 0x50, 0x51, 0x52, 0x53} then 0xE000 + keyCode else 0
    else if 0x01 <= keyCode <= 0x36 || 0x38 <= keyCode <= 0x44 || keyCode == 0x57 || keyCode == 0x58 then keyCode
    else 0
  }

  /** update_modifier_state: a key moves its own bit; caps lock flips when it goes down, not when it
      repeats. */
  function UpdateModifiers(m: Modifiers, key: nat, pressed: bool): Modifiers {
    Modifiers(
      if key == LEFT_SHIFT then pressed else m.leftShift,
      if key == RIGHT_SHIFT then pressed else m.rightShift,
      if key == LEFT_CTRL then pressed else m.leftCtrl,
      if key == RIGHT_CTRL then pressed else m.rightCtrl,
      if key == LEFT_ALT then pressed else m.leftAlt,
      if key == RIGHT_ALT then pressed else m.rightAlt,
      if key == CAPS_LOCK then pressed else m.capsDown,
      if key == CAPS_LOCK && pressed && !m.capsDown then !m.capsOn else m.capsOn)
  }

  // ---- the pure decoder ----

  datatype Decoder = Decoder(extended: bool, modifiers: Modifiers)

  /** One scancode: a prefix is remembered, anything else makes an event. */
  function DecodeOne(d: Decoder, scancode: nat): (Decoder, seq<Event>) {
    if scancode == EXTENDED_PREFIX then (d.(extended := true), [])
    else
      var keyCode, pressed := scancode % RELEASE_MASK, scancode / RELEASE_MASK % 2 == 0;
      var key := MapKey(keyCode, d.extended);
      var m := UpdateModifiers(d.modifiers, key, pressed);
      (Decoder(false, m), [Event(key, keyCode, pressed, d.extended, m)])
  }

  function Decode(d: Decoder, scancodes: seq<nat>): (Decoder, seq<Event>)
    decreases |scancodes|
  {
    if scancodes == [] then (d, [])
    else
      var last := |scancodes| - 1;
      var (d', events) := Decode(d, scancodes[..last]);
      var (d'', more) := DecodeOne(d', scancodes[last]);
      (d'', events + more)
  }

  // ---- the driver ----

  datatype Driver = Driver(decoder: Decoder, queue: seq<Event>)

  /** handle_keyboard_interrupt: without data nothing happens; a full queue drops the scancode before
      it is decoded, but not a prefix. */
  function OnInterrupt(d: Driver, status: nat, scancode: nat): (Driver, seq<Event>) {
    if status % 2 == 0 then (d, [])
    else if scancode != EXTENDED_PREFIX && |d.queue| >= QUEUE_SIZE then (d, [])
    else
      var (decoder, events) := DecodeOne(d.decoder, scancode);
      (Driver(decoder, d.queue + events), events)
  }

  /** poll_keyboard_event. */
  function OnPoll(d: Driver): (Driver, seq<Event>) {
    if d.queue == [] then (d, []) else (d.(queue := d.queue[1..]), [d.queue[0]])
  }

  /** What an interrupt does, by status and scancode: nothing without data; a prefix is remembered; with 64
      events waiting the scancode is dropped; otherwise one event is added.  The event's code is the low
      seven bits, the eighth says that the key was released, and the prefix that it was extended. */
  ghost predicate Accepted(d: Driver, status: nat, scancode: nat, d': Driver) {
    if status % 2 == 0 then d' == d
    else if scancode == 0xE0 then d' == d.(decoder := d.decoder.(extended := true))
    else if |d.queue| >= 64 then d' == d
    else
      && |d'.queue| == |d.queue| + 1 && d'.queue[..|d.queue|] == d.queue && !d'.decoder.extended
      && EventOf(scancode, d.decoder.extended, d'.queue[|d.queue|])
      && d'.queue[|d.queue|].modifiers == d'.decoder.modifiers
  }

  /** An event made from a scancode, after a prefix or not. */
  ghost predicate EventOf(scancode: nat, prefixed: bool, e: Event) {
    && (e.pressed <==> scancode < 0x80)
    && e.keyCode == (if scancode < 0x80 then scancode else scancode - 0x80)
    && e.extended == prefixed
    && e.key == KeyOf(e.keyCode, prefixed)
  }

  /** The keys of the driver's list, with the codes they send; the keys that send a prefix have an
      enumerator of their own. */
  predicate PlainKey(keyCode: nat) {
    keyCode in
      {0x01, 0x02, 0x03, 0x04, 0x05, 0x06, 0x07, 0x08, 0x09, 0x0A, 0x0B, 0x0C, 0x0D, 0x0E, 0x0F, 0x10, 0x11, 0x12, 0x13,
       0x14, 0x15, 0x16, 0x17, 0x18, 0x19, 0x1A, 0x1B, 0x1C, 0x1D, 0x1E, 0x1F, 0x20, 0x21, 0x22, 0x23, 0x24, 0x25, 0x26,
       0x27, 0x28, 0x29, 0x2A, 0x2B, 0x2C, 0x2D, 0x2E, 0x2F, 0x30, 0x31, 0x32, 0x33, 0x34, 0x35, 0x36, 0x38, 0x39, 0x3A,
       0x3B, 0x3C, 0x3D, 0x3E, 0x3F, 0x40, 0x41, 0x42, 0x43, 0x44, 0x57, 0x58}
  }

  predicate ExtendedKey(keyCode: nat) {
    keyCode in {0x1D, 0x38, 0x47, 0x48, 0x49, 0x4B, 0x4D, 0x4F, 0x50, 0x51, 0x52, 0x53}
  }

  function KeyOf(keyCode: nat, prefixed: bool): nat {
    if prefixed then (if ExtendedKey(keyCode) then 0xE000 + keyCode else 0)
    else if PlainKey(keyCode) then keyCode else 0
  }

  lemma MapKeyIs(keyCode: nat, extended: bool)
    ensures MapKey(keyCode, extended) == KeyOf(keyCode, extended)
  {
  }

  lemma InterruptAccepted(d: Driver, status: nat, scancode: nat)
    requires scancode < 0x100
    ensures Accepted(d, status, scancode, OnInterrupt(d, status, scancode).0)
  {
    hide MapKey, KeyOf, UpdateModifiers;
    MapKeyIs(scancode % 0x80, d.decoder.extended);
    assert d.queue + [] == d.queue;
  }

  // ---- the ring ----

  /** The count events from head on, around the end of the storage. */
  function Ring(entries: seq<Event>, head: nat, count: nat): (r: seq<Event>)
    requires |entries| == QUEUE_SIZE
    ensures |r| == count
  {
    seq(count, i requires 0 <= i < count => entries[(head + i) % QUEUE_SIZE])
  }

  lemma RingSlot(head: nat, i: nat)
    requires head < QUEUE_SIZE && i <= QUEUE_SIZE
    ensures (head + i) % QUEUE_SIZE == if head + i < QUEUE_SIZE then head + i else head + i - QUEUE_SIZE
  {
  }

  lemma RingPush(entries: seq<Event>, head: nat, count: nat, e: Event)
    requires |entries| == QUEUE_SIZE && head < QUEUE_SIZE && count < QUEUE_SIZE
    ensures Ring(entries[(head + count) % QUEUE_SIZE := e], head, count + 1) == Ring(entries, head, count) + [e]
    ensures ((head + count) % QUEUE_SIZE + 1) % QUEUE_SIZE == (head + (count + 1)) % QUEUE_SIZE
  {
    var tail := (head + count) % QUEUE_SIZE;
    RingSlot(head, count);
    var after := entries[tail := e];
    forall i | 0 <= i < count
      ensures Ring(after, head, count + 1)[i] == Ring(entries, head, count)[i]
    {
      RingSlot(head, i);
    }
    RingSlot(head, count + 1);
  }

  lemma RingPop(entries: seq<Event>, head: nat, count: nat)
    requires |entries| == QUEUE_SIZE && head < QUEUE_SIZE && 0 < count <= QUEUE_SIZE
    ensures Ring(entries, head, count) == [entries[head]] + Ring(entries, (head + 1) % QUEUE_SIZE, count - 1)
    ensures ((head + 1) % QUEUE_SIZE + (count - 1)) % QUEUE_SIZE == (head + count) % QUEUE_SIZE
  {
    RingSlot(head, 1);
    RingSlot(head, 0);
    var next := (head + 1) % QUEUE_SIZE;
    var whole, parts := Ring(entries, head, count), [entries[head]] + Ring(entries, next, count - 1);
    forall i | 0 <= i < count
      ensures whole[i] == parts[i]
    {
      RingSlot(head, i);
      if i > 0 {
        RingSlot(next, i - 1);
      }
    }
    RingSlot(next, count - 1);
    RingSlot(head, count);
  }

  class KeyboardDriver {
    const entries: array<Event>
    var head: nat
    var tail: nat
    var count: nat
    var extendedPending: bool
    var modifierState: Modifiers

    constructor ()
      ensures Valid() && Abs() == Driver(INITIAL, [])
    {
      entries := new Event[QUEUE_SIZE](_ => Event(0, 0, false, false, NO_MODIFIERS));
      head, tail, count := 0, 0, 0;
      extendedPending, modifierState := false, NO_MODIFIERS;
    }

    ghost predicate Valid()
      reads this
    {
      entries.Length == QUEUE_SIZE && head < QUEUE_SIZE && count <= QUEUE_SIZE && tail == (head + count) % QUEUE_SIZE
    }

    /** The decoder's state, and the events waiting, oldest first. */
    ghost function Abs(): Driver
      reads this, entries
      requires Valid()
    {
      Driver(Decoder(extendedPending, modifierState), Ring(entries[..], head, count))
    }

    method HandleKeyboardInterrupt(status: nat, scancode: nat)
      requires Valid() && scancode < 0x100
      modifies this, entries
      ensures Valid() && Abs() == OnInterrupt(old(Abs()), status, scancode).0
      ensures Accepted(old(Abs()), status, scancode, Abs())
    {
      InterruptAccepted(Abs(), status, scancode);
      hide Ring, UpdateModifiers, MapKey, Accepted;
      if status % 2 == 0 {
        return;
      }
      if scancode == EXTENDED_PREFIX {
        extendedPending := true;
        assert Abs().queue + [] == Abs().queue;
        return;
      }
      if count >= QUEUE_SIZE {
        return;
      }
      var extended := extendedPending;
      var keyCode := scancode % RELEASE_MASK;
      var key := MapKey(keyCode, extended);
      var pressed := scancode / RELEASE_MASK % 2 == 0;
      modifierState := UpdateModifiers(modifierState, key, pressed);
      extendedPending := false;
      RingPush(entries[..], head, count, Event(key, keyCode, pressed, extended, modifierState));
      entries[tail] := Event(key, keyCode, pressed, extended, modifierState);
      tail := (tail + 1) % QUEUE_SIZE;
      count := count + 1;
    }

    method PollKeyboardEvent() returns (event: Option<Event>)
      requires Valid()
      modifies this
      ensures Valid() && Abs() == OnPoll(old(Abs())).0
      ensures OnPoll(old(Abs())).1 == if event.Some? then [event.value] else []
      ensures match event
              case None => old(Abs()).queue == [] && Abs() == old(Abs())
              case Some(e) => old(Abs()).queue == [e] + Abs().queue && Abs().decoder == old(Abs()).decoder
    {
      hide Ring;
      if count == 0 {
        return None;
      }
      RingPop(entries[..], head, count);
      event := Some(entries[head]);
      head := (head + 1) % QUEUE_SIZE;
      count := count - 1;
    }
  }

  // ---- interleavings of interrupts and polls ----

  datatype Step = Interrupt(status: nat, scancode: nat) | Poll

  /** The driver with everything that has happened: events handed to readers, events accepted, the
      scancodes that were there to be read, and which of them were not dropped. */
  datatype Session = Session(driver: Driver, polled: seq<Event>, accepted: seq<Event>, scancodes: seq<nat>,
                             kept: seq<nat>, dropped: nat)

  function Advance(s: Session, step: Step): Session {
    match step
    case Poll =>
      var (d, events) := OnPoll(s.driver);
      s.(driver := d, polled := s.polled + events)
    case Interrupt(status, scancode) =>
      var (d, events) := OnInterrupt(s.driver, status, scancode);
      if status % 2 == 0 then s.(driver := d)
      else if scancode != EXTENDED_PREFIX && |s.driver.queue| >= QUEUE_SIZE then
        s.(driver := d, scancodes := s.scancodes + [scancode], dropped := s.dropped + 1)
      else
        s.(driver := d, accepted := s.accepted + events, scancodes := s.scancodes + [scancode],
           kept := s.kept + [scancode])
  }

  function Play(s: Session, steps: seq<Step>): Session
    decreases |steps|
  {
    if steps == [] then s else Play(Advance(s, steps[0]), steps[1..])
  }

  function Fresh(): Session {
    Session(Driver(INITIAL, []), [], [], [], [], 0)
  }

  const INITIAL: Decoder := Decoder(false, NO_MODIFIERS)

  ghost predicate Consistent(s: Session) {
    && |s.driver.queue| <= QUEUE_SIZE
    && s.polled + s.driver.queue == s.accepted
    && Decode(INITIAL, s.kept) == (s.driver.decoder, s.accepted)
    && (s.dropped == 0 ==> s.kept == s.scancodes)
    && |Decode(INITIAL, s.scancodes).1| == |s.accepted| + s.dropped
  }

  /** Every scancode but a prefix is one event. */
  lemma DecodeLast(d: Decoder, scancodes: seq<nat>, scancode: nat)
    ensures var (d', events) := Decode(d, scancodes);
            var (d'', more) := DecodeOne(d', scancode);
            && Decode(d, scancodes + [scancode]) == (d'', events + more)
            && |more| == if scancode == EXTENDED_PREFIX then 0 else 1
  {
    assert (scancodes + [scancode])[..|scancodes|] == scancodes;
  }

  lemma AdvanceConsistent(s: Session, step: Step)
    requires Consistent(s)
    ensures Consistent(Advance(s, step))
  {
    hide Decode, DecodeOne;
    match step {
      case Poll =>
        if s.driver.queue != [] {
          assert s.driver.queue == [s.driver.queue[0]] + s.driver.queue[1..];
        }
      case Interrupt(status, scancode) =>
        DecodeLast(INITIAL, s.scancodes, scancode);
        DecodeLast(INITIAL, s.kept, scancode);
    }
  }

  lemma {:induction false} PlayConsistent(s: Session, steps: seq<Step>)
    requires Consistent(s)
    ensures Consistent(Play(s, steps))
    decreases |steps|
  {
    if steps != [] {
      AdvanceConsistent(s, steps[0]);
      PlayConsistent(Advance(s, steps[0]), steps[1..]);
    }
  }

  /** The queue holds 64 events: none of the first 64 interrupts is lost. */
  lemma {:induction false} NothingDropped(s: Session, steps: seq<Step>)
    requires |s.driver.queue| + |steps| <= 64
    ensures Play(s, steps).dropped == s.dropped
    decreases |steps|
  {
    if steps != [] {
      NothingDropped(Advance(s, steps[0]), steps[1..]);
    }
  }

  /** Under every interleaving the events polled and the events waiting are the events accepted, in
      order.  They are what the pure decoder makes of the scancodes that were not dropped; each
      dropped scancode is one event lost, so the events are the decoding of all scancodes iff the
      queue never overflowed. */
  lemma EveryInterleaving(steps: seq<Step>)
    ensures var s := Play(Fresh(), steps);
            && s.polled + s.driver.queue == s.accepted
            && |s.driver.queue| <= QUEUE_SIZE
            && Decode(INITIAL, s.kept) == (s.driver.decoder, s.accepted)
            && |Decode(INITIAL, s.scancodes).1| == |s.accepted| + s.dropped
            && (Decode(INITIAL, s.scancodes).1 == s.accepted <==> s.dropped == 0)
  {
    PlayConsistent(Fresh(), steps);
  }

  /** After an overflow the decoding can be wrong: the code of an extended key is dropped but its
      prefix is not, so the next plain key is taken for an extended one. */
  lemma OverflowMisleads(s: Session)
    requires |s.driver.queue| == QUEUE_SIZE
    ensures var steps := [Interrupt(1, EXTENDED_PREFIX), Interrupt(1, LEFT_CTRL), Poll, Interrupt(1, LEFT_CTRL)];
            var r := Play(s, steps);
            |r.accepted| == |s.accepted| + 1 && r.accepted[|s.accepted|].key == RIGHT_CTRL
  {
    var steps := [Interrupt(1, EXTENDED_PREFIX), Interrupt(1, LEFT_CTRL), Poll, Interrupt(1, LEFT_CTRL)];
    var s1 := Advance(s, steps[0]);
    var s2 := Advance(s1, steps[1]);
    var s3 := Advance(s2, steps[2]);
    var s4 := Advance(s3, steps[3]);
    assert steps[1..][1..] == steps[2..] && steps[2..][1..] == steps[3..] && steps[3..][1..] == [];
    assert Play(s3, steps[3..]) == Play(s4, []);
    assert Play(s2, steps[2..]) == Play(s3, steps[3..]);
    assert Play(s1, steps[1..]) == Play(s2, steps[2..]);
  }

  // ---- modifiers ----

  /** Whether the last event of a key in a list is a press. */
  function KeyHeld(events: seq<Event>, key: nat): bool {
    if events == [] then false
    else
      var e := events[|events| - 1];
      if e.key == key then e.pressed else KeyHeld(events[..|events| - 1], key)
  }

  /** The presses of caps lock that are not repeats of a press. */
  function CapsEdges(events: seq<Event>): nat {
    if events == [] then 0
    else
      var e, before := events[|events| - 1], events[..|events| - 1];
      CapsEdges(before) + if e.key == CAPS_LOCK && e.pressed && !KeyHeld(before, CAPS_LOCK) then 1 else 0
  }

  /** What one scancode does to caps lock. */
  lemma CapsStep(d: Decoder, scancode: nat)
    ensures var (d', more) := DecodeOne(d, scancode);
            var m, m' := d.modifiers, d'.modifiers;
            if more == [] then m' == m
            else && |more| == 1
                 && if more[0].key == CAPS_LOCK
                    then m'.capsDown == more[0].pressed && m'.capsOn == if more[0].pressed && !m.capsDown then !m.capsOn else m.capsOn
                    else m'.capsDown == m.capsDown && m'.capsOn == m.capsOn
  {
  }

  /** Caps lock is on iff it has been pressed an odd number of times, however long each press repeats. */
  lemma {:induction false} CapsFlipsOncePerPress(scancodes: seq<nat>)
    ensures var (d, events) := Decode(INITIAL, scancodes);
            d.modifiers.capsDown == KeyHeld(events, CAPS_LOCK) && d.modifiers.capsOn == (CapsEdges(events) % 2 == 1)
    decreases |scancodes|
  {
    if scancodes != [] {
      var last := |scancodes| - 1;
      CapsFlipsOncePerPress(scancodes[..last]);
      var (d, events) := Decode(INITIAL, scancodes[..last]);
      hide DecodeOne, UpdateModifiers, MapKey;
      CapsStep(d, scancodes[last]);
      var (d', more) := DecodeOne(d, scancodes[last]);
      if more == [] {
        assert events + more == events;
      } else {
        assert (events + more)[..|events|] == events;
      }
    }
  }

  /** The six shift, control and alt bits that a list of events leaves. */
  predicate TracksKeys(m: Modifiers, events: seq<Event>) {
    && m.leftShift == KeyHeld(events, LEFT_SHIFT) && m.rightShift == KeyHeld(events, RIGHT_SHIFT)
    && m.leftCtrl == KeyHeld(events, LEFT_CTRL) && m.rightCtrl == KeyHeld(events, RIGHT_CTRL)
    && m.leftAlt == KeyHeld(events, LEFT_ALT) && m.rightAlt == KeyHeld(events, RIGHT_ALT)
  }

  /** A modifier bit is set iff the last event of its key is a press. */
  lemma {:induction false} ModifiersTrackKeys(scancodes: seq<nat>)
    ensures var (d, events) := Decode(INITIAL, scancodes);
            TracksKeys(d.modifiers, events)
    decreases |scancodes|
  {
    if scancodes != [] {
      var last := |scancodes| - 1;
      ModifiersTrackKeys(scancodes[..last]);
      var (d, events) := Decode(INITIAL, scancodes[..last]);
      ModifierStep(d, scancodes[last], events);
    }
  }

  lemma HeldAfter(events: seq<Event>, e: Event, key: nat)
    ensures KeyHeld(events + [e], key) == if e.key == key then e.pressed else KeyHeld(events, key)
  {
    assert (events + [e])[..|events|] == events;
  }

  lemma ModifierStep(d: Decoder, scancode: nat, events: seq<Event>)
    requires TracksKeys(d.modifiers, events)
    ensures TracksKeys(DecodeOne(d, scancode).0.modifiers, events + DecodeOne(d, scancode).1)
  {
    hide KeyHeld, MapKey;
    var more := DecodeOne(d, scancode).1;
    if more == [] {
      assert events + more == events;
    } else {
      var e := more[0];
      assert more == [e];
      HeldAfter(events, e, LEFT_SHIFT);
      HeldAfter(events, e, RIGHT_SHIFT);
      HeldAfter(events, e, LEFT_CTRL);
      HeldAfter(events, e, RIGHT_CTRL);
      HeldAfter(events, e, LEFT_ALT);
      HeldAfter(events, e, RIGHT_ALT);
    }
  }

  /** Every event carries the modifiers as its own scancode leaves them. */
  lemma {:induction false} EventModifiers(d: Decoder, scancodes: seq<nat>, i: nat)
    requires i < |scancodes| && scancodes[i] != EXTENDED_PREFIX
    ensures var k := |Decode(d, scancodes[..i]).1|;
            var events := Decode(d, scancodes).1;
            k < |events| && events[k].modifiers == Decode(d, scancodes[..i + 1]).0.modifiers
    decreases |scancodes|
  {
    hide MapKey, UpdateModifiers;
    var last := |scancodes| - 1;
    if i < last {
      EventModifiers(d, scancodes[..last], i);
      assert scancodes[..last][..i] == scancodes[..i] && scancodes[..last][..i + 1] == scancodes[..i + 1];
    } else {
      assert scancodes[..i + 1] == scancodes;
    }
  }

  // ---- by scancode ----

  /** Whether scancode i follows a prefix. */
  predicate Prefixed(scancodes: seq<nat>, i: nat)
    requires i <= |scancodes|
  {
    i > 0 && scancodes[i - 1] == 0xE0
  }

  /** How many of the first n scancodes are not prefixes. */
  function CountCodes(scancodes: seq<nat>, n: nat): nat
    requires n <= |scancodes|
  {
    if n == 0 then 0 else CountCodes(scancodes, n - 1) + if scancodes[n - 1] == 0xE0 then 0 else 1
  }

  /** The key with this make code is down: of its make and break codes the last one, with a prefix or
      without one as the key sends it, is the make code. */
  function Down(scancodes: seq<nat>, make: nat, prefixed: bool): bool {
    if scancodes == [] then false
    else
      var n := |scancodes| - 1;
      if scancodes[n] in {make, make + 0x80} && Prefixed(scancodes, n) == prefixed then scancodes[n] == make
      else Down(scancodes[..n], make, prefixed)
  }

  /** The make codes of caps lock that found it up. */
  function CapsMakes(scancodes: seq<nat>): nat {
    if scancodes == [] then 0
    else
      var n := |scancodes| - 1;
      CapsMakes(scancodes[..n])
      + if scancodes[n] == 0x3A && !Prefixed(scancodes, n) && !Down(scancodes[..n], 0x3A, false) then 1 else 0
  }

  /** The decoder after some scancodes: the modifiers are the keys that are down. */
  ghost predicate TracksCodes(d: Decoder, scancodes: seq<nat>) {
    var m := d.modifiers;
    && d.extended == Prefixed(scancodes, |scancodes|)
    && m.leftShift == Down(scancodes, 0x2A, false) && m.rightShift == Down(scancodes, 0x36, false)
    && m.leftCtrl == Down(scancodes, 0x1D, false) && m.rightCtrl == Down(scancodes, 0x1D, true)
    && m.leftAlt == Down(scancodes, 0x38, false) && m.rightAlt == Down(scancodes, 0x38, true)
    && m.capsDown == Down(scancodes, 0x3A, false) && m.capsOn == (CapsMakes(scancodes) % 2 == 1)
  }

  lemma DownNext(scancodes: seq<nat>, scancode: nat, make: nat, prefixed: bool)
    ensures Down(scancodes + [scancode], make, prefixed)
            == if scancode in {make, make + 0x80} && Prefixed(scancodes, |scancodes|) == prefixed then scancode == make
               else Down(scancodes, make, prefixed)
  {
    assert (scancodes + [scancode])[..|scancodes|] == scancodes;
  }

  lemma CapsMakesNext(scancodes: seq<nat>, scancode: nat)
    ensures CapsMakes(scancodes + [scancode])
            == CapsMakes(scancodes)
               + if scancode == 0x3A && !Prefixed(scancodes, |scancodes|) && !Down(scancodes, 0x3A, false) then 1 else 0
  {
    assert (scancodes + [scancode])[..|scancodes|] == scancodes;
  }

  lemma ModifierKeys(keyCode: nat, extended: bool)
    requires keyCode < 0x80
    ensures var key := MapKey(keyCode, extended);
            && (key == LEFT_SHIFT <==> keyCode == 0x2A && !extended) && (key == RIGHT_SHIFT <==> keyCode == 0x36 && !extended)
            && (key == LEFT_CTRL <==> keyCode == 0x1D && !extended) && (key == RIGHT_CTRL <==> keyCode == 0x1D && extended)
            && (key == LEFT_ALT <==> keyCode == 0x38 && !extended) && (key == RIGHT_ALT <==> keyCode == 0x38 && extended)
            && (key == CAPS_LOCK <==> keyCode == 0x3A && !extended)
  {
  }

  /** What a scancode that is no prefix does to the modifiers. */
  lemma CodeModifiers(d: Decoder, scancode: nat)
    requires scancode < 0x100 && scancode != 0xE0
    ensures var d', m := DecodeOne(d, scancode).0, d.modifiers;
            var code, pressed := if scancode < 0x80 then scancode else scancode - 0x80, scancode < 0x80;
            && !d'.extended
            && d'.modifiers.leftShift == (if code == 0x2A && !d.extended then pressed else m.leftShift)
            && d'.modifiers.rightShift == (if code == 0x36 && !d.extended then pressed else m.rightShift)
            && d'.modifiers.leftCtrl == (if code == 0x1D && !d.extended then pressed else m.leftCtrl)
            && d'.modifiers.rightCtrl == (if code == 0x1D && d.extended then pressed else m.rightCtrl)
            && d'.modifiers.leftAlt == (if code == 0x38 && !d.extended then pressed else m.leftAlt)
            && d'.modifiers.rightAlt == (if code == 0x38 && d.extended then pressed else m.rightAlt)
            && d'.modifiers.capsDown == (if code == 0x3A && !d.extended then pressed else m.capsDown)
            && d'.modifiers.capsOn == (if code == 0x3A && !d.extended && pressed && !m.capsDown then !m.capsOn else m.capsOn)
  {
    hide MapKey;
    var code := scancode % 0x80;
    ModifierKeys(code, d.extended);
  }

  lemma CodeStep(d: Decoder, scancodes: seq<nat>, scancode: nat)
    requires TracksCodes(d, scancodes) && scancode < 0x100
    ensures TracksCodes(DecodeOne(d, scancode).0, scancodes + [scancode])
  {
    DownNext(scancodes, scancode, 0x2A, false);
    DownNext(scancodes, scancode, 0x36, false);
    DownNext(scancodes, scancode, 0x1D, false);
    DownNext(scancodes, scancode, 0x1D, true);
    DownNext(scancodes, scancode, 0x38, false);
    DownNext(scancodes, scancode, 0x38, true);
    DownNext(scancodes, scancode, 0x3A, false);
    CapsMakesNext(scancodes, scancode);
    if scancode == 0xE0 {
      assert DecodeOne(d, scancode).0 == d.(extended := true);
    } else {
      CodeModifiers(d, scancode);
    }
    hide Down, CapsMakes, DecodeOne;
  }

  /** After any scancodes each modifier is down iff its last make or break code was a make code, and caps
      lock is on iff it went down an odd number of times. */
  lemma {:induction false} ModifiersByCode(scancodes: seq<nat>)
    requires forall i | 0 <= i < |scancodes| :: scancodes[i] < 0x100
    ensures TracksCodes(Decode(INITIAL, scancodes).0, scancodes)
    decreases |scancodes|
  {
    if scancodes != [] {
      var n := |scancodes| - 1;
      ModifiersByCode(scancodes[..n]);
      CodeStep(Decode(INITIAL, scancodes[..n]).0, scancodes[..n], scancodes[n]);
      assert scancodes == scancodes[..n] + [scancodes[n]];
    }
  }

  /** Every scancode that is no prefix is one event, in its place: pressed or released, with its code,
      and extended iff it follows a prefix. */
  lemma {:induction false} EventsByCode(scancodes: seq<nat>, i: nat)
    requires forall j | 0 <= j < |scancodes| :: scancodes[j] < 0x100
    requires i < |scancodes| && scancodes[i] != 0xE0
    ensures var events, k := Decode(INITIAL, scancodes).1, CountCodes(scancodes, i);
            && |events| == CountCodes(scancodes, |scancodes|) && k < |events|
            && EventOf(scancodes[i], Prefixed(scancodes, i), events[k])
    decreases |scancodes|
  {
    var n := |scancodes| - 1;
    var before := scancodes[..n];
    EventsCounted(scancodes);
    EventsCounted(before);
    CountPrefix(scancodes, before, n);
    CountPrefix(scancodes, before, i);
    if i < n {
      EventsByCode(before, i);
    } else {
      ModifiersByCode(before);
      assert Decode(INITIAL, before).0.extended == Prefixed(scancodes, n);
      OneEvent(Decode(INITIAL, before).0, scancodes[n]);
      hide DecodeOne, EventOf, TracksCodes;
    }
  }

  lemma OneEvent(d: Decoder, scancode: nat)
    requires scancode < 0x100 && scancode != 0xE0
    ensures |DecodeOne(d, scancode).1| == 1 && EventOf(scancode, d.extended, DecodeOne(d, scancode).1[0])
  {
    hide MapKey, KeyOf, UpdateModifiers;
    MapKeyIs(scancode % 0x80, d.extended);
  }

  lemma {:induction false} EventsCounted(scancodes: seq<nat>)
    ensures |Decode(INITIAL, scancodes).1| == CountCodes(scancodes, |scancodes|)
    decreases |scancodes|
  {
    if scancodes != [] {
      var n := |scancodes| - 1;
      EventsCounted(scancodes[..n]);
      CountPrefix(scancodes, scancodes[..n], n);
    }
  }

  lemma {:induction false} CountPrefix(scancodes: seq<nat>, before: seq<nat>, n: nat)
    requires n <= |before| <= |scancodes| && before == scancodes[..|before|]
    ensures CountCodes(scancodes, n) == CountCodes(before, n)
  {
    if n > 0 {
      CountPrefix(scancodes, before, n - 1);
    }
  }
}
