/** The Linux backend of src/gamepad.c: `gamepad_getstate` reads every pending
    `struct js_event` of /dev/input/js<index> and folds it into one static cache, which it
    then copies out as the slot's reading. Opening, reading and closing the device are
    not modelled: the events a poll reads are given as a parameter. */
module GamepadLinux {
  import opened Wrappers
  import opened Gamepad

  /** JS_EVENT_BUTTON and JS_EVENT_AXIS of <linux/joystick.h>. */
  const JsEventButton: bv8 := 0x01
  const JsEventAxis: bv8 := 0x02

  /** `struct js_event` without its timestamp, which the fold ignores. */
  datatype JsEvent = JsEvent(value: i16, kind: bv8, number: bv8)

  /** `uint32_t` increment, wrapping at 2^32. */
  function NextPacket(p: u32): u32
  {
    ((p as int + 1) % 0x1_0000_0000) as u32
  }

  /** Conversion of a C `int` to `int16_t`: the value modulo 2^16, in -32768..32767. */
  function ToI16(x: int): (r: i16)
    ensures (r as int - x) % 0x1_0000 == 0
    ensures -0x8000 <= x < 0x8000 ==> r as int == x
  {
    ((x + 0x8000) % 0x1_0000 - 0x8000) as i16
  }

  /** `-value` stored back into an `int16_t` (axes 1 and 4). */
  function Negated(v: i16): i16
  {
    ToI16(-(v as int))
  }

  /** `(value + 32768) >> 8` stored into a `uint8_t` (axes 2 and 5, the triggers). */
  function TriggerLevel(v: i16): u8
  {
    ((v as int + 0x8000) / 0x100) as u8
  }

  /** `1 << number`: the mask of one button bit. */
  function BitMask(n: bv8): bv16
    requires n < 16
  {
    (1 as bv16) << n
  }

  /** One event folded into the cache: every event counts as a packet; a button event
      with number < 16 sets or clears that bit; an axis event 0..5 stores one field. The
      button test comes first, so an event with both flags is a button event, and an
      event without the button flag never moves a button. */
  function ApplyEvent(c: Snapshot, e: JsEvent): (r: Snapshot)
    ensures r.packet as int == (c.packet as int + 1) % 0x1_0000_0000
    ensures e.kind & JsEventButton == 0 ==> r.buttons == c.buttons
  {
    var c := c.(packet := NextPacket(c.packet));
    if e.kind & JsEventButton != 0 then
      if e.number < 16 then
        c.(buttons := ButtonUpdate(c.buttons, e.number, e.value != 0))
      else c
    else if e.kind & JsEventAxis != 0 then
      if e.number == 0 then c.(lsX := e.value)
      else if e.number == 1 then c.(lsY := Negated(e.value))
      else if e.number == 2 then c.(lt := TriggerLevel(e.value))
      else if e.number == 3 then c.(rsX := e.value)
      else if e.number == 4 then c.(rsY := Negated(e.value))
      else if e.number == 5 then c.(rt := TriggerLevel(e.value))
      else c
    else c
  }

  /** The cache after a poll's events, in the order they were read: a poll that reads n
      events advances the packet counter by n (mod 2^32). */
  function Fold(c: Snapshot, es: seq<JsEvent>): (r: Snapshot)
    ensures r.packet as int == (c.packet as int + |es|) % 0x1_0000_0000
  {
    if es == [] then c
    else
      ModSucc(c.packet as int + |es| - 1);
      ApplyEvent(Fold(c, es[..|es| - 1]), es[|es| - 1])
  }

  // ---------------------------------------------------------------------------
  // Bit positions as 8-bit shift amounts
  // ---------------------------------------------------------------------------

  /** Bit position i as the 8-bit shift amount it is in `1 << event.number`. */
  function Lane(i: nat): bv8
  {
    if i == 0 then 0 else Lane(i - 1) + 1
  }

  lemma {:induction false} LaneValue(i: nat)
    requires i < ButtonCount
    ensures Lane(i) as int == i
  {
    if i > 0 {
      LaneValue(i - 1);
    }
  }

  lemma LaneIs(i: nat, n: bv8)
    requires i < ButtonCount && n < 16
    ensures Lane(i) == n <==> i == n as int
  {
    LaneValue(i);
  }

  /** Shifting one position at a time i times is one shift by i. */
  lemma {:induction false} ShiftNIsShift(m: bv16, i: nat)
    requires i < ButtonCount
    ensures Lane(i) < 16 && ShiftN(m, i) == m >> Lane(i)
  {
    LaneValue(i);
    if i > 0 {
      ShiftNIsShift(m, i - 1);
      LaneValue(i - 1);
    }
  }

  /** Button i is bit `Lane(i)` of the mask. */
  lemma PressedAt(m: bv16, i: nat)
    requires i < ButtonCount
    ensures Lane(i) < 16 && (Pressed(m, i) <==> (m >> Lane(i)) & 1 == 1)
  {
    ShiftNIsShift(m, i);
  }

  lemma SetBitAt(m: bv16, n: bv8, j: bv8)
    requires n < 16 && j < 16
    ensures ((m | BitMask(n)) >> j) & 1 == 1 <==> j == n || (m >> j) & 1 == 1
  {
  }

  lemma ClearBitAt(m: bv16, n: bv8, j: bv8)
    requires n < 16 && j < 16
    ensures ((m & !BitMask(n)) >> j) & 1 == 1 <==> j != n && (m >> j) & 1 == 1
  {
    if j == n {
      assert ((m & !BitMask(n)) >> j) & 1 == 0;
    } else {
      assert ((m & !BitMask(n)) >> j) & 1 == (m >> j) & 1;
    }
  }

  /** The mask after a button event on bit n: `mask | (1 << n)` when pressed,
      `mask & ~(1 << n)` when released. */
  function ButtonUpdate(m: bv16, n: bv8, down: bool): bv16
    requires n < 16
  {
    if down then m | BitMask(n) else m & !BitMask(n)
  }

  lemma PressedAfterSet(m: bv16, n: bv8, i: nat)
    requires n < 16 && i < ButtonCount
    ensures Pressed(m | BitMask(n), i) <==> i == n as int || Pressed(m, i)
  {
    var j := Lane(i);
    PressedAt(m, i);
    PressedAt(m | BitMask(n), i);
    SetBitAt(m, n, j);
    LaneIs(i, n);
  }

  lemma PressedAfterClear(m: bv16, n: bv8, i: nat)
    requires n < 16 && i < ButtonCount
    ensures Pressed(m & !BitMask(n), i) <==> i != n as int && Pressed(m, i)
  {
    var j := Lane(i);
    PressedAt(m, i);
    PressedAt(m & !BitMask(n), i);
    ClearBitAt(m, n, j);
    LaneIs(i, n);
  }

  /** The update presses or releases button n and leaves every other button alone. */
  lemma ButtonUpdateAt(m: bv16, n: bv8, down: bool, i: nat)
    requires n < 16 && i < ButtonCount
    ensures Pressed(ButtonUpdate(m, n, down), i) <==> if i == n as int then down else Pressed(m, i)
  {
    if down {
      PressedAfterSet(m, n, i);
    } else {
      PressedAfterClear(m, n, i);
    }
  }

  // ---------------------------------------------------------------------------
  // What one event does
  // ---------------------------------------------------------------------------

  /** Every event, of whatever kind, advances the packet counter by one (mod 2^32). */
  lemma EventCountsPacket(c: Snapshot, e: JsEvent)
    ensures ApplyEvent(c, e).packet as int == (c.packet as int + 1) % 0x1_0000_0000
  {
  }

  /** A button event with number < 16 sets (value != 0) or clears (value == 0) exactly
      that bit and changes nothing else but the packet counter. */
  lemma ButtonEventSetsThatBit(c: Snapshot, e: JsEvent)
    requires e.kind & JsEventButton != 0 && e.number < 16
    ensures var r := ApplyEvent(c, e);
      && r == c.(packet := NextPacket(c.packet), buttons := r.buttons)
      && forall i :: 0 <= i < ButtonCount ==>
           (Pressed(r.buttons, i) <==> if i == e.number as int then e.value != 0 else Pressed(c.buttons, i))
  {
    var b := ButtonUpdate(c.buttons, e.number, e.value != 0);
    assert ApplyEvent(c, e) == c.(packet := NextPacket(c.packet), buttons := b);
    forall i | 0 <= i < ButtonCount
      ensures Pressed(b, i) <==> if i == e.number as int then e.value != 0 else Pressed(c.buttons, i)
    {
      ButtonUpdateAt(c.buttons, e.number, e.value != 0, i);
    }
  }

  /** Axis events 0 and 3 store the value in LS_X and RS_X, 1 and 4 store its negation in
      LS_Y and RS_Y (with -32768 staying -32768), and 2 and 5 store (value + 32768) >> 8 in
      LT and RT; nothing else but the packet counter changes. */
  lemma AxisEventStoresField(c: Snapshot, e: JsEvent)
    requires e.kind & JsEventButton == 0 && e.kind & JsEventAxis != 0 && e.number <= 5
    ensures var r := ApplyEvent(c, e);
      var p := NextPacket(c.packet);
      && (e.number == 0 ==> r == c.(packet := p, lsX := e.value))
      && (e.number == 1 ==> r == c.(packet := p, lsY := Negated(e.value)))
      && (e.number == 2 ==> r == c.(packet := p, lt := TriggerLevel(e.value)))
      && (e.number == 3 ==> r == c.(packet := p, rsX := e.value))
      && (e.number == 4 ==> r == c.(packet := p, rsY := Negated(e.value)))
      && (e.number == 5 ==> r == c.(packet := p, rt := TriggerLevel(e.value)))
  {
  }

  /** The negation stored for axes 1 and 4 is the exact negation except for -32768, which
      has none in 16 bits and is stored unchanged. */
  lemma NegatedValue(v: i16)
    ensures v != -0x8000 ==> Negated(v) as int == -(v as int)
    ensures v == -0x8000 ==> Negated(v) == -0x8000
  {
  }

  /** The trigger level is the top byte of the value shifted to 0..65535: monotone, 0 for
      the lowest value, 255 for the highest. */
  lemma TriggerLevelRange(v: i16, w: i16)
    ensures TriggerLevel(v) as int * 0x100 <= v as int + 0x8000 < (TriggerLevel(v) as int + 1) * 0x100
    ensures v <= w ==> TriggerLevel(v) <= TriggerLevel(w)
    ensures TriggerLevel(-0x8000) == 0 && TriggerLevel(0x7FFF) == 0xFF
  {
  }

  /** Events with neither flag, button numbers 16 and up, and axis numbers above 5 only
      count as a packet. */
  lemma OtherEventsOnlyCount(c: Snapshot, e: JsEvent)
    requires
      || (e.kind & JsEventButton == 0 && e.kind & JsEventAxis == 0)
      || (e.kind & JsEventButton != 0 && e.number >= 16)
      || (e.kind & JsEventButton == 0 && e.kind & JsEventAxis != 0 && e.number > 5)
    ensures ApplyEvent(c, e) == c.(packet := NextPacket(c.packet))
  {
  }

  lemma ModSucc(x: int)
    ensures (x % 0x1_0000_0000 + 1) % 0x1_0000_0000 == (x + 1) % 0x1_0000_0000
  {
    var q := x / 0x1_0000_0000;
    var r := x % 0x1_0000_0000;
    assert x == q * 0x1_0000_0000 + r;
    if r + 1 == 0x1_0000_0000 {
      assert x + 1 == (q + 1) * 0x1_0000_0000;
    } else {
      assert x + 1 == q * 0x1_0000_0000 + (r + 1);
    }
  }

  /** Folding two batches of events is folding their concatenation: a poll continues
      from where the previous one stopped. */
  lemma {:induction false} FoldConcat(c: Snapshot, a: seq<JsEvent>, b: seq<JsEvent>)
    ensures Fold(Fold(c, a), b) == Fold(c, a + b)
  {
    if b == [] {
      assert a + b == a;
    } else {
      var n := |b| - 1;
      assert (a + b)[..|a + b| - 1] == a + b[..n];
      assert (a + b)[|a + b| - 1] == b[n];
      FoldConcat(c, a, b[..n]);
    }
  }

  // ---------------------------------------------------------------------------
  // The backend
  // ---------------------------------------------------------------------------

  /** The static `cache` of `gamepad_getstate`. There is one for the whole process, so
      the events of every joystick device are folded into the same cache. */
  class LinuxBackend {
    var cache: Snapshot

    /** The cache is zero-initialised. */
    constructor ()
      ensures cache == Zero
    {
      cache := Zero;
    }

    /** `gamepad_getstate(index, state)`: `device` is None when the device file cannot
        be opened (the call fails and leaves `state` as it was), or the events that the
        non-blocking reads return before the first short read. */
    method GetState(device: Option<seq<JsEvent>>, state: Snapshot) returns (p: Poll)
      modifies this
      ensures device.None? ==> p == Failure(state) && cache == old(cache)
      ensures device.Some? ==> cache == Fold(old(cache), device.value) && p == Success(cache)
    {
      if device.None? {
        return Failure(state);
      }
      var events := device.value;
      var k := 0;
      while k < |events|
        invariant 0 <= k <= |events|
        invariant cache == Fold(old(cache), events[..k])
      {
        assert events[..k + 1][..k] == events[..k];
        cache := ApplyEvent(cache, events[k]);
        k := k + 1;
      }
      assert events[..k] == events;
      p := Success(cache);
    }
  }
}
