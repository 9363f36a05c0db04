/** The gamepad slot table of src/gamepad.c: a producer (`lgamepad_device_update`) polls
    four slots into a shared table, and every consumer view (`lgamepad_update`) diffs a
    slot against its own last-reported copy and writes the changed fields into a Lua
    record. Each critical section (one slot, one lock) is modelled as one atomic step. */
module Gamepad {
  import opened Wrappers

  newtype u8 = x: int | 0 <= x < 0x100
  newtype i16 = x: int | -0x8000 <= x < 0x8000
  newtype u32 = x: int | 0 <= x < 0x1_0000_0000

  /** MAX_GAMEPAD */
  const MaxGamepad: nat := 4

  /** BUTTON_COUNT */
  const ButtonCount: nat := 16

  /** `gamepad_buttons`: bit i of a button mask is the button named ButtonNames[i]. */
  const ButtonNames: seq<string> :=
    ["UP", "DOWN", "LEFT", "RIGHT", "START", "BACK", "LS", "RS",
     "LB", "RB", "U0", "U1", "A", "B", "X", "Y"]

  /** `struct gamepad_state`: one reading of a controller. */
  datatype Snapshot = Snapshot(
    packet: u32, buttons: bv16, lt: u8, rt: u8,
    lsX: i16, lsY: i16, rsX: i16, rsY: i16)

  /** The all-zero reading that `memset` produces. */
  const Zero: Snapshot := Snapshot(0, 0, 0, 0, 0, 0, 0, 0)

  /** The mask shifted right by n, one position at a time (`mask >>= 1`, n times). */
  function ShiftN(mask: bv16, n: nat): bv16
  {
    if n == 0 then mask else ShiftN(mask, n - 1) >> 1
  }

  /** Whether bit i of a button mask is set. */
  predicate Pressed(mask: bv16, i: nat)
    requires i < ButtonCount
  {
    ShiftN(mask, i) & 1 == 1
  }

  // ---------------------------------------------------------------------------
  // The Lua record that `lgamepad_update` writes into
  // ---------------------------------------------------------------------------

  /** A key of the host record: "connect", the six numeric fields and the 16 buttons. */
  datatype Field = Connect | Lt | Rt | LsX | LsY | RsX | RsY | Button(bit: nat)
  {
    predicate Valid() { Button? ==> bit < ButtonCount }
    predicate IsAxis() { !Connect? && !Button? }
  }

  /** The six numeric fields. */
  type Axis = f: Field | f.IsAxis() witness Lt

  /** The Lua key under which a field is stored. */
  function Name(f: Field): string
    requires f.Valid()
  {
    match f
    case Connect => "connect"
    case Lt => "LT"
    case Rt => "RT"
    case LsX => "LS_X"
    case LsY => "LS_Y"
    case RsX => "RS_X"
    case RsY => "RS_Y"
    case Button(i) => ButtonNames[i]
  }

  /** Distinct fields are stored under distinct Lua keys, so a record keyed by Field
      is the Lua table keyed by name. */
  lemma NameInjective(f: Field, g: Field)
    requires f.Valid() && g.Valid() && f != g
    ensures Name(f) != Name(g)
  {
    if f.Button? && g.Button? {
      assert ButtonNames[f.bit] != ButtonNames[g.bit];
    }
  }

  datatype Value = Int(n: int) | Bool(b: bool)

  /** One `lua_setfield(L, 1, name)` of the value just pushed. */
  datatype Write = Write(field: Field, value: Value)

  type Record = map<Field, Value>

  /** The value of the last write to `f` in `ws`, if any: what the writes leave there. */
  function LastWrite(ws: seq<Write>, f: Field): Option<Value>
  {
    if ws == [] then None
    else if ws[|ws| - 1].field == f then Some(ws[|ws| - 1].value)
    else LastWrite(ws[..|ws| - 1], f)
  }

  /** The host record after the writes are applied in order. */
  function Apply(rec: Record, ws: seq<Write>): Record
    decreases |ws|
  {
    if ws == [] then rec else Apply(rec[ws[0].field := ws[0].value], ws[1..])
  }

  lemma LastWriteSingle(w: Write, f: Field)
    ensures LastWrite([w], f) == if w.field == f then Some(w.value) else None
  {
    assert [w][..0] == [];
  }

  /** In a concatenation the later writes win. */
  lemma {:induction false} LastWriteConcat(a: seq<Write>, b: seq<Write>, f: Field)
    ensures LastWrite(a + b, f) == if LastWrite(b, f).Some? then LastWrite(b, f) else LastWrite(a, f)
  {
    if b == [] {
      assert a + b == a;
    } else {
      var n := |b| - 1;
      assert (a + b)[..|a + b| - 1] == a + b[..n];
      assert (a + b)[|a + b| - 1] == b[n];
      LastWriteConcat(a, b[..n], f);
    }
  }

  /** Applying writes leaves each field its last written value; a field never written
      keeps what the record had. */
  lemma {:induction false} ApplyAt(rec: Record, ws: seq<Write>, f: Field)
    ensures LastWrite(ws, f).Some? ==> f in Apply(rec, ws) && Apply(rec, ws)[f] == LastWrite(ws, f).value
    ensures LastWrite(ws, f).None? ==>
      (f in Apply(rec, ws) <==> f in rec) && (f in rec ==> Apply(rec, ws)[f] == rec[f])
    decreases |ws|
  {
    if ws != [] {
      ApplyAt(rec[ws[0].field := ws[0].value], ws[1..], f);
      assert ws == [ws[0]] + ws[1..];
      LastWriteConcat([ws[0]], ws[1..], f);
      LastWriteSingle(ws[0], f);
    }
  }

  /** The value a field of the record should show for a slot reading. */
  function Reading(connected: bool, s: Snapshot, f: Field): Value
    requires f.Valid()
  {
    match f
    case Connect => Bool(connected)
    case Lt => Int(s.lt as int)
    case Rt => Int(s.rt as int)
    case LsX => Int(s.lsX as int)
    case LsY => Int(s.lsY as int)
    case RsX => Int(s.rsX as int)
    case RsY => Int(s.rsY as int)
    case Button(i) => Bool(Pressed(s.buttons, i))
  }

  lemma ReadingAxis(connected: bool, s: Snapshot, f: Field)
    requires f.IsAxis()
    ensures Reading(connected, s, f) == Int(AxisValue(s, f))
  {
  }

  // ---------------------------------------------------------------------------
  // Producer side: the slot table and the device poller
  // ---------------------------------------------------------------------------

  /** What the platform backend did for one slot in one poll: it filled in a reading, or
      it failed, leaving in `state[i]` whatever it had written there. */
  datatype Poll = Success(snapshot: Snapshot) | Failure(leftover: Snapshot)

  /** One slot of `GAMEPAD`: `connected[i]`, `packet[i]`, `state[i]`. */
  datatype Slot = Slot(connected: bool, packet: u32, state: Snapshot)

  datatype PollOutcome = PollOutcome(slot: Slot, changed: bool)

  /** One critical section of the poller: the slot after the backend call, and whether
      it raises the "changed" flag. */
  function PollSlot(s: Slot, p: Poll): (r: PollOutcome)
    ensures p.Failure? ==>
      && !r.slot.connected && r.slot.packet == s.packet && r.slot.state == p.leftover
      && r.changed == s.connected
    ensures p.Success? ==>
      && r.slot.connected && r.slot.packet == p.snapshot.packet && r.slot.state == p.snapshot
      && (r.changed <==> !s.connected || s.packet != p.snapshot.packet)
  {
    match p
    case Failure(leftover) =>
      PollOutcome(Slot(false, s.packet, leftover), s.connected)
    case Success(snap) =>
      PollOutcome(Slot(true, snap.packet, snap), !s.connected || s.packet != snap.packet)
  }

  /** The flag is raised exactly when the (connected, packet) pair of the slot changes:
      the producer-side "anything changed" signal never looks at the reading itself. */
  lemma PollChangedIffObservable(s: Slot, p: Poll)
    ensures var r := PollSlot(s, p);
      r.changed <==> (r.slot.connected != s.connected || r.slot.packet != s.packet)
  {
  }

  /** Two consecutive successful polls returning the same reading: the second one does
      not raise the flag and leaves the slot as it was. */
  lemma PollRepeatIsQuiet(s: Slot, snap: Snapshot)
    ensures var r1 := PollSlot(s, Success(snap));
      var r2 := PollSlot(r1.slot, Success(snap));
      !r2.changed && r2.slot == r1.slot
  {
  }

  /** `GAMEPAD`: the process-wide table. The locks are not modelled: every method below
      that touches one slot is one critical section. */
  class SlotTable {
    var connected: array<bool>
    var packet: array<u32>
    var state: array<Snapshot>

    ghost predicate Valid()
      reads this
    {
      connected.Length == MaxGamepad && packet.Length == MaxGamepad && state.Length == MaxGamepad
    }

    function SlotAt(i: nat): Slot
      requires Valid() && i < MaxGamepad
      reads this, connected, packet, state
    {
      Slot(connected[i], packet[i], state[i])
    }

    /** The static table as the program starts: zero-initialised. */
    constructor ()
      ensures Valid() && fresh(connected) && fresh(packet) && fresh(state)
      ensures forall i :: 0 <= i < MaxGamepad ==> SlotAt(i) == Slot(false, 0, Zero)
    {
      connected := new bool[MaxGamepad](_ => false);
      packet := new u32[MaxGamepad](_ => 0);
      state := new Snapshot[MaxGamepad](_ => Zero);
    }

    /** `lgamepad_device_init`: zero the table, so every slot is disconnected. */
    method Init()
      requires Valid()
      modifies connected, packet, state
      ensures Valid()
      ensures forall i :: 0 <= i < MaxGamepad ==> SlotAt(i) == Slot(false, 0, Zero)
    {
      forall i | 0 <= i < MaxGamepad {
        connected[i] := false;
      }
      forall i | 0 <= i < MaxGamepad {
        packet[i] := 0;
      }
      forall i | 0 <= i < MaxGamepad {
        state[i] := Zero;
      }
    }

    /** `lgamepad_device_deinit`: the same `memset` of the table. */
    method Deinit()
      requires Valid()
      modifies connected, packet, state
      ensures Valid()
      ensures forall i :: 0 <= i < MaxGamepad ==> SlotAt(i) == Slot(false, 0, Zero)
    {
      Init();
    }

    /** `lgamepad_device_update`: poll every slot once; `polls[i]` is the backend's answer
        for slot i in this cycle. Each slot is updated independently, and the result is
        the OR of the per-slot flags. */
    method DeviceUpdate(polls: seq<Poll>) returns (changed: bool)
      requires Valid() && |polls| == MaxGamepad
      modifies connected, packet, state
      ensures Valid()
      ensures forall i :: 0 <= i < MaxGamepad ==> SlotAt(i) == PollSlot(old(SlotAt(i)), polls[i]).slot
      ensures changed <==> exists i :: 0 <= i < MaxGamepad && PollSlot(old(SlotAt(i)), polls[i]).changed
    {
      changed := false;
      var i := 0;
      while i < MaxGamepad
        invariant 0 <= i <= MaxGamepad
        invariant forall k :: 0 <= k < i ==> SlotAt(k) == PollSlot(old(SlotAt(k)), polls[k]).slot
        invariant forall k :: i <= k < MaxGamepad ==> SlotAt(k) == old(SlotAt(k))
        invariant changed <==> exists k :: 0 <= k < i && PollSlot(old(SlotAt(k)), polls[k]).changed
      {
        match polls[i] {
          case Failure(leftover) =>
            state[i] := leftover;
            if connected[i] {
              connected[i] := false;
              changed := true;
            }
          case Success(snap) =>
            state[i] := snap;
            if connected[i] {
              if packet[i] != state[i].packet {
                changed := true;
              }
            } else {
              connected[i] := true;
              changed := true;
            }
            packet[i] := state[i].packet;
        }
        i := i + 1;
      }
    }
  }

  // ---------------------------------------------------------------------------
  // Consumer side: the diff a view computes against one slot
  // ---------------------------------------------------------------------------

  /** `struct gamepad_local`: what a view last reported for one slot. */
  datatype Local = Local(connected: bool, state: Snapshot)

  datatype SyncOut = SyncOut(writes: seq<Write>, view: Local)

  /** The numeric fields in the order the source writes them. */
  const Axes: seq<Axis> := [Lt, Rt, LsX, LsY, RsX, RsY]

  /** The numeric fields the source writes on a connect or disconnect edge: RS_Y is
      pushed but never stored on a connect edge and not written on a disconnect edge. */
  const EdgeAxes: seq<Axis> := [Lt, Rt, LsX, LsY, RsX]

  function AxisValue(s: Snapshot, f: Field): int
    requires f.IsAxis()
  {
    match f
    case Lt => s.lt as int
    case Rt => s.rt as int
    case LsX => s.lsX as int
    case LsY => s.lsY as int
    case RsX => s.rsX as int
    case RsY => s.rsY as int
  }

  /** One write of each field of `fs`, in order, from the reading `s`. */
  function AxisWrites(s: Snapshot, fs: seq<Axis>): seq<Write>
  {
    if fs == [] then [] else [Write(fs[0], Int(AxisValue(s, fs[0])))] + AxisWrites(s, fs[1..])
  }

  /** The write of a numeric field when it differs from the view, nothing otherwise. */
  function AxisChange(f: Field, last: Snapshot, tmp: Snapshot): seq<Write>
    requires f.IsAxis()
  {
    if AxisValue(tmp, f) != AxisValue(last, f) then [Write(f, Int(AxisValue(tmp, f)))] else []
  }

  /** The writes of those fields of `fs` whose value differs between `last` and `tmp`. */
  function AxisDiff(last: Snapshot, tmp: Snapshot, fs: seq<Axis>): seq<Write>
  {
    if fs == [] then [] else AxisChange(fs[0], last, tmp) + AxisDiff(last, tmp, fs[1..])
  }

  /** The writes of buttons 0..n-1 from the bits of `mask`. */
  function ButtonWrites(mask: bv16, n: nat): seq<Write>
    requires n <= ButtonCount
  {
    if n == 0 then []
    else ButtonWrites(mask, n - 1) + [Write(Button(n - 1), Bool(Pressed(mask, n - 1)))]
  }

  /** The writes of those buttons 0..n-1 whose bit differs between `last` and `mask`. */
  function ButtonDiff(last: bv16, mask: bv16, n: nat): seq<Write>
    requires n <= ButtonCount
  {
    if n == 0 then
      []
    else
      var change := if Pressed(mask, n - 1) != Pressed(last, n - 1)
        then [Write(Button(n - 1), Bool(Pressed(mask, n - 1)))] else [];
      ButtonDiff(last, mask, n - 1) + change
  }

  /** The writes of a connect or disconnect edge: the fields of `edge`, all 16 buttons
      and `connect`, from the reading `s`. */
  function EdgeWrites(connected: bool, s: Snapshot, edge: seq<Axis>): seq<Write>
  {
    AxisWrites(s, edge) + ButtonWrites(s.buttons, ButtonCount) + [Write(Connect, Bool(connected))]
  }

  /** The writes of a steady connected update: the differing numeric fields, the
      differing buttons, and `connect = true`. */
  function SteadyWrites(last: Snapshot, tmp: Snapshot): seq<Write>
  {
    AxisDiff(last, tmp, Axes) + ButtonDiff(last.buttons, tmp.buttons, ButtonCount)
    + [Write(Connect, Bool(true))]
  }

  /** The view after a steady connected update: every field but `packet` taken from the
      table (the source assigns only the differing ones, the others already agree). */
  function Steady(last: Snapshot, tmp: Snapshot): Snapshot
  {
    last.(buttons := tmp.buttons, lt := tmp.lt, rt := tmp.rt,
          lsX := tmp.lsX, lsY := tmp.lsY, rsX := tmp.rsX, rsY := tmp.rsY)
  }

  /** The diff of one update, with `edge` the numeric fields written on connect and
      disconnect edges. `connected` and `tmp` are what was copied out of the slot under
      its lock (`tmp` only matters when the slot is connected). */
  function SyncWith(edge: seq<Axis>, connected: bool, tmp: Snapshot, last: Local): (r: SyncOut)
    ensures r.view.connected == connected
    ensures |r.writes| > 0 && r.writes[|r.writes| - 1] == Write(Connect, Bool(connected))
  {
    if connected != last.connected then
      if connected then SyncOut(EdgeWrites(true, tmp, edge), Local(true, tmp))
      else SyncOut(EdgeWrites(false, Zero, edge), Local(false, Zero))
    else if connected then
      SyncOut(SteadyWrites(last.state, tmp), Local(true, Steady(last.state, tmp)))
    else
      SyncOut([Write(Connect, Bool(false))], last)
  }

  /** `lgamepad_update` as written: the view records the table's flag, and `connect` is
      the last field written. */
  function Sync(connected: bool, tmp: Snapshot, last: Local): (r: SyncOut)
    ensures r.view.connected == connected && LastWrite(r.writes, Connect) == Some(Bool(connected))
  {
    SyncWith(EdgeAxes, connected, tmp, last)
  }

  /** `lgamepad_update` with RS_Y written on both edges like the other numeric fields: the
      view is the one the source leaves, and every edge writes RS_Y from the reading. */
  function SyncFixed(connected: bool, tmp: Snapshot, last: Local): (r: SyncOut)
    ensures r.view == Sync(connected, tmp, last).view
    ensures connected != last.connected ==>
              LastWrite(r.writes, RsY) == Some(Reading(connected, if connected then tmp else Zero, RsY))
  {
    EdgeWritesLast(connected, if connected then tmp else Zero, Axes, RsY);
    SyncWith(Axes, connected, tmp, last)
  }

  /** The fix changes no write but that of RS_Y. */
  lemma SyncFixedOnlyRsY(connected: bool, tmp: Snapshot, last: Local, f: Field)
    requires f != RsY
    ensures LastWrite(SyncFixed(connected, tmp, last).writes, f) == LastWrite(Sync(connected, tmp, last).writes, f)
  {
    if connected != last.connected {
      var s := if connected then tmp else Zero;
      EdgeWritesLast(connected, s, Axes, f);
      EdgeWritesLast(connected, s, EdgeAxes, f);
      AxesAreTheNumericFields();
    }
  }

  // ---------------------------------------------------------------------------
  // What the writes of one update leave in the record
  // ---------------------------------------------------------------------------

  lemma {:induction false} AxisWritesLast(s: Snapshot, fs: seq<Axis>, f: Field)
    ensures LastWrite(AxisWrites(s, fs), f) == if f in fs then Some(Int(AxisValue(s, f))) else None
  {
    if fs != [] {
      var w := Write(fs[0], Int(AxisValue(s, fs[0])));
      AxisWritesLast(s, fs[1..], f);
      LastWriteConcat([w], AxisWrites(s, fs[1..]), f);
      LastWriteSingle(w, f);
      assert fs == [fs[0]] + fs[1..];
    }
  }

  lemma {:induction false} ButtonWritesLast(mask: bv16, n: nat, f: Field)
    requires n <= ButtonCount
    ensures LastWrite(ButtonWrites(mask, n), f) ==
      if f.Button? && f.bit < n then Some(Bool(Pressed(mask, f.bit))) else None
  {
    if n > 0 {
      var w := Write(Button(n - 1), Bool(Pressed(mask, n - 1)));
      ButtonWritesLast(mask, n - 1, f);
      LastWriteConcat(ButtonWrites(mask, n - 1), [w], f);
      LastWriteSingle(w, f);
    }
  }

  lemma {:induction false} ButtonDiffLast(last: bv16, mask: bv16, n: nat, f: Field)
    requires n <= ButtonCount
    ensures LastWrite(ButtonDiff(last, mask, n), f) ==
      if f.Button? && f.bit < n && Pressed(mask, f.bit) != Pressed(last, f.bit)
      then Some(Bool(Pressed(mask, f.bit))) else None
  {
    if n > 0 {
      var w := Write(Button(n - 1), Bool(Pressed(mask, n - 1)));
      var change := if Pressed(mask, n - 1) != Pressed(last, n - 1) then [w] else [];
      ButtonDiffLast(last, mask, n - 1, f);
      LastWriteConcat(ButtonDiff(last, mask, n - 1), change, f);
      LastWriteSingle(w, f);
    }
  }


  /** With equal masks no button is written: this is why the source may skip the
      button loop when `mask == last_mask`. */
  lemma {:induction false} ButtonDiffSame(mask: bv16, n: nat)
    requires n <= ButtonCount
    ensures ButtonDiff(mask, mask, n) == []
  {
    if n > 0 {
      ButtonDiffSame(mask, n - 1);
    }
  }

  lemma {:induction false} AxisDiffLast(last: Snapshot, tmp: Snapshot, fs: seq<Axis>, f: Field)
    ensures LastWrite(AxisDiff(last, tmp, fs), f) ==
      if f in fs && AxisValue(tmp, f) != AxisValue(last, f) then Some(Int(AxisValue(tmp, f))) else None
  {
    if fs != [] {
      var w := Write(fs[0], Int(AxisValue(tmp, fs[0])));
      AxisDiffLast(last, tmp, fs[1..], f);
      LastWriteConcat(AxisChange(fs[0], last, tmp), AxisDiff(last, tmp, fs[1..]), f);
      LastWriteSingle(w, f);
      assert LastWrite([], f) == None;
      assert fs == [fs[0]] + fs[1..];
    }
  }


  lemma EdgeAxisWritesUnfold(s: Snapshot)
    ensures AxisWrites(s, EdgeAxes) ==
      [Write(Lt, Int(s.lt as int)), Write(Rt, Int(s.rt as int)), Write(LsX, Int(s.lsX as int)),
       Write(LsY, Int(s.lsY as int)), Write(RsX, Int(s.rsX as int))]
  {
    var fs := EdgeAxes;
    assert fs[1..] == [Rt, LsX, LsY, RsX] && fs[2..] == [LsX, LsY, RsX];
    assert fs[3..] == [LsY, RsX] && fs[4..] == [RsX] && fs[5..] == [];
    assert AxisWrites(s, fs[4..]) == [Write(RsX, Int(s.rsX as int))];
    assert AxisWrites(s, fs[3..]) == [Write(LsY, Int(s.lsY as int))] + AxisWrites(s, fs[4..]);
    assert AxisWrites(s, fs[2..]) == [Write(LsX, Int(s.lsX as int))] + AxisWrites(s, fs[3..]);
    assert AxisWrites(s, fs[1..]) == [Write(Rt, Int(s.rt as int))] + AxisWrites(s, fs[2..]);
  }

  lemma AxisDiffUnfold(last: Snapshot, tmp: Snapshot)
    ensures AxisDiff(last, tmp, Axes) ==
      AxisChange(Lt, last, tmp) + AxisChange(Rt, last, tmp) + AxisChange(LsX, last, tmp)
      + AxisChange(LsY, last, tmp) + AxisChange(RsX, last, tmp) + AxisChange(RsY, last, tmp)
  {
    var fs := Axes;
    assert fs[1..] == [Rt, LsX, LsY, RsX, RsY] && fs[2..] == [LsX, LsY, RsX, RsY];
    assert fs[3..] == [LsY, RsX, RsY] && fs[4..] == [RsX, RsY] && fs[5..] == [RsY] && fs[6..] == [];
    assert AxisDiff(last, tmp, fs[5..]) == AxisChange(RsY, last, tmp);
    assert AxisDiff(last, tmp, fs[4..]) == AxisChange(RsX, last, tmp) + AxisDiff(last, tmp, fs[5..]);
    assert AxisDiff(last, tmp, fs[3..]) == AxisChange(LsY, last, tmp) + AxisDiff(last, tmp, fs[4..]);
    assert AxisDiff(last, tmp, fs[2..]) == AxisChange(LsX, last, tmp) + AxisDiff(last, tmp, fs[3..]);
    assert AxisDiff(last, tmp, fs[1..]) == AxisChange(Rt, last, tmp) + AxisDiff(last, tmp, fs[2..]);
  }

  lemma AxesAreTheNumericFields()
    ensures forall f: Field :: f in Axes <==> f.IsAxis()
    ensures forall f: Field :: f in EdgeAxes <==> f.IsAxis() && f != RsY
  {
  }

  /** Every update writes `connect` last, with the table's flag, and the view remembers
      that flag. */
  lemma SyncReportsConnect(connected: bool, tmp: Snapshot, last: Local)
    ensures var r := Sync(connected, tmp, last);
      && |r.writes| > 0 && r.writes[|r.writes| - 1] == Write(Connect, Bool(connected))
      && LastWrite(r.writes, Connect) == Some(Bool(connected))
      && r.view.connected == connected
  {
  }

  /** Slot and view both disconnected: `connect = false` is the only write. */
  lemma SyncStillDisconnected(tmp: Snapshot, last: Local)
    requires !last.connected
    ensures Sync(false, tmp, last) == SyncOut([Write(Connect, Bool(false))], last)
  {
  }

  /** An edge writes `connect`, every button and the fields of `edge`, each from `s`. */
  lemma EdgeWritesLast(connected: bool, s: Snapshot, edge: seq<Axis>, f: Field)
    ensures LastWrite(EdgeWrites(connected, s, edge), f) ==
      if f == Connect || (f.Button? && f.bit < ButtonCount) || f in edge
      then Some(Reading(connected, s, f)) else None
  {
    var a := AxisWrites(s, edge);
    var b := ButtonWrites(s.buttons, ButtonCount);
    var c := Write(Connect, Bool(connected));
    LastWriteConcat(a + b, [c], f);
    LastWriteConcat(a, b, f);
    LastWriteSingle(c, f);
    ButtonWritesLast(s.buttons, ButtonCount, f);
    AxisWritesLast(s, edge, f);
    if f in edge {
      ReadingAxis(connected, s, f);
    }
  }

  /** Connect edge: the view takes the table's reading; LT, RT, LS_X, LS_Y, RS_X and all
      16 buttons are written from it, `connect` becomes true, and RS_Y is not written. */
  lemma SyncConnectEdge(tmp: Snapshot, last: Local)
    requires !last.connected
    ensures var r := Sync(true, tmp, last);
      && r.view == Local(true, tmp)
      && forall f: Field :: LastWrite(r.writes, f) ==
           if f.Valid() && f != RsY then Some(Reading(true, tmp, f)) else None
  {
    AxesAreTheNumericFields();
    forall f: Field
      ensures LastWrite(EdgeWrites(true, tmp, EdgeAxes), f) ==
        if f.Valid() && f != RsY then Some(Reading(true, tmp, f)) else None
    {
      EdgeWritesLast(true, tmp, EdgeAxes, f);
    }
  }

  /** Disconnect edge: the view is zeroed; 0 is written to LT, RT, LS_X, LS_Y and RS_X,
      false to all 16 buttons and to `connect`, and RS_Y is not written. */
  lemma SyncDisconnectEdge(tmp: Snapshot, last: Local)
    requires last.connected
    ensures var r := Sync(false, tmp, last);
      && r.view == Local(false, Zero)
      && forall f: Field :: LastWrite(r.writes, f) ==
           if f.Valid() && f != RsY then Some(Reading(false, Zero, f)) else None
  {
    AxesAreTheNumericFields();
    forall f: Field
      ensures LastWrite(EdgeWrites(false, Zero, EdgeAxes), f) ==
        if f.Valid() && f != RsY then Some(Reading(false, Zero, f)) else None
    {
      EdgeWritesLast(false, Zero, EdgeAxes, f);
    }
  }

  /** A steady update writes `connect` and each field whose value differs from the
      view, with the table's value. */
  lemma SteadyWritesLast(last: Snapshot, tmp: Snapshot, f: Field)
    ensures LastWrite(SteadyWrites(last, tmp), f) ==
      if f.Valid() && (f == Connect || Reading(true, tmp, f) != Reading(true, last, f))
      then Some(Reading(true, tmp, f)) else None
  {
    var a := AxisDiff(last, tmp, Axes);
    var b := ButtonDiff(last.buttons, tmp.buttons, ButtonCount);
    var c := Write(Connect, Bool(true));
    LastWriteConcat(a + b, [c], f);
    LastWriteConcat(a, b, f);
    LastWriteSingle(c, f);
    ButtonDiffLast(last.buttons, tmp.buttons, ButtonCount, f);
    AxisDiffLast(last, tmp, Axes, f);
    AxesAreTheNumericFields();
    if f.IsAxis() {
      ReadingAxis(true, tmp, f);
      ReadingAxis(true, last, f);
    }
  }

  /** The steady view shows the table's reading in every field. */
  lemma ReadingSteady(connected: bool, last: Snapshot, tmp: Snapshot, f: Field)
    requires f.Valid()
    ensures Reading(connected, Steady(last, tmp), f) == Reading(connected, tmp, f)
  {
  }

  /** Steady connected state: exactly the numeric fields and buttons whose value differs
      from the view are written, with the table's value, plus `connect = true`; afterwards
      the view shows the table's reading in every field. */
  lemma SyncSteady(tmp: Snapshot, last: Local)
    requires last.connected
    ensures var r := Sync(true, tmp, last);
      && r.view.connected
      && (forall f: Field :: LastWrite(r.writes, f) ==
            if f.Valid() && (f == Connect || Reading(true, tmp, f) != Reading(true, last.state, f))
            then Some(Reading(true, tmp, f)) else None)
      && (forall f: Field :: f.Valid() ==> Reading(true, r.view.state, f) == Reading(true, tmp, f))
  {
    forall f: Field
      ensures LastWrite(SteadyWrites(last.state, tmp), f) ==
        if f.Valid() && (f == Connect || Reading(true, tmp, f) != Reading(true, last.state, f))
        then Some(Reading(true, tmp, f)) else None
    {
      SteadyWritesLast(last.state, tmp, f);
    }
    forall f: Field | f.Valid()
      ensures Reading(true, Steady(last.state, tmp), f) == Reading(true, tmp, f)
    {
      ReadingSteady(true, last.state, tmp, f);
    }
  }


  // ---------------------------------------------------------------------------
  // Several updates: idempotence, convergence, and what the host record shows
  // ---------------------------------------------------------------------------

  /** What every view satisfies: a disconnected view holds the zero reading (it starts
      zeroed and is zeroed again on every disconnect edge). */
  predicate ViewInv(v: Local)
  {
    !v.connected ==> v.state == Zero
  }

  lemma {:induction false} AxisDiffSame(last: Snapshot, tmp: Snapshot, fs: seq<Axis>)
    requires forall k :: 0 <= k < |fs| ==> AxisValue(last, fs[k]) == AxisValue(tmp, fs[k])
    ensures AxisDiff(last, tmp, fs) == []
  {
    if fs != [] {
      AxisDiffSame(last, tmp, fs[1..]);
    }
  }

  /** An update keeps the view invariant. */
  lemma SyncKeepsViewInv(connected: bool, tmp: Snapshot, last: Local)
    requires ViewInv(last)
    ensures ViewInv(Sync(connected, tmp, last).view) && ViewInv(SyncFixed(connected, tmp, last).view)
  {
  }

  /** Updating a second time against an unchanged slot writes nothing but `connect`,
      and leaves the view as the first update left it. */
  lemma SyncIdempotent(connected: bool, tmp: Snapshot, last: Local)
    ensures var r1 := Sync(connected, tmp, last);
      var r2 := Sync(connected, tmp, r1.view);
      r2.writes == [Write(Connect, Bool(connected))] && r2.view == r1.view
  {
    var r1 := Sync(connected, tmp, last);
    if connected {
      var v := r1.view.state;
      assert v.buttons == tmp.buttons;
      AxisDiffSame(v, tmp, Axes);
      ButtonDiffSame(tmp.buttons, ButtonCount);
      assert SteadyWrites(v, tmp) == [Write(Connect, Bool(true))];
    }
  }

  /** After an update the view shows exactly the slot: the table's reading when it is
      connected, the zero reading when it is not. */
  lemma SyncViewTracksSlot(connected: bool, tmp: Snapshot, last: Local)
    requires ViewInv(last)
    ensures var v := Sync(connected, tmp, last).view;
      v.connected == connected
      && forall f: Field :: f.Valid() ==>
        Reading(v.connected, v.state, f) == Reading(connected, if connected then tmp else Zero, f)
  {
    var v := Sync(connected, tmp, last).view;
    if connected && last.connected {
      forall f: Field | f.Valid()
        ensures Reading(v.connected, v.state, f) == Reading(connected, tmp, f)
      {
        if f.IsAxis() {
          ReadingAxis(true, v.state, f);
          ReadingAxis(true, tmp, f);
        }
      }
    }
  }

  /** Two views that each update against the same slot agree afterwards on everything
      they report, whatever they had reported before. */
  lemma SyncViewsConverge(connected: bool, tmp: Snapshot, v1: Local, v2: Local)
    requires ViewInv(v1) && ViewInv(v2)
    ensures var w1 := Sync(connected, tmp, v1).view;
      var w2 := Sync(connected, tmp, v2).view;
      w1.connected == w2.connected
      && forall f: Field :: f.Valid() ==> Reading(w1.connected, w1.state, f) == Reading(w2.connected, w2.state, f)
  {
    SyncViewTracksSlot(connected, tmp, v1);
    SyncViewTracksSlot(connected, tmp, v2);
  }

  /** The host record shows the view (connected flag and reading) in every field
      outside `except`. */
  ghost predicate Shows(rec: Record, v: Local, except: set<Field>)
  {
    forall f: Field :: f.Valid() && f !in except ==> f in rec && rec[f] == Reading(v.connected, v.state, f)
  }

  /** One field of the record after one update, given the record showed the view. */
  lemma SyncWithKeepsField(edge: seq<Axis>, connected: bool, tmp: Snapshot, last: Local,
                           rec: Record, except: set<Field>, f: Field)
    requires forall f: Field :: f.IsAxis() && f !in edge ==> f in except
    requires ViewInv(last) && Shows(rec, last, except)
    requires f.Valid() && f !in except
    ensures var r := SyncWith(edge, connected, tmp, last);
      f in Apply(rec, r.writes) && Apply(rec, r.writes)[f] == Reading(r.view.connected, r.view.state, f)
  {
    var r := SyncWith(edge, connected, tmp, last);
    ApplyAt(rec, r.writes, f);
    if connected != last.connected {
      if connected {
        EdgeWritesLast(true, tmp, edge, f);
      } else {
        EdgeWritesLast(false, Zero, edge, f);
      }
    } else if connected {
      SteadyWritesLast(last.state, tmp, f);
      ReadingSteady(true, last.state, tmp, f);
    } else {
      LastWriteSingle(Write(Connect, Bool(false)), f);
    }
  }

  /** One update keeps the host record in step with the view, except in the numeric
      fields that the edges do not write. */
  lemma SyncWithKeepsRecord(edge: seq<Axis>, connected: bool, tmp: Snapshot, last: Local,
                            rec: Record, except: set<Field>)
    requires forall f: Field :: f.IsAxis() && f !in edge ==> f in except
    requires ViewInv(last) && Shows(rec, last, except)
    ensures var r := SyncWith(edge, connected, tmp, last);
      Shows(Apply(rec, r.writes), r.view, except)
  {
    var r := SyncWith(edge, connected, tmp, last);
    forall f: Field | f.Valid() && f !in except
      ensures f in Apply(rec, r.writes) && Apply(rec, r.writes)[f] == Reading(r.view.connected, r.view.state, f)
    {
      SyncWithKeepsField(edge, connected, tmp, last, rec, except, f);
    }
  }

  /** With RS_Y written on both edges, the host record always shows the slot exactly. */
  lemma SyncFixedKeepsRecord(connected: bool, tmp: Snapshot, last: Local, rec: Record)
    requires ViewInv(last) && Shows(rec, last, {})
    ensures var r := SyncFixed(connected, tmp, last);
      Shows(Apply(rec, r.writes), r.view, {})
      && forall f: Field :: f.Valid() ==>
        Apply(rec, r.writes)[f] == Reading(connected, if connected then tmp else Zero, f)
  {
    AxesAreTheNumericFields();
    SyncWithKeepsRecord(Axes, connected, tmp, last, rec, {});
    var v := SyncFixed(connected, tmp, last).view;
    if connected && last.connected {
      forall f: Field | f.Valid()
        ensures Reading(v.connected, v.state, f) == Reading(connected, tmp, f)
      {
        ReadingSteady(true, last.state, tmp, f);
      }
    }
  }

  /** As written, the record stays in step with the view in every field but RS_Y. */
  lemma SyncKeepsRecordButRsY(connected: bool, tmp: Snapshot, last: Local, rec: Record)
    requires ViewInv(last) && Shows(rec, last, {RsY})
    ensures var r := Sync(connected, tmp, last);
      Shows(Apply(rec, r.writes), r.view, {RsY})
  {
    AxesAreTheNumericFields();
    SyncWithKeepsRecord(EdgeAxes, connected, tmp, last, rec, {RsY});
  }

  /** As written, a connect edge leaves a stale RS_Y in the record, and so do the steady
      updates after it while the stick does not move: a pad that connects with its right
      stick held (table RS_Y = -100, record RS_Y = 0 from before) keeps showing 0. */
  lemma SyncConnectLeavesStaleRsY(tmp: Snapshot, last: Local, rec: Record)
    requires !last.connected && RsY in rec && rec[RsY] != Reading(true, tmp, RsY)
    ensures var r1 := Sync(true, tmp, last);
      var rec1 := Apply(rec, r1.writes);
      var r2 := Sync(true, tmp, r1.view);
      var rec2 := Apply(rec1, r2.writes);
      RsY in rec1 && rec1[RsY] == rec[RsY] && RsY in rec2 && rec2[RsY] == rec[RsY] && rec[RsY] != Reading(true, tmp, RsY)
      && Reading(true, r2.view.state, RsY) == Reading(true, tmp, RsY)
  {
    var r1 := Sync(true, tmp, last);
    SyncConnectEdge(tmp, last);
    assert LastWrite(r1.writes, RsY) == None;
    ApplyAt(rec, r1.writes, RsY);
    var rec1 := Apply(rec, r1.writes);
    SyncIdempotent(true, tmp, last);
    var r2 := Sync(true, tmp, r1.view);
    LastWriteSingle(Write(Connect, Bool(true)), RsY);
    ApplyAt(rec1, r2.writes, RsY);
  }


  // ---------------------------------------------------------------------------
  // The consumer view and its update method
  // ---------------------------------------------------------------------------

  /** Shifting the empty mask leaves it empty. */
  lemma {:induction false} NoBitOfZero(n: nat)
    ensures ShiftN(0, n) == 0
  {
    if n > 0 {
      NoBitOfZero(n - 1);
    }
  }

  lemma ButtonWritesStep(mask: bv16, i: nat)
    requires i < ButtonCount
    ensures ButtonWrites(mask, i + 1) == ButtonWrites(mask, i) + [Write(Button(i), Bool(ShiftN(mask, i) & 1 == 1))]
    ensures ShiftN(mask, i + 1) == ShiftN(mask, i) >> 1
  {
  }

  lemma ButtonDiffStep(last: bv16, mask: bv16, i: nat)
    requires i < ButtonCount
    ensures var press := ShiftN(mask, i) & 1 == 1;
      ButtonDiff(last, mask, i + 1) == ButtonDiff(last, mask, i)
        + (if press != (ShiftN(last, i) & 1 == 1) then [Write(Button(i), Bool(press))] else [])
    ensures ShiftN(mask, i + 1) == ShiftN(mask, i) >> 1 && ShiftN(last, i + 1) == ShiftN(last, i) >> 1
  {
  }

  /** The button loop of the connect edge: bit i of the mask, shifted out one at a
      time, is written to button i. */
  method ReportButtons(buttons: bv16) returns (writes: seq<Write>)
    ensures writes == ButtonWrites(buttons, ButtonCount)
  {
    writes := [];
    var mask := buttons;
    var i := 0;
    while i < ButtonCount
      invariant 0 <= i <= ButtonCount
      invariant mask == ShiftN(buttons, i)
      invariant writes == ButtonWrites(buttons, i)
    {
      ButtonWritesStep(buttons, i);
      writes := writes + [Write(Button(i), Bool(mask & 1 == 1))];
      mask := mask >> 1;
      i := i + 1;
    }
  }

  /** The connect-edge part of `lgamepad_update`: LT, RT, LS_X, LS_Y and RS_X, then
      the 16 buttons. */
  method ReportConnect(tmp: Snapshot) returns (writes: seq<Write>)
    ensures writes + [Write(Connect, Bool(true))] == EdgeWrites(true, tmp, EdgeAxes)
  {
    // RS_Y is pushed but never stored into the record
    writes := [Write(Lt, Int(tmp.lt as int)), Write(Rt, Int(tmp.rt as int)),
               Write(LsX, Int(tmp.lsX as int)), Write(LsY, Int(tmp.lsY as int)),
               Write(RsX, Int(tmp.rsX as int))];
    EdgeAxisWritesUnfold(tmp);
    var buttons := ReportButtons(tmp.buttons);
    writes := writes + buttons;
  }

  /** The disconnect-edge part of `lgamepad_update`: 0 to LT, RT, LS_X, LS_Y and RS_X,
      false to the 16 buttons. */
  method ReportDisconnect() returns (writes: seq<Write>)
    ensures writes + [Write(Connect, Bool(false))] == EdgeWrites(false, Zero, EdgeAxes)
  {
    writes := [Write(Lt, Int(0)), Write(Rt, Int(0)), Write(LsX, Int(0)),
               Write(LsY, Int(0)), Write(RsX, Int(0))];
    EdgeAxisWritesUnfold(Zero);
    ghost var axes := writes;
    assert axes == AxisWrites(Zero, EdgeAxes);
    for i := 0 to ButtonCount
      invariant writes == axes + ButtonWrites(0, i)
    {
      ButtonWritesStep(0, i);
      NoBitOfZero(i);
      writes := writes + [Write(Button(i), Bool(false))];
    }
  }

  /** The numeric part of the steady update: each field that differs from the view is
      assigned and written. */
  method ReportAxisChanges(last: Snapshot, tmp: Snapshot) returns (writes: seq<Write>, state: Snapshot)
    ensures writes == AxisDiff(last, tmp, Axes)
    ensures state == last.(lt := tmp.lt, rt := tmp.rt, lsX := tmp.lsX, lsY := tmp.lsY,
                           rsX := tmp.rsX, rsY := tmp.rsY)
  {
    writes := [];
    state := last;
    if tmp.lt != state.lt {
      state := state.(lt := tmp.lt);
      writes := writes + [Write(Lt, Int(tmp.lt as int))];
    }
    ghost var w1 := writes;
    assert state == last.(lt := tmp.lt);
    assert w1 == AxisChange(Lt, last, tmp);
    if tmp.rt != state.rt {
      state := state.(rt := tmp.rt);
      writes := writes + [Write(Rt, Int(tmp.rt as int))];
    }
    ghost var w2 := writes;
    assert state == last.(lt := tmp.lt, rt := tmp.rt);
    assert w2 == w1 + AxisChange(Rt, last, tmp);
    if tmp.lsX != state.lsX {
      state := state.(lsX := tmp.lsX);
      writes := writes + [Write(LsX, Int(tmp.lsX as int))];
    }
    ghost var w3 := writes;
    assert state == last.(lt := tmp.lt, rt := tmp.rt, lsX := tmp.lsX);
    assert w3 == w2 + AxisChange(LsX, last, tmp);
    if tmp.lsY != state.lsY {
      state := state.(lsY := tmp.lsY);
      writes := writes + [Write(LsY, Int(tmp.lsY as int))];
    }
    ghost var w4 := writes;
    assert state == last.(lt := tmp.lt, rt := tmp.rt, lsX := tmp.lsX, lsY := tmp.lsY);
    assert w4 == w3 + AxisChange(LsY, last, tmp);
    if tmp.rsX != state.rsX {
      state := state.(rsX := tmp.rsX);
      writes := writes + [Write(RsX, Int(tmp.rsX as int))];
    }
    ghost var w5 := writes;
    assert state == last.(lt := tmp.lt, rt := tmp.rt, lsX := tmp.lsX, lsY := tmp.lsY, rsX := tmp.rsX);
    assert w5 == w4 + AxisChange(RsX, last, tmp);
    if tmp.rsY != state.rsY {
      state := state.(rsY := tmp.rsY);
      writes := writes + [Write(RsY, Int(tmp.rsY as int))];
    }
    assert writes == w5 + AxisChange(RsY, last, tmp);
    AxisDiffUnfold(last, tmp);
  }

  /** The button part of the steady update: when the masks differ, both are shifted out
      together and each button whose bit differs is written with its new state. */
  method ReportButtonChanges(lastMask: bv16, newMask: bv16) returns (writes: seq<Write>)
    ensures writes == ButtonDiff(lastMask, newMask, ButtonCount)
  {
    writes := [];
    if newMask == lastMask {
      ButtonDiffSame(newMask, ButtonCount);
      return;
    }
    var mask := newMask;
    var last := lastMask;
    var i := 0;
    while i < ButtonCount
      invariant 0 <= i <= ButtonCount
      invariant mask == ShiftN(newMask, i) && last == ShiftN(lastMask, i)
      invariant writes == ButtonDiff(lastMask, newMask, i)
    {
      ButtonDiffStep(lastMask, newMask, i);
      var press := mask & 1 == 1;
      if press != (last & 1 == 1) {
        writes := writes + [Write(Button(i), Bool(press))];
      }
      mask := mask >> 1;
      last := last >> 1;
      i := i + 1;
    }
  }

  /** The steady part of `lgamepad_update`: the numeric fields, then the buttons.
      Returns the writes and the new view reading. */
  method ReportChanges(last: Snapshot, tmp: Snapshot) returns (writes: seq<Write>, state: Snapshot)
    ensures writes + [Write(Connect, Bool(true))] == SteadyWrites(last, tmp)
    ensures state == Steady(last, tmp)
  {
    writes, state := ReportAxisChanges(last, tmp);
    var buttons := ReportButtonChanges(state.buttons, tmp.buttons);
    writes := writes + buttons;
    state := state.(buttons := tmp.buttons);
  }

  /** The diff of `lgamepad_update` once the slot has been copied out: the writes into
      the record (ending with `connect`) and the view's new copy of the slot. */
  method Report(connected: bool, tmp: Snapshot, last: Local) returns (writes: seq<Write>, view: Local)
    ensures SyncOut(writes, view) == Sync(connected, tmp, last)
  {
    view := last;
    writes := [];
    if connected != last.connected {
      if connected {
        // reconnected: report everything
        writes := ReportConnect(tmp);
        view := view.(state := tmp);
      } else {
        // disconnected: clear everything
        writes := ReportDisconnect();
        view := view.(state := Zero);
      }
    } else if connected {
      // still connected: report what changed
      var state;
      writes, state := ReportChanges(last.state, tmp);
      view := view.(state := state);
    }
    writes := writes + [Write(Connect, Bool(connected))];
    view := view.(connected := connected);
  }

  /** What `lgamepad_update` returns: the record writes and the connected flag. */
  datatype Reply = Reply(writes: seq<Write>, connected: bool)

  /** The `update` closure of `luaopen_gamepad` with its upvalue: one `gamepad_local`
      per slot. */
  class GamepadView {
    var local: array<Local>

    /** Four views, each holding the zero reading while it reports a disconnected pad. */
    ghost predicate Valid()
      reads this, local
    {
      local.Length == MaxGamepad && forall i :: 0 <= i < MaxGamepad ==> ViewInv(local[i])
    }

    /** `luaopen_gamepad`: the upvalue is zeroed, so every slot is disconnected. */
    constructor ()
      ensures Valid() && fresh(local)
      ensures forall i :: 0 <= i < MaxGamepad ==> local[i] == Local(false, Zero) && ViewInv(local[i])
    {
      local := new Local[MaxGamepad](_ => Local(false, Zero));
    }

    /** `lgamepad_update(record [, index])`: the index defaults to 0, and one outside 0..3 is
        an error; otherwise the slot is copied out of the table in one critical section and
        diffed against the view as `Sync` describes, and only that slot of the view changes. */
    method Update(table: SlotTable, indexArg: Option<int>) returns (r: Result<Reply>)
      requires Valid() && table.Valid()
      modifies local
      ensures Valid()
      ensures var index := if indexArg.Some? then indexArg.value else 0;
        !(0 <= index < MaxGamepad) ==> r.Err? && local[..] == old(local[..])
      ensures var index := if indexArg.Some? then indexArg.value else 0;
        0 <= index < MaxGamepad ==>
        var out := Sync(table.connected[index], table.state[index], old(local[index]));
        && r == Ok(Reply(out.writes, table.connected[index]))
        && local[index] == out.view
        && forall k :: 0 <= k < MaxGamepad && k != index ==> local[k] == old(local[k])
    {
      var index := if indexArg.Some? then indexArg.value else 0;
      if index < 0 || index >= MaxGamepad {
        return Err("Invalid gamepad id");
      }
      var last := local[index];
      // the critical section: copy the slot out of the table
      var connected := table.connected[index];
      var tmp := Zero;
      if connected {
        tmp := table.state[index];
      }
      var writes, view := Report(connected, tmp, last);
      assert Sync(connected, tmp, last) == Sync(connected, table.state[index], last);
      SyncKeepsViewInv(connected, tmp, last);
      local[index] := view;
      r := Ok(Reply(writes, connected));
    }
  }
}
