/**
 The EEPROM: its registers, the two-step write enable, and the delayed write.
 */
module EepromRegisters {
  import opened Bytes
  import opened Bitwise
  import opened ListSpec
  import opened OwnCallback
  import DList
  import opened Wrappers

  const EECR := 0x3c
  const EEDR := 0x3d
  const EEARL := 0x3e
  const EEARH := 0x3f

  const MASK_EERE := 1
  const MASK_EEWE := 2
  const MASK_EEMWE := 4

  const WR_OP_CLKS := 2500
  const MWE_CLKS := 4

  /** Control bits are kept one by one; wrCb and mweCb mean a callback is noted as installed. */
  datatype Eeprom = Eeprom(mem: seq<byte>, eewe: bool, eemwe: bool, eedr: byte, eearl: byte, eearh: byte,
                           wrCb: bool, wrClk: nat, mweCb: bool, mweClk: nat)

  /** The EEPROM, the asynchronous and the clock callback list, and a bound on the callbacks made. */
  datatype Machine = Machine(ee: Eeprom, async: seq<Callback>, clk: seq<Callback>, made: nat)

  /** Stopped stands for the errors that end the simulator. */
  datatype Outcome = Running(m: Machine) | Stopped

  function Address(ee: Eeprom): nat {
    ee.eearh * 256 + ee.eearl
  }

  predicate HasMwe(mask: byte) {
    mask / MASK_EEMWE % 2 == 1
  }

  /** A write may start when the master enable is set, or when the device has none. */
  predicate Armed(ee: Eeprom, mask: byte) {
    !HasMwe(mask) || ee.eemwe
  }

  function StartWrite(m: Machine, mask: byte): Machine {
    if !Armed(m.ee, mask) then m
    else
      var m1 := if m.ee.wrCb then m else m.(async := Add(m.async, Own(m.made), None), made := m.made + 1);
      m1.(ee := m.ee.(eewe := true, wrClk := WR_OP_CLKS, wrCb := true))
  }

  function EnableMaster(m: Machine): Machine {
    var m1 := if m.ee.mweCb then m else m.(clk := Add(m.clk, Own(m.made), None), made := m.made + 1);
    m1.(ee := m.ee.(eemwe := true, mweClk := MWE_CLKS, mweCb := true))
  }

  function WriteEecr(m: Machine, mask: byte, val: byte): Outcome {
    var bits := And(val, mask);
    if bits == MASK_EERE then
      if Address(m.ee) < |m.ee.mem| then Running(m.(ee := m.ee.(eedr := m.ee.mem[Address(m.ee)]))) else Stopped
    else if bits == MASK_EEWE || bits == MASK_EEMWE + MASK_EEWE then Running(StartWrite(m, mask))
    else if bits == MASK_EEMWE then Running(EnableMaster(m))
    else Stopped
  }

  /** While a write is in progress the registers must not be written. */
  function WriteReg(m: Machine, mask: byte, addr: nat, val: byte): Outcome {
    if m.ee.eewe then Stopped
    else if addr == EECR then WriteEecr(m, mask, val)
    else if addr == EEDR then Running(m.(ee := m.ee.(eedr := val)))
    else if addr == EEARL then Running(m.(ee := m.ee.(eearl := val)))
    else if addr == EEARH then Running(m.(ee := m.ee.(eearh := val)))
    else Stopped
  }

  /** The write callback; the flag among the results says that the address is out of range. */
  function WriteTick(s: (Eeprom, bool)): (bool, (Eeprom, bool)) {
    var ee := s.0;
    if ee.wrClk > 0 then (false, (ee.(wrClk := ee.wrClk - 1), s.1))
    else if Address(ee) >= |ee.mem| then (true, (ee, true))
    else (true, (ee.(mem := ee.mem[Address(ee) := ee.eedr], eewe := false, wrCb := false), s.1))
  }

  function MasterTick(ee: Eeprom): (bool, Eeprom) {
    if ee.mweClk > 0 then (false, ee.(mweClk := ee.mweClk - 1))
    else (true, ee.(eemwe := false, mweCb := false))
  }

  datatype Event =
    | Write(addr: nat, val: byte)      // an instruction writes a register
    | ClockTick(others: Others)        // one clock
    | AsyncTick(others: Others)        // one run of the asynchronous callbacks
    | OtherInstalls(clock: bool)       // another peripheral installs a callback

  function Happen(m: Machine, mask: byte, e: Event): Outcome {
    match e
    case Write(addr, val) => WriteReg(m, mask, addr, val)
    case ClockTick(others) =>
      var v := RunAll(m.clk, MasterTick, others, m.ee);
      Running(m.(ee := v.state, clk := v.kept))
    case AsyncTick(others) =>
      var v := RunAll(m.async, WriteTick, others, (m.ee, false));
      if v.state.1 then Stopped else Running(m.(ee := v.state.0, async := v.kept))
    case OtherInstalls(clock) =>
      var cb := Other(m.made);
      Running(if clock then m.(clk := Add(m.clk, cb, None), made := m.made + 1)
              else m.(async := Add(m.async, cb, None), made := m.made + 1))
  }

  /** A run: the events happen one after the other, unless the simulator stops. */
  function Run(m: Machine, mask: byte, events: seq<Event>): Outcome
    decreases |events|
  {
    if events == [] then Running(m)
    else
      var r := Run(m, mask, events[..|events| - 1]);
      if r.Running? then Happen(r.m, mask, events[|events| - 1]) else Stopped
  }

  // ----- bits and callbacks -----

  /** Each bit is set exactly when its callback is installed, and then the callback is listed once. */
  ghost predicate Linked(m: Machine) {
    && m.ee.wrCb == m.ee.eewe && m.ee.mweCb == m.ee.eemwe
    && Sound(m.async, m.made) && Sound(m.clk, m.made)
    && Copies(m.async) == (if m.ee.eewe then 1 else 0)
    && Copies(m.clk) == if m.ee.eemwe then 1 else 0
  }

  lemma WriteKeepsLinked(m: Machine, mask: byte, addr: nat, val: byte)
    requires Linked(m) && WriteReg(m, mask, addr, val).Running?
    ensures Linked(WriteReg(m, mask, addr, val).m)
  {
    SoundLater(m.async, m.made);
    SoundLater(m.clk, m.made);
    Appended(m.async, m.made, Own(m.made));
    Appended(m.clk, m.made, Own(m.made));
  }

  /** What an event does when the callbacks are listed as they should be. */
  lemma HappensAs(m: Machine, mask: byte, e: Event)
    requires Linked(m) && Happen(m, mask, e).Running?
    ensures Linked(Happen(m, mask, e).m)
    ensures e.AsyncTick? ==>
              Happen(m, mask, e).m.ee == if m.ee.eewe then WriteTick((m.ee, false)).1.0 else m.ee
    ensures e.ClockTick? ==> Happen(m, mask, e).m.ee == if m.ee.eemwe then MasterTick(m.ee).1 else m.ee
  {
    SoundLater(m.async, m.made);
    SoundLater(m.clk, m.made);
    match e
    case Write(addr, val) => WriteKeepsLinked(m, mask, addr, val);
    case ClockTick(others) => Runs(m.clk, m.made, MasterTick, others, m.ee);
    case AsyncTick(others) => Runs(m.async, m.made, WriteTick, others, (m.ee, false));
    case OtherInstalls(clock) =>
      Appended(m.async, m.made, Other(m.made));
      Appended(m.clk, m.made, Other(m.made));
  }

  /** In every run each control bit is set exactly when its callback is installed. */
  lemma {:induction false} RunLinked(m: Machine, mask: byte, events: seq<Event>)
    requires Linked(m) && Run(m, mask, events).Running?
    ensures Linked(Run(m, mask, events).m)
    decreases |events|
  {
    if events != [] {
      var before := events[..|events| - 1];
      RunLinked(m, mask, before);
      HappensAs(Run(m, mask, before).m, mask, events[|events| - 1]);
    }
  }

  // ----- when memory changes -----

  function AsyncTicks(events: seq<Event>): nat
    decreases |events|
  {
    if events == [] then 0
    else AsyncTicks(events[..|events| - 1]) + if events[|events| - 1].AsyncTick? then 1 else 0
  }

  /** The event starts a write. */
  predicate Starts(ee: Eeprom, mask: byte, e: Event) {
    e.Write? && e.addr == EECR && And(e.val, mask) in {MASK_EEWE, MASK_EEMWE + MASK_EEWE} && !ee.eewe && Armed(ee, mask)
  }

  /** Event k of a run started a write with that address and data, the master enable permitting. */
  ghost predicate StartedAt(m: Machine, mask: byte, events: seq<Event>, k: nat, addr: nat, data: byte) {
    && k < |events|
    && var r := Run(m, mask, events[..k]);
       r.Running? && Starts(r.m.ee, mask, events[k]) && Address(r.m.ee) == addr && r.m.ee.eedr == data
  }

  /** The write in progress, if any, was started by an event of the run and its remaining count is known. */
  ghost predicate Accounted(m: Machine, mask: byte, events: seq<Event>, ee: Eeprom) {
    ee.eewe ==>
      exists k: nat :: StartedAt(m, mask, events, k, Address(ee), ee.eedr)
                       && AsyncTicks(events[k + 1..]) + ee.wrClk == WR_OP_CLKS
  }

  lemma StartedAtExtends(m: Machine, mask: byte, events: seq<Event>, e: Event, k: nat, addr: nat, data: byte)
    requires StartedAt(m, mask, events, k, addr, data)
    ensures StartedAt(m, mask, events + [e], k, addr, data)
    ensures AsyncTicks((events + [e])[k + 1..]) == AsyncTicks(events[k + 1..]) + if e.AsyncTick? then 1 else 0
  {
    assert (events + [e])[..k] == events[..k];
    var tail := (events + [e])[k + 1..];
    assert tail == events[k + 1..] + [e] && tail[..|tail| - 1] == events[k + 1..];
  }

  /** An event that starts no write leaves memory alone, unless it completes one. */
  lemma EventEffects(m: Machine, mask: byte, e: Event)
    requires Linked(m) && Happen(m, mask, e).Running?
    ensures var ee, ee' := m.ee, Happen(m, mask, e).m.ee;
            if Starts(ee, mask, e) then
              ee'.mem == ee.mem && ee'.eewe && ee'.wrClk == WR_OP_CLKS && Address(ee') == Address(ee) && ee'.eedr == ee.eedr
            else if !ee.eewe then ee'.mem == ee.mem && !ee'.eewe
            else if e.AsyncTick? && ee.wrClk == 0 then
              Address(ee) < |ee.mem| && ee'.mem == ee.mem[Address(ee) := ee.eedr] && !ee'.eewe
            else
              ee'.mem == ee.mem && ee'.eewe && Address(ee') == Address(ee) && ee'.eedr == ee.eedr
              && ee'.wrClk == ee.wrClk - if e.AsyncTick? then 1 else 0
  {
    HappensAs(m, mask, e);
    if e.AsyncTick? && m.ee.eewe {
      Runs(m.async, m.made, WriteTick, e.others, (m.ee, false));
    }
  }

  lemma {:induction false} RunAccounted(m: Machine, mask: byte, events: seq<Event>)
    requires Linked(m) && !m.ee.eewe && Run(m, mask, events).Running?
    ensures Accounted(m, mask, events, Run(m, mask, events).m.ee)
    decreases |events|
  {
    if events != [] {
      var before, e := events[..|events| - 1], events[|events| - 1];
      var m1, m2 := Run(m, mask, before).m, Run(m, mask, events).m;
      assert events == before + [e];
      RunLinked(m, mask, before);
      RunAccounted(m, mask, before);
      EventEffects(m1, mask, e);
      if Starts(m1.ee, mask, e) {
        assert StartedAt(m, mask, events, |before|, Address(m2.ee), m2.ee.eedr);
        assert events[|before| + 1..] == [];
      } else if m2.ee.eewe {
        var k: nat :| StartedAt(m, mask, before, k, Address(m1.ee), m1.ee.eedr)
                      && AsyncTicks(before[k + 1..]) + m1.ee.wrClk == WR_OP_CLKS;
        StartedAtExtends(m, mask, before, e, k, Address(m1.ee), m1.ee.eedr);
      }
    }
  }

  /**
   In every run from a state without a write in progress, memory changes only at the asynchronous
   tick that completes a write: one byte, with the address and data the registers held when some
   earlier event started the write, the master enable being set then, 2500 ticks before.
   */
  lemma MemoryChangesOnlyByArmedWrites(m: Machine, mask: byte, events: seq<Event>, e: Event)
    requires Linked(m) && !m.ee.eewe
    requires Run(m, mask, events).Running? && Happen(Run(m, mask, events).m, mask, e).Running?
    ensures var ee, ee' := Run(m, mask, events).m.ee, Happen(Run(m, mask, events).m, mask, e).m.ee;
            ee'.mem != ee.mem ==>
              e.AsyncTick? && exists k: nat, addr: nat, data: byte ::
                StartedAt(m, mask, events, k, addr, data) && AsyncTicks(events[k + 1..]) == WR_OP_CLKS
                && addr < |ee.mem| && ee'.mem == ee.mem[addr := data]
  {
    RunLinked(m, mask, events);
    RunAccounted(m, mask, events);
    EventEffects(Run(m, mask, events).m, mask, e);
  }

  // ----- how long the master enable lasts -----

  function ClockTicks(events: seq<Event>): nat
    decreases |events|
  {
    if events == [] then 0
    else ClockTicks(events[..|events| - 1]) + if events[|events| - 1].ClockTick? then 1 else 0
  }

  predicate SetsMaster(mask: byte, e: Event) {
    e.Write? && e.addr == EECR && And(e.val, mask) == MASK_EEMWE
  }

  /** Once set and not set again, the master enable lasts for as many clocks as its count. */
  lemma {:induction false} MasterLasts(m: Machine, mask: byte, events: seq<Event>)
    requires Linked(m) && m.ee.eemwe && Run(m, mask, events).Running?
    requires forall i :: 0 <= i < |events| ==> !SetsMaster(mask, events[i])
    ensures var ee := Run(m, mask, events).m.ee;
            if ClockTicks(events) <= m.ee.mweClk then ee.eemwe && ee.mweClk == m.ee.mweClk - ClockTicks(events)
            else !ee.eemwe
    decreases |events|
  {
    if events != [] {
      var before, e := events[..|events| - 1], events[|events| - 1];
      MasterLasts(m, mask, before);
      RunLinked(m, mask, before);
      HappensAs(Run(m, mask, before).m, mask, e);
      MasterFrame(Run(m, mask, before).m, mask, e);
    }
  }

  lemma MasterFrame(m: Machine, mask: byte, e: Event)
    requires Linked(m) && Happen(m, mask, e).Running? && !SetsMaster(mask, e)
    ensures var ee := Happen(m, mask, e).m.ee;
            !e.ClockTick? ==> ee.eemwe == m.ee.eemwe && ee.mweClk == m.ee.mweClk
  {
    HappensAs(m, mask, e);
  }

  /** After the event that sets it, the master enable is set up to the fourth clock and falls on the fifth. */
  lemma MasterFallsOnFifthClock(m: Machine, mask: byte, enable: Event, events: seq<Event>)
    requires Linked(m) && SetsMaster(mask, enable) && Happen(m, mask, enable).Running?
    requires forall i :: 0 <= i < |events| ==> !SetsMaster(mask, events[i])
    requires Run(Happen(m, mask, enable).m, mask, events).Running?
    ensures Run(Happen(m, mask, enable).m, mask, events).m.ee.eemwe <==> ClockTicks(events) <= MWE_CLKS
  {
    HappensAs(m, mask, enable);
    MasterLasts(Happen(m, mask, enable).m, mask, events);
  }

  // ----- the simulator's own form -----

  ghost predicate Apart(a: DList.List<Callback>, b: DList.List<Callback>)
    reads a, b
  {
    forall n :: n in a.nodes ==> n !in b.nodes
  }

  /** Append a callback to one of two lists. */
  method Install(list: DList.List<Callback>, ghost other: DList.List<Callback>, cb: Callback)
    requires list != other && list.Valid() && other.Valid() && Apart(list, other)
    modifies list, list.nodes
    ensures list.Valid() && other.Valid() && Apart(list, other) && Apart(other, list)
    ensures list.contents == Add(old(list.contents), cb, None)
  {
    assert forall i :: 0 <= i < |other.nodes| ==> other.nodes[i] in other.nodes && other.nodes[i] !in list.nodes;
    list.Add(cb, None);
    assert forall i :: 0 <= i < |other.nodes| ==>
      other.nodes[i].data == old(other.nodes[i].data) && other.nodes[i].next == old(other.nodes[i].next)
      && other.nodes[i].prev == old(other.nodes[i].prev);
  }

  class Device {
    const stor: array<byte>
    const mask: byte
    var eewe: bool
    var eemwe: bool
    var eedr: byte
    var eearl: byte
    var eearh: byte
    var wrCb: bool
    var wrClk: nat
    var mweCb: bool
    var mweClk: nat
    const async: DList.List<Callback>
    const clk: DList.List<Callback>
    var made: nat

    /** The two callback lists share no node. */
    ghost predicate Valid()
      reads this, async, clk, async.nodes, clk.nodes
    {
      async != clk && async.Valid() && clk.Valid() && Apart(async, clk)
    }

    ghost function Registers(): Eeprom
      reads this, stor
    {
      Eeprom(stor[..], eewe, eemwe, eedr, eearl, eearh, wrCb, wrClk, mweCb, mweClk)
    }

    ghost function State(): Machine
      reads this, stor, async, clk
    {
      Machine(Registers(), async.contents, clk.contents, made)
    }

    /** A new EEPROM is all ones. */
    constructor (size: nat, eecrMask: byte)
      ensures mask == eecrMask && fresh(stor) && stor.Length == size
      ensures forall i :: 0 <= i < size ==> stor[i] == 0xff
      ensures Valid() && fresh(async) && fresh(clk) && Linked(State()) && !eewe && !eemwe
    {
      stor := new byte[size](_ => 0xff);
      mask := eecrMask;
      eewe, eemwe, eedr, eearl, eearh := false, false, 0, 0, 0;
      wrCb, wrClk, mweCb, mweClk := false, 0, false, 0;
      made := 0;
      async := new DList.List<Callback>();
      clk := new DList.List<Callback>();
    }

    /** Write a register; false where the simulator stops. */
    method RegWrite(addr: nat, val: byte) returns (ok: bool)
      requires Valid()
      modifies this, async, clk, async.nodes, clk.nodes
      ensures Valid()
      ensures WriteReg(old(State()), mask, addr, val) == if ok then Running(State()) else Stopped
    {
      if eewe {
        return false;
      }
      match addr {
        case 0x3c => ok := WrEecr(val);
        case 0x3d => eedr := val; ok := true;
        case 0x3e => eearl := val; ok := true;
        case 0x3f => eearh := val; ok := true;
        case _ => ok := false;
      }
    }

    method WrEecr(val: byte) returns (ok: bool)
      requires Valid()
      modifies this, async, clk, async.nodes, clk.nodes
      ensures Valid()
      ensures WriteEecr(old(State()), mask, val) == if ok then Running(State()) else Stopped
    {
      var addr := eearh as int * 256 + eearl;
      match And(val, mask) {
        case 1 =>
          if addr >= stor.Length {
            return false;
          }
          eedr := stor[addr];
        case 2 => StartOp();
        case 4 => SetMaster();
        case 6 => StartOp();
        case _ => return false;
      }
      ok := true;
    }

    method SetMaster()
      requires Valid()
      modifies `eemwe, `mweClk, `mweCb, `made, clk, clk.nodes
      ensures Valid() && State() == EnableMaster(old(State()))
    {
      eemwe, mweClk := true, MWE_CLKS;
      if !mweCb {
        mweCb := true;
        Install(clk, async, Own(made));
        made := made + 1;
      }
    }

    method StartOp()
      requires Valid()
      modifies `eewe, `wrClk, `wrCb, `made, async, async.nodes
      ensures Valid() && State() == StartWrite(old(State()), mask)
    {
      if !HasMwe(mask) || eemwe {
        eewe, wrClk := true, WR_OP_CLKS;
        if !wrCb {
          wrCb := true;
          Install(async, clk, Own(made));
          made := made + 1;
        }
      }
    }

    /** The write callback; it asks for its removal when the write is done, and stops on a bad address. */
    method WrOpCb() returns (remove: bool, stopped: bool)
      modifies this, stor
      ensures (remove, (Registers(), stopped)) == WriteTick((old(Registers()), false))
      ensures made == old(made)
    {
      if wrClk > 0 {
        wrClk := wrClk - 1;
        return false, false;
      }
      var addr := eearh as int * 256 + eearl;
      if addr >= stor.Length {
        return true, true;
      }
      stor[addr] := eedr;
      eewe, wrCb := false, false;
      return true, false;
    }

    method MweClrCb() returns (remove: bool)
      modifies `eemwe, `mweCb, `mweClk
      ensures (remove, Registers()) == MasterTick(old(Registers()))
    {
      if mweClk > 0 {
        mweClk := mweClk - 1;
        return false;
      }
      eemwe, mweCb := false, false;
      remove := true;
    }
  }
}
