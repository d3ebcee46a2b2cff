/**
 Programming a byte of the EEPROM as its data sheet asks, from the first register write to the byte
 in memory and back into the data register, by the addresses and values a program uses.
 */
module EepromProgram {
  import opened Bytes
  import opened Bitwise
  import opened EepromRegisters
  import opened OwnCallback

  /** All three control bits are there. */
  predicate AllBits(mask: byte) {
    mask % 8 == 7
  }

  lemma MaskPasses(mask: byte)
    requires AllBits(mask)
    ensures And(1, mask) == 1 && And(2, mask) == 2 && And(4, mask) == 4 && HasMwe(mask)
  {
    var m1 := mask / 2;
    assert And(1, mask) == 1 + 2 * And(0, m1);
    assert And(4, mask) == 2 * And(2, m1);
    assert And(2, m1) == 2 * And(1, m1 / 2);
    assert And(1, m1 / 2) == 1 + 2 * And(0, m1 / 2 / 2);
    assert And(2, mask) == 2 * And(1, m1);
    assert And(1, m1) == 1 + 2 * And(0, m1 / 2);
  }

  lemma {:induction false} RunConcat(m: Machine, mask: byte, a: seq<Event>, b: seq<Event>)
    ensures var r := Run(m, mask, a);
            Run(m, mask, a + b) == if r.Running? then Run(r.m, mask, b) else Stopped
    decreases |b|
  {
    if b == [] {
      assert a + b == a;
    } else {
      var n := |b| - 1;
      RunConcat(m, mask, a, b[..n]);
      assert (a + b)[..|a + b| - 1] == a + b[..n];
    }
  }

  lemma RunOne(m: Machine, mask: byte, e: Event)
    ensures Run(m, mask, [e]) == Happen(m, mask, e)
  {
    assert [e][..0] == [];
    assert Run(m, mask, []) == Running(m);
  }

  // ----- the registers -----

  /** The two halves of the address, in either order. */
  function AddressWrites(l: byte, h: byte, lowFirst: bool): seq<Event> {
    if lowFirst then [Write(0x3e, l), Write(0x3f, h)] else [Write(0x3f, h), Write(0x3e, l)]
  }

  lemma RunTwo(m: Machine, mask: byte, e: Event, f: Event)
    ensures var r := Happen(m, mask, e); Run(m, mask, [e, f]) == if r.Running? then Happen(r.m, mask, f) else Stopped
  {
    assert [e, f] == [e] + [f];
    RunConcat(m, mask, [e], [f]);
    RunOne(m, mask, e);
    if Happen(m, mask, e).Running? {
      RunOne(Happen(m, mask, e).m, mask, f);
    }
  }

  /** m2 is m but for the address and data registers. */
  ghost predicate OnlyRegisters(m: Machine, m2: Machine) {
    m2 == m.(ee := m.ee.(eedr := m2.ee.eedr, eearl := m2.ee.eearl, eearh := m2.ee.eearh))
  }

  /** 0x3e takes the low byte of the address and 0x3f the high one. */
  lemma AddressWritten(m: Machine, mask: byte, l: byte, h: byte, lowFirst: bool)
    requires !m.ee.eewe
    ensures var r := Run(m, mask, AddressWrites(l, h, lowFirst));
            r.Running? && OnlyRegisters(m, r.m) && Address(r.m.ee) == 256 * h as int + l && r.m.ee.eedr == m.ee.eedr
  {
    if lowFirst {
      RunTwo(m, mask, Write(0x3e, l), Write(0x3f, h));
    } else {
      RunTwo(m, mask, Write(0x3f, h), Write(0x3e, l));
    }
  }

  /** 0x3d takes the data, and nothing else changes. */
  lemma DataWritten(m: Machine, mask: byte, v: byte)
    requires !m.ee.eewe
    ensures Happen(m, mask, Write(0x3d, v)) == EepromRegisters.Running(m.(ee := m.ee.(eedr := v)))
  {
  }

  /** 1 in 0x3c brings the addressed byte into the data register, and nothing else changes. */
  lemma ByteRead(m: Machine, mask: byte)
    requires !m.ee.eewe && AllBits(mask) && Address(m.ee) < |m.ee.mem|
    ensures Happen(m, mask, Write(0x3c, 1)) == EepromRegisters.Running(m.(ee := m.ee.(eedr := m.ee.mem[Address(m.ee)])))
  {
    MaskPasses(mask);
  }

  lemma ThreeBits(val: byte, mask: byte)
    requires val < 8 && AllBits(mask)
    ensures And(val, mask) == val
  {
    var v1, m1 := val / 2, mask / 2;
    var v2, m2 := v1 / 2, m1 / 2;
    AndDigit(val, mask);
    AndDigit(v1, m1);
    AndDigit(v2, m2);
    Division(And(val, mask), 2);
    Division(And(v1, m1), 2);
    assert And(v2 / 2, m2 / 2) == 0;
    Division(And(v2, m2), 2);
  }

  /** 6 in 0x3c is taken as 2; 0, 3, 5 and 7 stop the simulator, and so does any write while one is in progress. */
  lemma ControlValues(m: Machine, mask: byte, addr: nat, val: byte)
    requires AllBits(mask) && val < 8
    ensures m.ee.eewe ==> Happen(m, mask, Write(addr, val)) == Stopped
    ensures val == 0 || val == 3 || val == 5 || val == 7 ==> Happen(m, mask, Write(0x3c, val)) == Stopped
    ensures Happen(m, mask, Write(0x3c, 6)) == Happen(m, mask, Write(0x3c, 2))
  {
    ThreeBits(val, mask);
    ThreeBits(6, mask);
    ThreeBits(2, mask);
  }

  // ----- events other than register writes -----

  predicate Quiet(events: seq<Event>) {
    forall i :: 0 <= i < |events| ==> !events[i].Write?
  }

  /** What quiet events with so many asynchronous ticks leave of the memory and of a write in progress. */
  ghost predicate Waited(ee: Eeprom, ee': Eeprom, ticks: nat) {
    && Address(ee') == Address(ee) && ee'.eedr == ee.eedr
    && if !ee.eewe then ee'.mem == ee.mem && !ee'.eewe
       else if ticks <= ee.wrClk then ee'.mem == ee.mem && ee'.eewe && ee'.wrClk == ee.wrClk - ticks
       else Address(ee) < |ee.mem| && ee'.mem == ee.mem[Address(ee) := ee.eedr] && !ee'.eewe
  }

  lemma QuietEvent(m: Machine, mask: byte, e: Event)
    requires Linked(m) && !e.Write? && Address(m.ee) < |m.ee.mem|
    ensures var r := Happen(m, mask, e);
            r.Running? && Linked(r.m) && Waited(m.ee, r.m.ee, if e.AsyncTick? then 1 else 0)
  {
    if e.AsyncTick? {
      Runs(m.async, m.made, WriteTick, e.others, (m.ee, false));
    }
    HappensAs(m, mask, e);
    EventEffects(m, mask, e);
  }

  lemma {:induction false} QuietRun(m: Machine, mask: byte, events: seq<Event>)
    requires Linked(m) && Quiet(events) && Address(m.ee) < |m.ee.mem|
    ensures var r := Run(m, mask, events);
            r.Running? && Linked(r.m) && Waited(m.ee, r.m.ee, AsyncTicks(events))
    decreases |events|
  {
    if events != [] {
      var before := events[..|events| - 1];
      QuietRun(m, mask, before);
      QuietEvent(Run(m, mask, before).m, mask, events[|events| - 1]);
    }
  }

  // ----- the procedure -----

  /** 4 in 0x3c sets the master enable, for the fifth clock to clear. */
  lemma Enabled(m: Machine, mask: byte, between: seq<Event>)
    requires Linked(m) && AllBits(mask) && !m.ee.eewe && Quiet(between) && Address(m.ee) < |m.ee.mem|
    ensures var r := Run(m, mask, [Write(0x3c, 4)] + between);
            && r.Running? && Linked(r.m) && Waited(m.ee, r.m.ee, 0)
            && (r.m.ee.eemwe <==> ClockTicks(between) <= 4)
  {
    MaskPasses(mask);
    var enable := Write(0x3c, 4);
    var r := Happen(m, mask, enable);
    RunConcat(m, mask, [enable], between);
    RunOne(m, mask, enable);
    WriteKeepsLinked(m, mask, 0x3c, 4);
    QuietRun(r.m, mask, between);
    MasterFallsOnFifthClock(m, mask, enable, between);
  }

  /** 2 in 0x3c then starts the write, which the 2501st asynchronous tick completes. */
  lemma WrittenLater(m: Machine, mask: byte, later: seq<Event>)
    requires Linked(m) && AllBits(mask) && !m.ee.eewe && Quiet(later) && Address(m.ee) < |m.ee.mem|
    ensures var r := Run(m, mask, [Write(0x3c, 2)] + later);
            && r.Running? && Linked(r.m) && Address(r.m.ee) == Address(m.ee) && r.m.ee.eedr == m.ee.eedr
            && (r.m.ee.eewe <==> m.ee.eemwe && AsyncTicks(later) <= 2500)
            && r.m.ee.mem ==
               if m.ee.eemwe && AsyncTicks(later) > 2500 then m.ee.mem[Address(m.ee) := m.ee.eedr] else m.ee.mem
  {
    MaskPasses(mask);
    var start := Write(0x3c, 2);
    var r := Happen(m, mask, start);
    RunConcat(m, mask, [start], later);
    RunOne(m, mask, start);
    WriteKeepsLinked(m, mask, 0x3c, 2);
    QuietRun(r.m, mask, later);
  }

  /** The whole procedure, with other things happening before the write is started and after. */
  function Procedure(l: byte, h: byte, lowFirst: bool, v: byte, between: seq<Event>, later: seq<Event>): seq<Event> {
    AddressWrites(l, h, lowFirst) + [Write(0x3d, v)] + ([Write(0x3c, 4)] + between) + ([Write(0x3c, 2)] + later)
  }

  lemma Prepared(m: Machine, mask: byte, l: byte, h: byte, lowFirst: bool, v: byte)
    requires Linked(m) && !m.ee.eewe
    ensures var r := Run(m, mask, AddressWrites(l, h, lowFirst) + [Write(0x3d, v)]);
            && r.Running? && OnlyRegisters(m, r.m) && Linked(r.m) && Address(r.m.ee) == 256 * h as int + l && r.m.ee.eedr == v
  {
    AddressWritten(m, mask, l, h, lowFirst);
    var m1 := Run(m, mask, AddressWrites(l, h, lowFirst)).m;
    RunConcat(m, mask, AddressWrites(l, h, lowFirst), [Write(0x3d, v)]);
    RunOne(m1, mask, Write(0x3d, v));
    DataWritten(m1, mask, v);
  }

  /**
   The procedure stores exactly that byte at exactly that address, and does so exactly if at most four
   clocks pass before the write is started and more than 2500 asynchronous ticks after.
   */
  lemma ProcedureStores(m: Machine, mask: byte, l: byte, h: byte, lowFirst: bool, v: byte, between: seq<Event>, later: seq<Event>)
    requires Linked(m) && AllBits(mask) && !m.ee.eewe && Quiet(between) && Quiet(later)
    requires 256 * h as int + l < |m.ee.mem|
    ensures var r := Run(m, mask, Procedure(l, h, lowFirst, v, between, later));
            && r.Running? && Linked(r.m)
            && (r.m.ee.eewe <==> ClockTicks(between) <= 4 && AsyncTicks(later) <= 2500)
            && r.m.ee.mem == if ClockTicks(between) <= 4 && AsyncTicks(later) > 2500 then m.ee.mem[256 * h as int + l := v]
                             else m.ee.mem
  {
    var first := AddressWrites(l, h, lowFirst) + [Write(0x3d, v)];
    var second, third := [Write(0x3c, 4)] + between, [Write(0x3c, 2)] + later;
    Prepared(m, mask, l, h, lowFirst, v);
    var m1 := Run(m, mask, first).m;
    Enabled(m1, mask, between);
    var m2 := Run(m1, mask, second).m;
    WrittenLater(m2, mask, later);
    RunConcat(m, mask, first, second);
    RunConcat(m, mask, first + second, third);
  }

  /** Once it is stored, addressing it again and 1 in 0x3c bring the byte into the data register. */
  lemma ReadsBack(m: Machine, mask: byte, l: byte, h: byte, lowFirst: bool, v: byte, between: seq<Event>, later: seq<Event>,
                  again: bool)
    requires Linked(m) && AllBits(mask) && !m.ee.eewe && Quiet(between) && Quiet(later)
    requires 256 * h as int + l < |m.ee.mem| && ClockTicks(between) <= 4 && AsyncTicks(later) > 2500
    ensures var read := AddressWrites(l, h, again) + [Write(0x3c, 1)];
            var r := Run(m, mask, Procedure(l, h, lowFirst, v, between, later) + read);
            r.Running? && r.m.ee.eedr == v && r.m.ee.mem == m.ee.mem[256 * h as int + l := v]
  {
    var procedure := Procedure(l, h, lowFirst, v, between, later);
    var read := AddressWrites(l, h, again) + [Write(0x3c, 1)];
    ProcedureStores(m, mask, l, h, lowFirst, v, between, later);
    var m1 := Run(m, mask, procedure).m;
    RunConcat(m, mask, procedure, read);
    RunConcat(m1, mask, AddressWrites(l, h, again), [Write(0x3c, 1)]);
    AddressWritten(m1, mask, l, h, again);
    var m2 := Run(m1, mask, AddressWrites(l, h, again)).m;
    RunOne(m2, mask, Write(0x3c, 1));
    ByteRead(m2, mask);
  }
}
