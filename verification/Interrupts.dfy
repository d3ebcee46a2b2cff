/**
 Pending interrupts and the step of the simulator: execute an instruction unless asleep, let the
 callbacks raise interrupts, then take the first pending one that can be taken.
 */
module Interrupts {
  import opened Bitwise
  import opened Alu
  import opened Memory
  import opened Instructions
  import opened ProgramCounter
  import opened ListSpec
  import opened Wrappers

  /** An interrupt vector and the sleep modes it ends; only its address tells vectors apart. */
  datatype IntVect = IntVect(addr: int, canWake: nat)

  const RESET_ADDR := 0

  function Addr(): IntVect -> int {
    (v: IntVect) => v.addr
  }

  /** Asleep names the mode by its bit. Halted: the simulator stopped. */
  datatype Status = Running | Asleep(mode: nat) | Halted

  datatype Core = Core(cpu: Cpu, pending: seq<IntVect>, status: Status)

  /** What one executed instruction and its clock ticks did: any effect, or that of RETI; SLEEP sets a mode. */
  datatype Executed = Reti | Other(after: Cpu, sleep: Option<nat>)

  /** One step as the environment determines it. A machine that sleeps executes nothing. */
  datatype Input = Input(executed: Executed, raised: seq<IntVect>)

  /** What is observable of a step, in order of occurrence. */
  datatype Event =
    | Instruction(reti: bool)
    | Dozed
    | WasReset
    | Vectored(irq: IntVect, before: Cpu, after: Cpu)

  datatype Stepped = Stepped(core: Core, log: seq<Event>)

  /** Raising adds the vector at the end unless its address is pending already. */
  function Raise(pending: seq<IntVect>, irq: IntVect): seq<IntVect> {
    ListSpec.Add(pending, irq, Some(SameKey(Addr())))
  }

  function RaiseAll(pending: seq<IntVect>, irqs: seq<IntVect>): (queue: seq<IntVect>)
    decreases |irqs|
  {
    if irqs == [] then pending else RaiseAll(Raise(pending, irqs[0]), irqs[1..])
  }

  /** Any interrupt can be taken while awake, asleep only one that wakes from the mode. */
  predicate CanTake(status: Status, irq: IntVect) {
    status.Asleep? ==> And(status.mode, irq.canWake) != 0
  }

  /** The comparison that finds such an interrupt; what it is compared with does not matter. */
  function CmpPending(status: Status): (IntVect, IntVect) -> bool {
    (irq, probe) => CanTake(status, irq)
  }

  const PROBE := IntVect(0, 0)

  function PendingVector(pending: seq<IntVect>, status: Status): Option<IntVect> {
    ListSpec.Lookup(pending, PROBE, CmpPending(status))
  }

  function Clear(pending: seq<IntVect>, irq: IntVect): seq<IntVect> {
    ListSpec.Delete(pending, irq, SameKey(Addr()))
  }

  /** The reset of the core; whether it sleeps is not touched. */
  function Reset(dev: Device, m: Cpu): (m': Cpu)
    ensures Wf(dev, m) ==> Wf(dev, m')
  {
    ResetCells(dev, PcSet(dev, m, 0).(cks := 0), |dev.cells|)
  }

  /** A reset that can be taken is, and empties the queue. */
  function ResetIfAsked(dev: Device, c: Core, irq: IntVect): (out: Stepped)
    ensures Wf(dev, c.cpu) ==> Wf(dev, out.core.cpu)
  {
    if irq.addr == RESET_ADDR then Stepped(Core(Reset(dev, c.cpu), [], c.status), [WasReset])
    else Stepped(c, [])
  }

  /** With the I flag set the vector is entered and leaves the queue. */
  function VectorIfEnabled(dev: Device, irqOffset: int, c: Core, irq: IntVect): (out: Stepped)
    requires Wf(dev, c.cpu) && dev.pcSize < 4
    ensures Wf(dev, out.core.cpu)
  {
    if !c.cpu.sreg.i then Stepped(c, [])
    else
      var after := EnterInterrupt(dev, c.cpu, irq.addr + irqOffset);
      Stepped(Core(after, Clear(c.pending, irq), c.status), [Vectored(irq, c.cpu, after)])
  }

  /**
   If interrupts are pending, the first that can be taken is. If none of them can, as may be when
   asleep, the simulator follows the null pointer that the look-up gives, which is taken as stopping.
   */
  function CheckInterrupts(dev: Device, irqOffset: int, c: Core): (out: Stepped)
    requires Wf(dev, c.cpu) && dev.pcSize < 4
    ensures Wf(dev, out.core.cpu)
  {
    if c.pending == [] then Stepped(c, [])
    else
      match PendingVector(c.pending, c.status)
      case None => Stepped(c.(status := Halted), [])
      case Some(irq) =>
        var first := ResetIfAsked(dev, c, irq);
        var second := VectorIfEnabled(dev, irqOffset, first.core, irq);
        Stepped(second.core, first.log + second.log)
  }

  ghost predicate WfCore(dev: Device, c: Core) {
    Wf(dev, c.cpu) && dev.pcSize < 4
  }

  ghost predicate WfInput(dev: Device, input: Input) {
    input.executed.Other? ==> Wf(dev, input.executed.after)
  }

  function StatusAfter(sleep: Option<nat>): Status {
    match sleep
    case None => Running
    case Some(mode) => Asleep(mode)
  }

  /** After RETI pending interrupts wait for one more instruction. */
  function Step(dev: Device, irqOffset: int, c: Core, input: Input): (out: Stepped)
    requires WfCore(dev, c) && WfInput(dev, input)
    ensures WfCore(dev, out.core)
  {
    var pending := RaiseAll(c.pending, input.raised);
    match c.status
    case Halted => Stepped(c, [])
    case Asleep(_) =>
      var checked := CheckInterrupts(dev, irqOffset, c.(pending := pending));
      Stepped(checked.core, [Dozed] + checked.log)
    case Running =>
      match input.executed
      case Reti => Stepped(Core(ExecReti(dev, c.cpu), pending, Running), [Instruction(true)])
      case Other(after, sleep) =>
        var checked := CheckInterrupts(dev, irqOffset, Core(after, pending, StatusAfter(sleep)));
        Stepped(checked.core, [Instruction(false)] + checked.log)
  }

  ghost predicate WfInputs(dev: Device, inputs: seq<Input>) {
    forall i :: 0 <= i < |inputs| ==> WfInput(dev, inputs[i])
  }

  function Joined(first: Stepped, rest: Stepped): Stepped {
    Stepped(rest.core, first.log + rest.log)
  }

  ghost function Run(dev: Device, irqOffset: int, c: Core, inputs: seq<Input>): (out: Stepped)
    requires WfCore(dev, c) && WfInputs(dev, inputs)
    ensures WfCore(dev, out.core)
    decreases |inputs|
  {
    if inputs == [] then Stepped(c, [])
    else
      var first := Step(dev, irqOffset, c, inputs[0]);
      Joined(first, Run(dev, irqOffset, first.core, inputs[1..]))
  }

  // ----- which interrupt is taken -----

  /**
   Awake the head of the queue is taken. Asleep it is the first that wakes from the mode, those
   before it staying behind; if none does although some are pending, the simulator stops.
   */
  lemma {:induction false} PendingIsFirstWaking(pending: seq<IntVect>, status: Status) returns (at: nat)
    ensures at <= |pending|
    ensures forall i :: 0 <= i < at ==> status.Asleep? && And(status.mode, pending[i].canWake) == 0
    ensures at < |pending| ==> CanTake(status, pending[at]) && PendingVector(pending, status) == Some(pending[at])
    ensures at == |pending| <==> PendingVector(pending, status) == None
  {
    if pending == [] || CanTake(status, pending[0]) {
      at := 0;
    } else {
      var rest := PendingIsFirstWaking(pending[1..], status);
      at := rest + 1;
    }
  }

  /** The simulator stops in a step exactly if it is then asleep with interrupts pending, none of which wakes it. */
  lemma HaltsIff(dev: Device, irqOffset: int, c: Core)
    requires WfCore(dev, c) && c.status != Halted
    ensures CheckInterrupts(dev, irqOffset, c).core.status == Halted <==>
            c.status.Asleep? && c.pending != []
            && forall i :: 0 <= i < |c.pending| ==> And(c.status.mode, c.pending[i].canWake) == 0
  {
    var at := PendingIsFirstWaking(c.pending, c.status);
  }

  /** The status register is memory mapped, as on every device. */
  ghost predicate SregMapped(dev: Device) {
    Mapped(dev, SregCell, |dev.cells|)
  }

  lemma ClearByteHasNoFlag()
    ensures ByteSreg(0) == Sreg(false, false, false, false, false, false, false, false)
  {
    SregByteOfByte(0);
    var f := Sreg(false, false, false, false, false, false, false, false);
    assert SregByte(f) == 0;
    ByteOfSregByte(f);
  }

  lemma ResetClearsI(dev: Device, m: Cpu)
    requires SregMapped(dev)
    ensures !Reset(dev, m).sreg.i
  {
    ResetClearsMapped(dev, PcSet(dev, m, 0).(cks := 0), |dev.cells|);
    ClearByteHasNoFlag();
  }

  /**
   A pending reset is carried out, whatever the I flag, exactly if it is the interrupt whose turn it
   is; then nothing else is vectored to and nothing stays pending.
   */
  lemma ResetIffItsTurn(dev: Device, irqOffset: int, c: Core)
    requires WfCore(dev, c) && SregMapped(dev) && c.status.Running?
    ensures var out := CheckInterrupts(dev, irqOffset, c);
            var turn := c.pending != [] && c.pending[0].addr == RESET_ADDR;
            && (WasReset in out.log <==> turn)
            && (turn ==> out == Stepped(Core(Reset(dev, c.cpu), [], Running), [WasReset]))
  {
    ResetClearsI(dev, c.cpu);
    var at := PendingIsFirstWaking(c.pending, c.status);
  }

  /**
   The I flag does block a reset that waits behind another interrupt, although the source says that
   it never does.
   */
  lemma ResetWaits(dev: Device, irqOffset: int, m: Cpu)
    requires Wf(dev, m) && dev.pcSize < 4 && !m.sreg.i
    ensures var c := Core(m, [IntVect(5, 0), IntVect(RESET_ADDR, 0)], Running);
            CheckInterrupts(dev, irqOffset, c) == Stepped(c, [])
  {
  }

  // ----- safety of vectoring -----

  /**
   Whether an instruction other than RETI has been executed since the last RETI or vectoring, given
   whether it had been before the log.
   */
  function Opened(log: seq<Event>, open: bool): bool {
    if log == [] then open
    else Opened(log[1..], OpenedBy(log[0], open))
  }

  function OpenedBy(e: Event, open: bool): bool {
    match e
    case Instruction(reti) => !reti
    case Vectored(_, _, _) => false
    case _ => open
  }

  /** Vectoring happens with I set and clears it, after an instruction other than RETI. */
  ghost predicate Safe(log: seq<Event>, open: bool) {
    log != [] ==>
      && (log[0].Vectored? ==> open && log[0].before.sreg.i && !log[0].after.sreg.i)
      && Safe(log[1..], OpenedBy(log[0], open))
  }

  lemma {:induction false} SafeConcat(first: seq<Event>, rest: seq<Event>, open: bool)
    requires Safe(first, open) && Safe(rest, Opened(first, open))
    ensures Safe(first + rest, open)
    ensures Opened(first + rest, open) == Opened(rest, Opened(first, open))
  {
    if first == [] {
      assert first + rest == rest;
    } else {
      assert (first + rest)[1..] == first[1..] + rest;
      SafeConcat(first[1..], rest, OpenedBy(first[0], open));
    }
  }

  lemma SafeOne(e: Event, open: bool)
    requires e.Vectored? ==> open && e.before.sreg.i && !e.after.sreg.i
    ensures Safe([e], open) && Opened([e], open) == OpenedBy(e, open)
  {
    assert [e][1..] == [];
  }

  /** While no such instruction has been executed, one is about to be, or I is clear. */
  ghost predicate Ready(c: Core, open: bool) {
    open || !c.status.Asleep? || !c.cpu.sreg.i
  }

  /** The check logs one event at most, after which I is clear. */
  ghost predicate CheckShape(c: Core, out: Stepped) {
    && (out.core.status == c.status || out.core.status == Halted)
    && (|| (out.log == [] && out.core.cpu == c.cpu)
        || (out.log == [WasReset] && !out.core.cpu.sreg.i)
        || (|out.log| == 1 && out.log[0].Vectored? && out.log[0].before == c.cpu && out.log[0].after == out.core.cpu
            && c.cpu.sreg.i && !out.core.cpu.sreg.i))
  }

  lemma CheckHasShape(dev: Device, irqOffset: int, c: Core)
    requires WfCore(dev, c) && SregMapped(dev)
    ensures CheckShape(c, CheckInterrupts(dev, irqOffset, c))
  {
    ResetClearsI(dev, c.cpu);
  }

  lemma ShapeSafe(c: Core, out: Stepped, open: bool)
    requires CheckShape(c, out) && (open || !c.cpu.sreg.i)
    ensures Safe(out.log, open) && (Opened(out.log, open) || !out.core.cpu.sreg.i)
  {
    if |out.log| == 1 {
      SafeOne(out.log[0], open);
      assert out.log == [out.log[0]];
    }
  }

  lemma CheckSafe(dev: Device, irqOffset: int, c: Core, open: bool)
    requires WfCore(dev, c) && SregMapped(dev) && (open || !c.cpu.sreg.i)
    ensures var out := CheckInterrupts(dev, irqOffset, c);
            Safe(out.log, open) && (Opened(out.log, open) || !out.core.cpu.sreg.i)
  {
    CheckHasShape(dev, irqOffset, c);
    ShapeSafe(c, CheckInterrupts(dev, irqOffset, c), open);
  }

  lemma StepSafe(dev: Device, irqOffset: int, c: Core, input: Input, open: bool)
    requires WfCore(dev, c) && SregMapped(dev) && WfInput(dev, input) && Ready(c, open)
    ensures var out := Step(dev, irqOffset, c, input);
            Safe(out.log, open) && Ready(out.core, Opened(out.log, open))
  {
    var pending := RaiseAll(c.pending, input.raised);
    match c.status
    case Halted =>
    case Asleep(_) =>
      var c1 := c.(pending := pending);
      CheckSafe(dev, irqOffset, c1, open);
      SafeOne(Dozed, open);
      SafeConcat([Dozed], CheckInterrupts(dev, irqOffset, c1).log, open);
    case Running =>
      match input.executed
      case Reti =>
        SafeOne(Instruction(true), open);
      case Other(after, sleep) =>
        var c1 := Core(after, pending, StatusAfter(sleep));
        CheckSafe(dev, irqOffset, c1, true);
        SafeOne(Instruction(false), open);
        SafeConcat([Instruction(false)], CheckInterrupts(dev, irqOffset, c1).log, open);
  }

  /**
   In every run, with sleeping and resets, vectoring occurs only with I set and clears it, and after
   a RETI or another vectoring only once some other instruction has been executed.
   */
  lemma {:induction false} RunSafe(dev: Device, irqOffset: int, c: Core, inputs: seq<Input>, open: bool)
    requires WfCore(dev, c) && SregMapped(dev) && WfInputs(dev, inputs) && Ready(c, open)
    ensures Safe(Run(dev, irqOffset, c, inputs).log, open)
    decreases |inputs|
  {
    if inputs != [] {
      var first := Step(dev, irqOffset, c, inputs[0]);
      StepSafe(dev, irqOffset, c, inputs[0], open);
      RunSafe(dev, irqOffset, first.core, inputs[1..], Opened(first.log, open));
      SafeConcat(first.log, Run(dev, irqOffset, first.core, inputs[1..]).log, open);
    }
  }

  /** A vectoring in a safe log, with none executed before it, is preceded by such an instruction. */
  lemma {:induction false} InstructionBefore(log: seq<Event>, j: nat)
    requires Safe(log, false) && j < |log| && log[j].Vectored?
    ensures exists k :: 0 <= k < j && log[k] == Instruction(false)
    decreases |log|
  {
    if log[0] != Instruction(false) {
      assert log[j] == log[1..][j - 1];
      InstructionBefore(log[1..], j - 1);
      var k :| 0 <= k < j - 1 && log[1..][k] == Instruction(false);
      assert log[k + 1] == Instruction(false);
    }
  }

  lemma {:induction false} SafeFrom(log: seq<Event>, i: nat, open: bool)
    requires Safe(log, open) && i < |log|
    ensures Safe(log[i + 1..], OpenedBy(log[i], Opened(log[..i], open)))
    ensures log[i].Vectored? ==> log[i].before.sreg.i && !log[i].after.sreg.i
    decreases i
  {
    if i == 0 {
      assert log[..0] == [];
    } else {
      SafeFrom(log[1..], i - 1, OpenedBy(log[0], open));
      assert log[1..][i..] == log[i + 1..];
      assert log[..i][1..] == log[1..][..i - 1];
    }
  }

  lemma InstructionBetween(log: seq<Event>, i: nat, j: nat, open: bool)
    requires Safe(log, open) && i < j < |log|
    requires log[j].Vectored? && (log[i] == Instruction(true) || log[i].Vectored?)
    ensures log[j].before.sreg.i && !log[j].after.sreg.i
    ensures exists k :: i < k < j && log[k] == Instruction(false)
  {
    SafeFrom(log, i, open);
    SafeFrom(log, j, open);
    assert log[j] == log[i + 1..][j - i - 1];
    InstructionBefore(log[i + 1..], j - i - 1);
    var k :| 0 <= k < j - i - 1 && log[i + 1..][k] == Instruction(false);
    assert log[i + 1 + k] == Instruction(false);
  }

  // ----- where control goes -----

  lemma EnteredAt(dev: Device, m: Cpu, vector: int)
    requires Wf(dev, m) && dev.pcSize < 4
    ensures var m' := EnterInterrupt(dev, m, vector);
            && m'.pc == AdjustToMax(vector, dev.pcMax) && !m'.sreg.i
            && (PlainStack(dev, m.sp, dev.pcSize) ==>
                  m' == m.(pc := m'.pc, sp := m'.sp, ram := m'.ram, sreg := m.sreg.(i := false))
                  && PushedOn(m, m', dev.pcSize, m.pc % 0x1_0000_0000))
  {
    if PlainStack(dev, m.sp, dev.pcSize) {
      PushStores(dev, m, dev.pcSize, m.pc % 0x1_0000_0000);
    }
  }

  /**
   Awake with I set, the interrupt at the head of the queue is entered: control goes to its address,
   moved by the offset of the vector table; I is clear; the bytes of the interrupted address are on
   the stack, the lowest first; and the others stay pending.
   */
  lemma VectoringGoes(dev: Device, irqOffset: int, c: Core)
    requires WfCore(dev, c) && c.status.Running? && NoneTwice(c.pending)
    requires c.cpu.sreg.i && c.pending != [] && c.pending[0].addr != 0
    ensures var out, m := CheckInterrupts(dev, irqOffset, c).core, c.cpu;
            var vector := c.pending[0].addr + irqOffset;
            && out.pending == c.pending[1..] && out.status.Running?
            && out.cpu.pc == AdjustToMax(vector, dev.pcMax) && (0 <= vector < dev.pcMax ==> out.cpu.pc == vector)
            && !out.cpu.sreg.i
            && (PlainStack(dev, m.sp, dev.pcSize) ==>
                  out.cpu == m.(pc := out.cpu.pc, sp := out.cpu.sp, ram := out.cpu.ram, sreg := m.sreg.(i := false))
                  && PushedOn(m, out.cpu, dev.pcSize, m.pc % 0x1_0000_0000))
  {
    ClearHead(c.pending);
    EnteredAt(dev, c.cpu, c.pending[0].addr + irqOffset);
  }

  /** With I clear, an interrupt at the head other than a reset changes nothing. */
  lemma DisabledWaits(dev: Device, irqOffset: int, c: Core)
    requires WfCore(dev, c) && c.status.Running? && !c.cpu.sreg.i && c.pending != [] && c.pending[0].addr != 0
    ensures CheckInterrupts(dev, irqOffset, c) == Stepped(c, [])
  {
  }

  /** A reset at the head leads to address 0 with the registers, the flags and the stack pointer zero. */
  lemma ResetGoes(dev: Device, irqOffset: int, c: Core)
    requires WfCore(dev, c) && dev.pcMax > 0 && c.status.Running? && c.pending != [] && c.pending[0].addr == 0
    requires forall kind | kind == GpwrCell || kind == SregCell || kind == SplCell || kind == RampzCell ::
               Mapped(dev, kind, |dev.cells|)
    ensures var out := CheckInterrupts(dev, irqOffset, c).core;
            out == Core(Cpu(seq(32, _ => 0), Sreg(false, false, false, false, false, false, false, false), 0, 0, 0, c.cpu.ram, 0),
                        [], Running)
  {
    ResetIffItsTurn(dev, irqOffset, c);
    ResetClearsMapped(dev, PcSet(dev, c.cpu, 0).(cks := 0), |dev.cells|);
    ClearByteHasNoFlag();
  }

  // ----- sleeping -----

  /** How often the log vectors. */
  function Vectorings(log: seq<Event>): nat {
    if log == [] then 0 else (if log[0].Vectored? then 1 else 0) + Vectorings(log[1..])
  }

  lemma {:induction false} VectoringsConcat(first: seq<Event>, rest: seq<Event>)
    ensures Vectorings(first + rest) == Vectorings(first) + Vectorings(rest)
  {
    if first == [] {
      assert first + rest == rest;
    } else {
      assert (first + rest)[1..] == first[1..] + rest;
      VectoringsConcat(first[1..], rest);
    }
  }

  ghost predicate NoInstruction(log: seq<Event>) {
    forall j :: 0 <= j < |log| ==> !log[j].Instruction?
  }

  /** An upper bound on what is still to be vectored to while asleep. */
  function Enabled(m: Cpu): nat {
    if m.sreg.i then 1 else 0
  }

  lemma VectoringsOne(e: Event)
    ensures Vectorings([e]) == if e.Vectored? then 1 else 0
  {
    assert [e][1..] == [];
  }

  /** No instruction is executed, the machine stays asleep or stops, and vectoring uses up the I flag. */
  ghost predicate Slept(c: Core, out: Stepped) {
    && NoInstruction(out.log)
    && (out.core.status == c.status || out.core.status == Halted)
    && Vectorings(out.log) + Enabled(out.core.cpu) <= Enabled(c.cpu)
  }

  lemma ShapeSlept(c: Core, out: Stepped)
    requires CheckShape(c, out)
    ensures Slept(c, out) && Slept(c, Stepped(out.core, [Dozed] + out.log))
  {
    if |out.log| == 1 {
      VectoringsOne(out.log[0]);
      assert out.log == [out.log[0]];
    }
    VectoringsOne(Dozed);
    VectoringsConcat([Dozed], out.log);
  }

  lemma AsleepStep(dev: Device, irqOffset: int, c: Core, input: Input)
    requires WfCore(dev, c) && SregMapped(dev) && WfInput(dev, input) && !c.status.Running?
    ensures Slept(c, Step(dev, irqOffset, c, input))
  {
    if c.status.Asleep? {
      var c1 := c.(pending := RaiseAll(c.pending, input.raised));
      CheckHasShape(dev, irqOffset, c1);
      ShapeSlept(c1, CheckInterrupts(dev, irqOffset, c1));
    }
  }

  lemma SleptOn(c: Core, first: Stepped, rest: Stepped)
    requires Slept(c, first) && Slept(first.core, rest)
    ensures Slept(c, Joined(first, rest))
  {
    VectoringsConcat(first.log, rest.log);
  }

  /**
   Taking an interrupt does not wake the machine: once asleep it never executes another instruction,
   and it vectors at most once more, and only if I was set.
   */
  lemma {:induction false} SleepsForever(dev: Device, irqOffset: int, c: Core, inputs: seq<Input>)
    requires WfCore(dev, c) && SregMapped(dev) && WfInputs(dev, inputs) && !c.status.Running?
    ensures Slept(c, Run(dev, irqOffset, c, inputs))
    decreases |inputs|
  {
    if inputs != [] {
      var first := Step(dev, irqOffset, c, inputs[0]);
      AsleepStep(dev, irqOffset, c, inputs[0]);
      SleepsForever(dev, irqOffset, first.core, inputs[1..]);
      SleptOn(c, first, Run(dev, irqOffset, first.core, inputs[1..]));
    }
  }

  // ----- the order of service -----

  /** No vector address is pending twice. */
  ghost predicate NoneTwice(pending: seq<IntVect>) {
    UniqueKeys(pending, Addr())
  }

  /** The interrupts vectored to, in order. */
  function Served(log: seq<Event>): seq<IntVect> {
    if log == [] then []
    else (if log[0].Vectored? then [log[0].irq] else []) + Served(log[1..])
  }

  lemma {:induction false} ServedConcat(first: seq<Event>, rest: seq<Event>)
    ensures Served(first + rest) == Served(first) + Served(rest)
  {
    if first == [] {
      assert first + rest == rest;
    } else {
      assert (first + rest)[1..] == first[1..] + rest;
      ServedConcat(first[1..], rest);
      var head := if first[0].Vectored? then [first[0].irq] else [];
      assert (first + rest)[0] == first[0];
      assert head + (Served(first[1..]) + Served(rest)) == (head + Served(first[1..])) + Served(rest);
    }
  }

  /** Raising keeps what is pending at its place in the queue. */
  lemma {:induction false} RaiseAllKeeps(pending: seq<IntVect>, irqs: seq<IntVect>)
    requires NoneTwice(pending)
    ensures NoneTwice(RaiseAll(pending, irqs))
    ensures pending <= RaiseAll(pending, irqs)
    ensures forall v :: v in RaiseAll(pending, irqs) ==> v in pending || v in irqs
    decreases |irqs|
  {
    if irqs != [] {
      AddKeepsUnique(pending, irqs[0], Addr());
      RaiseAllKeeps(Raise(pending, irqs[0]), irqs[1..]);
    }
  }

  /** Raised interrupts with new addresses queue up behind what is pending, in the order of their raising. */
  lemma {:induction false} RaisedInOrder(pending: seq<IntVect>, irqs: seq<IntVect>)
    requires NoneTwice(pending + irqs)
    ensures RaiseAll(pending, irqs) == pending + irqs
    decreases |irqs|
  {
    if irqs == [] {
      assert pending + irqs == pending;
    } else {
      var all := pending + irqs;
      assert all[|pending|] == irqs[0];
      assert forall i :: 0 <= i < |pending| ==> all[i] == pending[i];
      assert Raise(pending, irqs[0]) == pending + [irqs[0]];
      assert (pending + [irqs[0]]) + irqs[1..] == all;
      RaisedInOrder(pending + [irqs[0]], irqs[1..]);
    }
  }

  /** Every raised address is pending afterwards. */
  lemma {:induction false} RaiseAllRaises(pending: seq<IntVect>, irqs: seq<IntVect>, v: IntVect)
    requires v in irqs || exists w :: w in pending && w.addr == v.addr
    ensures exists w :: w in RaiseAll(pending, irqs) && w.addr == v.addr
    decreases |irqs|
  {
    if irqs != [] {
      var next := Raise(pending, irqs[0]);
      if v == irqs[0] {
        assert exists w :: w in next && w.addr == v.addr by {
          if next == pending {
            var i :| 0 <= i < |pending| && SameKey(Addr())(pending[i], v);
            assert pending[i] in next;
          } else {
            assert next[|pending|] == v;
          }
        }
      } else if v in irqs {
        assert irqs == [irqs[0]] + irqs[1..];
      } else {
        var w :| w in pending && w.addr == v.addr;
        assert w in next;
      }
      RaiseAllRaises(next, irqs[1..], v);
    }
  }

  lemma ClearHead(pending: seq<IntVect>)
    requires pending != [] && NoneTwice(pending)
    ensures Clear(pending, pending[0]) == pending[1..] && NoneTwice(pending[1..])
  {
  }

  /** No instruction puts the machine to sleep. */
  ghost predicate StaysAwake(inputs: seq<Input>) {
    forall i :: 0 <= i < |inputs| ==> (inputs[i].executed.Other? ==> inputs[i].executed.sleep == None)
  }

  /** The head of the queue is served, or nothing is. */
  ghost predicate HeadServed(queue: seq<IntVect>, served: seq<IntVect>, later: seq<IntVect>) {
    || (served == [] && later == queue)
    || (queue != [] && served == [queue[0]] && later == queue[1..])
  }

  lemma ServedOne(e: Event)
    ensures Served([e]) == if e.Vectored? then [e.irq] else []
  {
    assert [e][1..] == [];
  }

  lemma CheckServesHead(dev: Device, irqOffset: int, c: Core)
    requires WfCore(dev, c) && NoneTwice(c.pending) && c.status.Running?
    ensures var out := CheckInterrupts(dev, irqOffset, c);
            && out.core.status.Running?
            && (WasReset !in out.log ==> HeadServed(c.pending, Served(out.log), out.core.pending))
  {
    if c.pending != [] {
      ClearHead(c.pending);
      var log := CheckInterrupts(dev, irqOffset, c).log;
      if |log| == 1 {
        ServedOne(log[0]);
        assert log == [log[0]];
      } else if log != [] {
        assert log[0] == WasReset;
      }
    }
  }

  /** The effect of one step of a machine that stays awake on the queue. */
  lemma StepServesHead(dev: Device, irqOffset: int, c: Core, input: Input)
    requires WfCore(dev, c) && WfInput(dev, input) && NoneTwice(c.pending)
    requires c.status.Running? && StaysAwake([input])
    ensures var out := Step(dev, irqOffset, c, input);
            && out.core.status.Running?
            && (WasReset !in out.log ==>
                  HeadServed(RaiseAll(c.pending, input.raised), Served(out.log), out.core.pending))
  {
    assert [input][0] == input;
    var queue := RaiseAll(c.pending, input.raised);
    RaiseAllKeeps(c.pending, input.raised);
    match input.executed
    case Reti =>
      ServedOne(Instruction(true));
    case Other(after, _) =>
      var c1 := Core(after, queue, Running);
      CheckServesHead(dev, irqOffset, c1);
      ServedOne(Instruction(false));
      var log := CheckInterrupts(dev, irqOffset, c1).log;
      ServedConcat([Instruction(false)], log);
      assert forall e :: e in log ==> e in [Instruction(false)] + log;
  }

  /** The interrupt at place p of queue is the p-th served, or has moved up by the number served. */
  ghost predicate InOrder(queue: seq<IntVect>, served: seq<IntVect>, later: seq<IntVect>, p: nat)
    requires p < |queue|
  {
    if p < |served| then served[p] == queue[p]
    else p - |served| < |later| && later[p - |served|] == queue[p]
  }

  /** Serving none or the head first, and then in order. */
  lemma InOrderAfter(queue: seq<IntVect>, head: seq<IntVect>, next: seq<IntVect>, served: seq<IntVect>, later: seq<IntVect>, p: nat)
    requires p < |queue|
    requires (head == [] && next == queue) || (head == [queue[0]] && next == queue[1..])
    requires |head| <= p ==> InOrder(next, served, later, p - |head|)
    ensures InOrder(queue, head + served, later, p)
  {
  }

  /** The order is kept from pending on, unless there was a reset. */
  ghost predicate Ordered(pending: seq<IntVect>, out: Stepped, p: nat) {
    p < |pending| && WasReset !in out.log ==> InOrder(pending, Served(out.log), out.core.pending, p)
  }

  lemma OrderComposes(pending: seq<IntVect>, queue: seq<IntVect>, first: Stepped, rest: Stepped, p: nat)
    requires pending <= queue && p < |pending|
    requires WasReset !in first.log ==> HeadServed(queue, Served(first.log), first.core.pending)
    requires |Served(first.log)| <= p ==> Ordered(first.core.pending, rest, p - |Served(first.log)|)
    ensures Ordered(pending, Joined(first, rest), p)
  {
    if WasReset !in first.log + rest.log {
      assert forall e :: e in first.log ==> e in first.log + rest.log;
      assert forall e :: e in rest.log ==> e in first.log + rest.log;
      ServedConcat(first.log, rest.log);
      InOrderAfter(queue, Served(first.log), first.core.pending, Served(rest.log), rest.core.pending, p);
    }
  }

  lemma CheckKeepsNoneTwice(dev: Device, irqOffset: int, c: Core)
    requires WfCore(dev, c) && NoneTwice(c.pending)
    ensures NoneTwice(CheckInterrupts(dev, irqOffset, c).core.pending)
  {
    var found := PendingVector(c.pending, c.status);
    if found.Some? {
      DeleteKeepsUnique(c.pending, found.value, Addr());
      assert Clear([], found.value) == [];
    }
  }

  lemma StepKeepsNoneTwice(dev: Device, irqOffset: int, c: Core, input: Input)
    requires WfCore(dev, c) && WfInput(dev, input) && NoneTwice(c.pending)
    ensures NoneTwice(Step(dev, irqOffset, c, input).core.pending)
  {
    var queue := RaiseAll(c.pending, input.raised);
    RaiseAllKeeps(c.pending, input.raised);
    match input.executed
    case Reti => CheckKeepsNoneTwice(dev, irqOffset, c.(pending := queue));
    case Other(after, sleep) =>
      CheckKeepsNoneTwice(dev, irqOffset, c.(pending := queue));
      CheckKeepsNoneTwice(dev, irqOffset, Core(after, queue, StatusAfter(sleep)));
  }

  /** In every run, with sleeping and resets, no vector address is ever pending twice. */
  lemma {:induction false} NoneTwiceKept(dev: Device, irqOffset: int, c: Core, inputs: seq<Input>)
    requires WfCore(dev, c) && WfInputs(dev, inputs)
    requires NoneTwice(c.pending)
    ensures NoneTwice(Run(dev, irqOffset, c, inputs).core.pending)
    decreases |inputs|
  {
    if inputs != [] {
      StepKeepsNoneTwice(dev, irqOffset, c, inputs[0]);
      NoneTwiceKept(dev, irqOffset, Step(dev, irqOffset, c, inputs[0]).core, inputs[1..]);
    }
  }

  /** One step of a run: the queue it found and what it did. */
  datatype Turn = Turn(queue: seq<IntVect>, out: Stepped)

  /** Each turn finds what was pending at the front of its queue, and serves the head or nothing unless it is a reset. */
  ghost predicate InTurn(pending: seq<IntVect>, turns: seq<Turn>)
    decreases |turns|
  {
    turns == [] ||
    (var first := turns[0].out;
     && pending <= turns[0].queue
     && (WasReset !in first.log ==> HeadServed(turns[0].queue, Served(first.log), first.core.pending))
     && InTurn(first.core.pending, turns[1..]))
  }

  function Total(c: Core, turns: seq<Turn>): Stepped
    decreases |turns|
  {
    if turns == [] then Stepped(c, []) else Joined(turns[0].out, Total(turns[0].out.core, turns[1..]))
  }

  lemma {:induction false} TurnsKeepOrder(c: Core, turns: seq<Turn>, p: nat)
    requires InTurn(c.pending, turns) && p < |c.pending|
    ensures Ordered(c.pending, Total(c, turns), p)
    decreases |turns|
  {
    if turns != [] {
      var first := turns[0].out;
      var rest, q := Total(first.core, turns[1..]), p - |Served(first.log)|;
      if 0 <= q < |first.core.pending| {
        TurnsKeepOrder(first.core, turns[1..], q);
      }
      OrderComposes(c.pending, turns[0].queue, first, rest, p);
    }
  }

  lemma FirstTurn(dev: Device, irqOffset: int, c: Core, input: Input) returns (t: Turn)
    requires WfCore(dev, c) && WfInput(dev, input) && c.status.Running? && StaysAwake([input]) && NoneTwice(c.pending)
    ensures t.out == Step(dev, irqOffset, c, input) && t.out.core.status.Running? && NoneTwice(t.out.core.pending)
    ensures InTurn(c.pending, [t])
  {
    t := Turn(RaiseAll(c.pending, input.raised), Step(dev, irqOffset, c, input));
    RaiseAllKeeps(c.pending, input.raised);
    StepServesHead(dev, irqOffset, c, input);
    StepKeepsNoneTwice(dev, irqOffset, c, input);
  }

  lemma {:induction false} Turns(dev: Device, irqOffset: int, c: Core, inputs: seq<Input>) returns (turns: seq<Turn>)
    requires WfCore(dev, c) && WfInputs(dev, inputs)
    requires c.status.Running? && StaysAwake(inputs) && NoneTwice(c.pending)
    ensures Total(c, turns) == Run(dev, irqOffset, c, inputs) && InTurn(c.pending, turns)
    decreases |inputs|
  {
    if inputs == [] {
      turns := [];
    } else {
      var t := FirstTurn(dev, irqOffset, c, inputs[0]);
      var rest := Turns(dev, irqOffset, t.out.core, inputs[1..]);
      turns := [t] + rest;
      assert turns[1..] == rest && [t][1..] == [];
    }
  }

  /**
   First come, first served while the machine stays awake and is not reset: an interrupt with p others
   ahead of it is vectored to at exactly the (p + 1)-th vectoring, whatever is raised in the meantime;
   until then it stays pending, one place nearer the front for each vectoring.
   */
  lemma ServedInOrder(dev: Device, irqOffset: int, c: Core, inputs: seq<Input>, p: nat)
    requires WfCore(dev, c) && WfInputs(dev, inputs)
    requires c.status.Running? && StaysAwake(inputs)
    requires NoneTwice(c.pending) && p < |c.pending|
    ensures Ordered(c.pending, Run(dev, irqOffset, c, inputs), p)
  {
    var turns := Turns(dev, irqOffset, c, inputs);
    TurnsKeepOrder(c, turns, p);
  }
}
