/**
 What each modelled instruction does to the machine state.
 */
module Instructions {
  import opened Bytes
  import opened Alu
  import opened Memory
  import opened ProgramCounter

  function PcSet(dev: Device, m: Cpu, val: int): Cpu {
    m.(pc := AdjustToMax(val, dev.pcMax))
  }

  function PcIncr(dev: Device, m: Cpu, val: int): Cpu {
    PcSet(dev, m, m.pc + val)
  }

  // ----- arithmetic -----

  datatype ArithOp = AddOp | AdcOp | SubOp | SbcOp

  function Compute(op: ArithOp, rd: byte, rr: byte, f: Sreg): AluOut {
    match op
    case AddOp => Add(rd, rr, f)
    case AdcOp => Adc(rd, rr, f)
    case SubOp => Sub(rd, rr, f)
    case SbcOp => Sbc(rd, rr, f)
  }

  function ExecArith(dev: Device, m: Cpu, op: ArithOp, d: nat, r: nat): (m': Cpu)
    requires Wf(dev, m) && d < 32 && r < 32
    ensures Wf(dev, m')
  {
    var out := Compute(op, m.regs[d], m.regs[r], m.sreg);
    PcIncr(dev, m.(regs := m.regs[d := out.res], sreg := out.sreg, cks := 1), 1)
  }

  datatype CompareOp = CpOp | CpcOp

  function ExecCompare(dev: Device, m: Cpu, op: CompareOp, d: nat, r: nat): (m': Cpu)
    requires Wf(dev, m) && d < 32 && r < 32
    ensures Wf(dev, m')
  {
    var f := if op == CpOp then Cp(m.regs[d], m.regs[r], m.sreg) else Cpc(m.regs[d], m.regs[r], m.sreg);
    PcIncr(dev, m.(sreg := f, cks := 1), 1)
  }

  function ExecMul(dev: Device, m: Cpu, d: nat, r: nat): (m': Cpu)
    requires Wf(dev, m) && d < 32 && r < 32
    ensures Wf(dev, m')
  {
    var out := Mul(m.regs[d], m.regs[r], m.sreg);
    PcIncr(dev, m.(regs := m.regs[1 := out.r1][0 := out.r0], sreg := out.sreg, cks := 2), 1)
  }

  function ExecMov(dev: Device, m: Cpu, d: nat, r: nat): (m': Cpu)
    requires Wf(dev, m) && d < 32 && r < 32
    ensures Wf(dev, m')
  {
    PcIncr(dev, m.(regs := m.regs[d := m.regs[r]], cks := 1), 1)
  }

  // ----- branches -----

  /** BRBS branches when the flag is set, BRBC when it is clear. */
  function ExecBranch(dev: Device, m: Cpu, whenSet: bool, bit: nat, k: int): (m': Cpu)
    requires Wf(dev, m) && bit < 8
    ensures Wf(dev, m')
  {
    if Flag(m.sreg, bit) == whenSet then PcIncr(dev, m.(cks := 2), k + 1) else PcIncr(dev, m.(cks := 1), 1)
  }

  // ----- calls -----

  datatype CallKind =
    | Rcall(k: int)     // relative, one word
    | Icall             // through Z, one word
    | Call(target: nat) // absolute, two words

  function CallLength(kind: CallKind): nat {
    if kind.Call? then 2 else 1
  }

  function ZRegister(m: Cpu): word
    requires |m.regs| == 32
  {
    var high: int := m.regs[31];
    high * 256 + m.regs[30]
  }

  /** The address control goes to, before it is wrapped into flash. */
  function CallTarget(m: Cpu, kind: CallKind): int
    requires |m.regs| == 32
  {
    match kind
    case Rcall(k) => m.pc + k + 1
    case Icall => ZRegister(m)
    case Call(target) => target
  }

  /** The simulator refuses a CALL target above 0xffff on a device with a two-byte counter. */
  predicate CallAccepted(dev: Device, kind: CallKind) {
    kind.Call? ==> !(dev.pcSize == 2 && kind.target > 0xffff)
  }

  /** The conversion of a program counter to the 32-bit unsigned value that is pushed. */
  function ToUint32(x: int): nat {
    x % 0x1_0000_0000
  }

  /** Z is read before the return address is pushed, since the push may reach the register file. */
  function ExecCall(dev: Device, m: Cpu, kind: CallKind): (m': Cpu)
    requires Wf(dev, m) && dev.pcSize < 4 && CallAccepted(dev, kind)
    ensures Wf(dev, m')
  {
    var cks := if kind.Call? then dev.pcSize + 2 else dev.pcSize + 1;
    PcSet(dev, Push(dev, m, dev.pcSize, ToUint32(m.pc + CallLength(kind))).(cks := cks), CallTarget(m, kind))
  }

  // ----- jumps -----

  datatype JumpKind =
    | Rjmp(k: int)     // relative, one word
    | Ijmp             // through Z, one word
    | Jmp(target: nat) // absolute, two words

  function ExecJump(dev: Device, m: Cpu, kind: JumpKind): (m': Cpu)
    requires Wf(dev, m)
    ensures Wf(dev, m')
  {
    match kind
    case Rjmp(k) => PcIncr(dev, m.(cks := 2), k + 1)
    case Ijmp => PcSet(dev, m.(cks := 2), ZRegister(m))
    case Jmp(target) => PcSet(dev, m.(cks := 3), target)
  }

  // ----- returns -----

  function ExecRet(dev: Device, m: Cpu): (m': Cpu)
    requires Wf(dev, m) && dev.pcSize < 4
    ensures Wf(dev, m')
  {
    PcSet(dev, Popped(m, dev.pcSize).(cks := dev.pcSize + 2), PopValue(dev, m, dev.pcSize))
  }

  /** RET that also enables interrupts. */
  function ExecReti(dev: Device, m: Cpu): (m': Cpu)
    requires Wf(dev, m) && dev.pcSize < 4
    ensures Wf(dev, m')
  {
    var m' := ExecRet(dev, m);
    m'.(sreg := m'.sreg.(i := true))
  }

  function ExecPush(dev: Device, m: Cpu, d: nat): (m': Cpu)
    requires Wf(dev, m) && d < 32
    ensures Wf(dev, m')
  {
    PcIncr(dev, Push(dev, m, 1, m.regs[d]).(cks := 2), 1)
  }

  lemma PopOneIsByte(dev: Device, m: Cpu)
    requires Wf(dev, m)
    ensures PopValue(dev, m, 1) == Read(dev, m, Up(m.sp))
  {
    assert PopFrom(dev, m, Up(m.sp), 0) == 0;
    assert Pow256(0) == 1;
  }

  /** The popped byte goes to the register after the stack pointer has moved. */
  function ExecPop(dev: Device, m: Cpu, d: nat): (m': Cpu)
    requires Wf(dev, m) && d < 32
    ensures Wf(dev, m')
  {
    PopOneIsByte(dev, m);
    var b: byte := PopValue(dev, m, 1);
    PcIncr(dev, Popped(m, 1).(regs := m.regs[d := b], cks := 2), 1)
  }

  // ----- interrupts -----

  /** Vectoring: the program counter is pushed, the I flag cleared, and control goes to the vector. */
  function EnterInterrupt(dev: Device, m: Cpu, vector: int): (m': Cpu)
    requires Wf(dev, m) && dev.pcSize < 4
    ensures Wf(dev, m')
  {
    var pushed := Push(dev, m, dev.pcSize, ToUint32(m.pc));
    PcSet(dev, pushed.(sreg := pushed.sreg.(i := false)), vector)
  }
}
