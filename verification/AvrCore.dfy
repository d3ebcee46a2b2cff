/**
 The machine in the simulator's own form: registers, memory cells, stack and instruction handlers
 that update them in place. Each method is tied to the function that specifies it.
 */
module AvrCore {
  import opened Bytes
  import opened Bitwise
  import opened Alu
  import opened Memory
  import opened ProgramCounter
  import opened Instructions
  import Interrupts
  import ListSpec
  import opened DList
  import opened Wrappers

  class Core {
    const dev: Device
    const gpwr: array<byte>
    const sram: array<byte>
    var sreg: Sreg
    var pc: int
    var sp: word
    var rampz: byte
    var instCks: nat
    const irqPending: List<Interrupts.IntVect>
    var status: Interrupts.Status

    ghost function State(): Cpu
      reads this, gpwr, sram
    {
      Cpu(gpwr[..], sreg, pc, sp, rampz, sram[..], instCks)
    }

    ghost predicate Valid()
      reads this, gpwr, sram
    {
      gpwr != sram && Wf(dev, State())
    }

    /** The machine and its queue as the step machine sees them. */
    ghost function Queued(): Interrupts.Core
      reads this, gpwr, sram, irqPending
    {
      Interrupts.Core(State(), irqPending.contents, status)
    }

    constructor (dev: Device)
      requires forall a :: 0 <= a < |dev.cells| && dev.cells[a].kind == GpwrCell ==> a < 32
      ensures Valid() && fresh(gpwr) && fresh(sram) && this.dev == dev && pc == 0
      ensures irqPending.Valid() && fresh(irqPending) && irqPending.contents == []
    {
      this.dev := dev;
      gpwr := new byte[32](_ => 0);
      sram := new byte[|dev.cells|](_ => 0);
      sreg := ByteSreg(0);
      pc, sp, rampz, instCks, status := 0, 0, 0, 0, Interrupts.Running;
      irqPending := new List<Interrupts.IntVect>();
    }

    // ----- program counter -----

    method PcSet(val: int)
      modifies `pc
      ensures pc == AdjustToMax(val, dev.pcMax)
    {
      pc := val;
      AdjustPcToMax();
    }

    method PcIncr(val: int)
      modifies `pc
      ensures pc == AdjustToMax(old(pc) + val, dev.pcMax)
    {
      pc := pc + val;
      AdjustPcToMax();
    }

    method AdjustPcToMax()
      modifies `pc
      ensures pc == AdjustToMax(old(pc), dev.pcMax)
    {
      if pc < 0 {
        pc := dev.pcMax + pc;
      }
      if pc >= dev.pcMax {
        pc := pc - dev.pcMax;
      }
    }

    // ----- memory -----

    method MemRead(addr: nat) returns (val: byte)
      requires Valid()
      ensures val == Read(dev, State(), addr)
    {
      var cell := CellAt(dev, addr);
      var raw: byte := 0;
      match cell.kind {
        case NoDevice =>
        case GpwrCell => raw := gpwr[addr];
        case SregCell => raw := SregByte(sreg);
        case SplCell => raw := sp % 256;
        case SphCell => raw := sp / 256;
        case RampzCell => raw := rampz;
        case SramCell => raw := sram[addr];
      }
      val := And(raw, cell.rdMask);
    }

    method MemWrite(addr: nat, val: byte)
      requires Valid()
      modifies gpwr, sram, `sreg, `sp, `rampz
      ensures Valid() && State() == Write(dev, old(State()), addr, val)
    {
      var cell := CellAt(dev, addr);
      var v: byte := And(val, cell.wrMask);
      match cell.kind {
        case NoDevice =>
        case GpwrCell => gpwr[addr] := v;
        case SregCell => sreg := ByteSreg(v);
        case SplCell => sp := sp / 256 * 256 + v;
        case SphCell => sp := v as int * 256 + sp % 256;
        case RampzCell => rampz := v;
        case SramCell => sram[addr] := v;
      }
    }

    // ----- stack -----

    /** Push the low bytes of val. The loop keeps its own copy of the stack pointer, stored at the end. */
    method StackPush(bytes: nat, val: nat)
      requires Valid() && bytes < 4
      modifies gpwr, sram, `sreg, `sp, `rampz
      ensures Valid() && State() == Push(dev, old(State()), bytes, val)
    {
      ghost var whole := PushFrom(dev, State(), sp, bytes, val);
      var p, v := sp, val;
      for i := 0 to bytes
        invariant Valid()
        invariant PushFrom(dev, State(), p, bytes - i, v) == whole
        invariant Lowered(p, bytes - i) == Lowered(old(sp), bytes)
      {
        MemWrite(p, v % 256);
        v := v / 256;
        p := if p == 0 then 0xffff else p - 1;
      }
      sp := p;
    }

    /** Pop so many bytes, the highest first. */
    method StackPop(bytes: nat) returns (val: nat)
      requires Valid() && bytes < 4
      modifies `sp
      ensures Valid() && val == PopValue(dev, old(State()), bytes) && State() == Popped(old(State()), bytes)
    {
      var p := sp;
      val := 0;
      var i := bytes;
      while i > 0
        invariant 0 <= i <= bytes && sp == old(sp)
        invariant val + PopFrom(dev, State(), p, i) == PopFrom(dev, State(), sp, bytes)
        invariant Raised(p, i) == Raised(sp, bytes)
      {
        i := i - 1;
        p := if p == 0xffff then 0 else p + 1;
        var b := MemRead(p);
        val := val + Pow256(i) * b;
      }
      sp := p;
    }

    // ----- arithmetic and comparison -----

    method SetAddFlags(res: byte, rd: byte, rr: byte)
      modifies `sreg
      ensures sreg == AddFlags(rd, rr, res, old(sreg))
    {
      var v := AddOverflow(Bit7(res), Bit7(rd), Bit7(rr));
      var n := Bit7(res);
      sreg := SetFlag(sreg, SREG_H, AddCarry(Bit3(res), Bit3(rd), Bit3(rr)));
      sreg := SetFlag(sreg, SREG_V, v);
      sreg := SetFlag(sreg, SREG_N, n);
      sreg := SetFlag(sreg, SREG_S, n != v);
      sreg := SetFlag(sreg, SREG_Z, res == 0);
      sreg := SetFlag(sreg, SREG_C, AddCarry(Bit7(res), Bit7(rd), Bit7(rr)));
    }

    method SetSubFlags(res: byte, rd: byte, rr: byte, z: bool)
      modifies `sreg
      ensures sreg == SubFlags(rd, rr, res, old(sreg)).(z := z)
    {
      var v := SubOverflow(Bit7(res), Bit7(rd), Bit7(rr));
      var n := Bit7(res);
      sreg := SetFlag(sreg, SREG_H, SubCarry(Bit3(res), Bit3(rd), Bit3(rr)));
      sreg := SetFlag(sreg, SREG_V, v);
      sreg := SetFlag(sreg, SREG_N, n);
      sreg := SetFlag(sreg, SREG_S, n != v);
      sreg := SetFlag(sreg, SREG_Z, z);
      sreg := SetFlag(sreg, SREG_C, SubCarry(Bit7(res), Bit7(rd), Bit7(rr)));
    }

    /** ADD and, with the carry, ADC. */
    method OpAdd(d: nat, r: nat, withCarry: bool)
      requires Valid() && d < 32 && r < 32
      modifies gpwr, `sreg, `pc, `instCks
      ensures Valid() && State() == ExecArith(dev, old(State()), if withCarry then AdcOp else AddOp, d, r)
    {
      var rd, rr := gpwr[d], gpwr[r];
      var res: byte := (rd + rr + BitValue(withCarry && sreg.c)) % 256;
      SetAddFlags(res, rd, rr);
      gpwr[d] := res;
      PcIncr(1);
      instCks := 1;
    }

    /** SUB and, with the carry, SBC, which leaves Z alone when the result is zero. */
    method OpSub(d: nat, r: nat, withCarry: bool)
      requires Valid() && d < 32 && r < 32
      modifies gpwr, `sreg, `pc, `instCks
      ensures Valid() && State() == ExecArith(dev, old(State()), if withCarry then SbcOp else SubOp, d, r)
    {
      var rd, rr := gpwr[d], gpwr[r];
      var res: byte := (rd - rr - BitValue(withCarry && sreg.c)) % 256;
      SetSubFlags(res, rd, rr, if withCarry then res == 0 && sreg.z else res == 0);
      gpwr[d] := res;
      PcIncr(1);
      instCks := 1;
    }

    /** CP and, with the carry, CPC. */
    method OpCp(d: nat, r: nat, withCarry: bool)
      requires Valid() && d < 32 && r < 32
      modifies `sreg, `pc, `instCks
      ensures Valid() && State() == ExecCompare(dev, old(State()), if withCarry then CpcOp else CpOp, d, r)
    {
      var rd, rr := gpwr[d], gpwr[r];
      var res: byte := (rd - rr - BitValue(withCarry && sreg.c)) % 256;
      SetSubFlags(res, rd, rr, if withCarry then res == 0 && sreg.z else res == 0);
      PcIncr(1);
      instCks := 1;
    }

    method OpMul(d: nat, r: nat)
      requires Valid() && d < 32 && r < 32
      modifies gpwr, `sreg, `pc, `instCks
      ensures Valid() && State() == ExecMul(dev, old(State()), d, r)
    {
      ProductIsWord(gpwr[d], gpwr[r]);
      var rd: int, rr: int := gpwr[d], gpwr[r];
      var res := rd * rr;
      sreg := sreg.(z := res == 0);
      sreg := sreg.(c := res / 0x8000 % 2 == 1);
      gpwr[1] := res / 256;
      gpwr[0] := res % 256;
      PcIncr(1);
      instCks := 2;
    }

    method OpMov(d: nat, r: nat)
      requires Valid() && d < 32 && r < 32
      modifies gpwr, `pc, `instCks
      ensures Valid() && State() == ExecMov(dev, old(State()), d, r)
    {
      gpwr[d] := gpwr[r];
      PcIncr(1);
      instCks := 1;
    }

    // ----- control -----

    /** BRBS, and BRBC when whenSet is false. */
    method OpBranch(whenSet: bool, bit: nat, k: int)
      requires Valid() && bit < 8
      modifies `pc, `instCks
      ensures Valid() && State() == ExecBranch(dev, old(State()), whenSet, bit, k)
    {
      if Flag(sreg, bit) == whenSet {
        PcIncr(k + 1);
        instCks := 2;
      } else {
        PcIncr(1);
        instCks := 1;
      }
    }

    /** RCALL, ICALL and CALL. */
    method OpCall(kind: CallKind)
      requires Valid() && dev.pcSize < 4 && CallAccepted(dev, kind)
      modifies this, gpwr, sram
      ensures Valid() && status == old(status)
      ensures State() == ExecCall(dev, old(State()), kind)
    {
      var target := 0;
      var length, extra := 1, 1;
      match kind {
        case Rcall(k) => target := pc + k + 1;
        case Icall => target := gpwr[31] as int * 256 + gpwr[30];
        case Call(k) => target := k; length, extra := 2, 2;
      }
      StackPush(dev.pcSize, ToUint32(pc + length));
      PcSet(target);
      instCks := dev.pcSize + extra;
    }

    /** RJMP, IJMP and JMP. */
    method OpJump(kind: JumpKind)
      requires Valid()
      modifies `pc, `instCks
      ensures Valid() && State() == ExecJump(dev, old(State()), kind)
    {
      match kind {
        case Rjmp(k) =>
          PcIncr(k + 1);
          instCks := 2;
        case Ijmp =>
          PcSet(gpwr[31] as int * 256 + gpwr[30]);
          instCks := 2;
        case Jmp(target) =>
          PcSet(target);
          instCks := 3;
      }
    }

    /** RET, and RETI which also sets the I flag. */
    method OpRet(reti: bool)
      requires Valid() && dev.pcSize < 4
      modifies `pc, `sp, `sreg, `instCks
      ensures Valid()
      ensures State() == if reti then ExecReti(dev, old(State())) else ExecRet(dev, old(State()))
    {
      var target := StackPop(dev.pcSize);
      PcSet(target);
      instCks := dev.pcSize + 2;
      if reti {
        sreg := sreg.(i := true);
      }
    }

    method OpPush(d: nat)
      requires Valid() && d < 32
      modifies this, gpwr, sram
      ensures Valid() && status == old(status) && State() == ExecPush(dev, old(State()), d)
    {
      StackPush(1, gpwr[d]);
      PcIncr(1);
      instCks := 2;
    }

    method OpPop(d: nat)
      requires Valid() && d < 32
      modifies gpwr, `pc, `sp, `instCks
      ensures Valid() && State() == ExecPop(dev, old(State()), d)
    {
      PopOneIsByte(dev, State());
      var b := StackPop(1);
      gpwr[d] := b;
      PcIncr(1);
      instCks := 2;
    }

    // ----- interrupts -----

    /** Append the vector to the pending ones unless its address is pending already. */
    method IrqRaise(irq: Interrupts.IntVect)
      requires irqPending.Valid()
      modifies irqPending, irqPending.nodes
      ensures irqPending.Valid() && irqPending.contents == Interrupts.Raise(old(irqPending.contents), irq)
      ensures forall n :: n in irqPending.nodes ==> n in old(irqPending.nodes) || fresh(n)
    {
      irqPending.Add(irq, Some(ListSpec.SameKey(Interrupts.Addr())));
    }

    /** Unlink the pending vector with that address. */
    method IrqClear(irq: Interrupts.IntVect)
      requires irqPending.Valid()
      modifies irqPending, irqPending.nodes
      ensures irqPending.Valid() && irqPending.contents == Interrupts.Clear(old(irqPending.contents), irq)
    {
      ghost var at := irqPending.Delete(irq, ListSpec.SameKey(Interrupts.Addr()));
    }

    method ResetDevice(kind: CellKind)
      requires Valid()
      modifies gpwr, `sreg, `sp, `rampz
      ensures Valid() && State() == DeviceReset(old(State()), kind)
    {
      match kind {
        case NoDevice =>
        case GpwrCell =>
          for i := 0 to 32
            invariant Valid() && State() == old(State()).(regs := gpwr[..])
            invariant forall j :: 0 <= j < i ==> gpwr[j] == 0
          {
            gpwr[i] := 0;
          }
          assert gpwr[..] == ClearedRegs();
        case SregCell => sreg := ByteSreg(0);
        case SplCell => sp := 0;
        case SphCell => sp := 0;
        case RampzCell => rampz := 0;
        case SramCell =>
      }
    }

    /** Reset the device behind every cell, one after another. */
    method MemReset()
      requires Valid()
      modifies gpwr, `sreg, `sp, `rampz
      ensures Valid() && State() == ResetCells(dev, old(State()), |dev.cells|)
    {
      for i := 0 to |dev.cells|
        invariant Valid() && State() == ResetCells(dev, old(State()), i)
      {
        ResetDevice(dev.cells[i].kind);
      }
    }

    /** Back to address 0 with nothing pending and every device reset. */
    method Reset()
      requires Valid() && irqPending.Valid()
      modifies this, gpwr, irqPending
      ensures Valid() && irqPending.Valid() && irqPending.nodes == []
      ensures Queued() == Interrupts.Core(Interrupts.Reset(dev, old(State())), [], old(status))
    {
      PcSet(0);
      irqPending.DeleteAll();
      instCks := 0;
      MemReset();
    }

    /** Enter the vector if interrupts are enabled, and take it off the list. */
    method VectorIfEnabled(irqOffset: int, irq: Interrupts.IntVect)
      requires Valid() && irqPending.Valid() && dev.pcSize < 4
      modifies this, gpwr, sram, irqPending, irqPending.nodes
      ensures Valid() && irqPending.Valid()
      ensures Queued() == Interrupts.VectorIfEnabled(dev, irqOffset, old(Queued()), irq).core
    {
      if sreg.i {
        StackPush(dev.pcSize, ToUint32(pc));
        sreg := sreg.(i := false);
        PcSet(irq.addr + irqOffset);
        IrqClear(irq);
      }
    }

    /** Take the first pending interrupt that can be taken: a reset whatever the I flag, another if it is set. */
    method CheckInterrupts(irqOffset: int)
      requires Valid() && irqPending.Valid() && dev.pcSize < 4
      modifies this, gpwr, sram, irqPending, irqPending.nodes
      ensures Valid() && irqPending.Valid()
      ensures Queued() == Interrupts.CheckInterrupts(dev, irqOffset, old(Queued())).core
    {
      if irqPending.head != null {
        var found := irqPending.Lookup(Interrupts.PROBE, Interrupts.CmpPending(status));
        match found {
          case None => status := Interrupts.Halted;
          case Some(irq) =>
            if irq.addr == Interrupts.RESET_ADDR {
              Reset();
            }
            VectorIfEnabled(irqOffset, irq);
        }
      }
    }
  }
}
