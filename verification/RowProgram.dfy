/**
 The multiplication row as a program on registers: for each byte of the operand MUL, ADD, ADC, and two
 MOV that put the product byte and the new carry in their places.
 */
module RowProgram {
  import opened Bytes
  import opened Multiply
  import opened Memory
  import opened Instructions
  import opened Branches

  /** Where the row keeps the factor, the carry and a zero. */
  datatype Places = Places(b: nat, c: nat, z: nat)

  predicate Free(r: nat) {
    2 <= r < 32
  }

  predicate WfPlaces(p: Places) {
    Free(p.b) && Free(p.c) && Free(p.z) && p.b != p.c && p.c != p.z
  }

  /** Output registers clear of the row's own places and of the operand bytes still to be read. */
  predicate WfRow(p: Places, bytes: seq<nat>, outs: seq<nat>) {
    && WfPlaces(p) && |outs| == |bytes| + 1
    && (forall i :: 0 <= i < |bytes| ==> Free(bytes[i]) && bytes[i] != p.c)
    && (forall i :: 0 <= i < |outs| ==> Free(outs[i]) && outs[i] != p.b && outs[i] != p.c && outs[i] != p.z)
    && (forall i, j :: 0 <= i < j < |outs| ==> outs[i] != outs[j])
    && (forall i, j :: 0 <= i < j < |bytes| ==> outs[i] != bytes[j])
  }

  /** One byte: MUL a,b; ADD R0,c; ADC R1,z; MOV o,R0; MOV c,R1. */
  function RunByte(dev: Device, m: Cpu, p: Places, a: nat, o: nat): (m': Cpu)
    requires Wf(dev, m) && WfPlaces(p) && Free(a) && Free(o)
    ensures Wf(dev, m')
  {
    var m1 := ExecMul(dev, m, a, p.b);
    var m2 := ExecArith(dev, m1, AddOp, 0, p.c);
    var m3 := ExecArith(dev, m2, AdcOp, 1, p.z);
    ExecMov(dev, ExecMov(dev, m3, o, 0), p.c, 1)
  }

  lemma ProductInPair(dev: Device, m: Cpu, p: Places, a: nat)
    requires Wf(dev, m) && WfPlaces(p) && Free(a) && m.regs[p.z] == 0
    ensures var m3 := ExecArith(dev, ExecArith(dev, ExecMul(dev, m, a, p.b), AddOp, 0, p.c), AdcOp, 1, p.z);
            var out := RowStep(m.regs[a], m.regs[p.b], m.regs[p.c], m.sreg);
            && m3.regs == m.regs[0 := out.low][1 := out.carry] && m3.sreg == out.sreg
            && m3 == m.(regs := m3.regs, sreg := m3.sreg, pc := m3.pc, cks := m3.cks)
  {
    var m1 := ExecMul(dev, m, a, p.b);
    var m2 := ExecArith(dev, m1, AddOp, 0, p.c);
    assert m1.regs[p.c] == m.regs[p.c] && m2.regs[p.z] == 0;
  }

  lemma ByteStep(dev: Device, m: Cpu, p: Places, a: nat, o: nat)
    requires Wf(dev, m) && WfPlaces(p) && Free(a) && Free(o) && o != p.c && m.regs[p.z] == 0
    ensures var m' := RunByte(dev, m, p, a, o);
            var out := RowStep(m.regs[a], m.regs[p.b], m.regs[p.c], m.sreg);
            && m'.regs[o] == out.low && m'.regs[p.c] == out.carry && m'.sreg == out.sreg
            && (forall r :: 2 <= r < 32 && r != o && r != p.c ==> m'.regs[r] == m.regs[r])
            && m' == m.(regs := m'.regs, sreg := m'.sreg, pc := m'.pc, cks := m'.cks)
  {
    ProductInPair(dev, m, p, a);
  }

  /** All bytes, lowest first, and the last carry. */
  function RunRow(dev: Device, m: Cpu, p: Places, bytes: seq<nat>, outs: seq<nat>): (m': Cpu)
    requires Wf(dev, m) && WfRow(p, bytes, outs)
    ensures Wf(dev, m')
    decreases |bytes|
  {
    if bytes == [] then ExecMov(dev, m, outs[0], p.c)
    else RunRow(dev, RunByte(dev, m, p, bytes[0], outs[0]), p, bytes[1..], outs[1..])
  }

  lemma {:induction false} GatherSame(regs: seq<byte>, regs': seq<byte>, ds: seq<nat>)
    requires |regs| == |regs'| == 32 && RegList(ds)
    requires forall i :: 0 <= i < |ds| ==> regs'[ds[i]] == regs[ds[i]]
    ensures Gather(regs', ds) == Gather(regs, ds)
  {
    if ds != [] {
      GatherSame(regs, regs', ds[1..]);
    }
  }

  /** The row leaves alone every register but R0, R1, the carry's and its outputs. */
  lemma {:induction false} RowFrame(dev: Device, m: Cpu, p: Places, bytes: seq<nat>, outs: seq<nat>)
    requires Wf(dev, m) && WfRow(p, bytes, outs) && m.regs[p.z] == 0
    ensures var m' := RunRow(dev, m, p, bytes, outs);
            && (forall r :: 2 <= r < 32 && r != p.c && r !in outs ==> m'.regs[r] == m.regs[r])
            && m' == m.(regs := m'.regs, sreg := m'.sreg, pc := m'.pc, cks := m'.cks)
    decreases |bytes|
  {
    if bytes != [] {
      ByteStep(dev, m, p, bytes[0], outs[0]);
      RowFrame(dev, RunByte(dev, m, p, bytes[0], outs[0]), p, bytes[1..], outs[1..]);
    }
  }

  /** The output registers hold what the row computes on values. */
  lemma {:induction false} RowInRegisters(dev: Device, m: Cpu, p: Places, bytes: seq<nat>, outs: seq<nat>)
    requires Wf(dev, m) && WfRow(p, bytes, outs) && m.regs[p.z] == 0
    ensures Gather(RunRow(dev, m, p, bytes, outs).regs, outs)
            == Row(Gather(m.regs, bytes), m.regs[p.b], m.regs[p.c], m.sreg)
    decreases |bytes|
  {
    if bytes == [] {
      assert outs == [outs[0]];
    } else {
      var m1 := RunByte(dev, m, p, bytes[0], outs[0]);
      ByteStep(dev, m, p, bytes[0], outs[0]);
      GatherSame(m.regs, m1.regs, bytes[1..]);
      RowInRegisters(dev, m1, p, bytes[1..], outs[1..]);
      FirstOutStays(dev, m1, p, bytes, outs);
    }
  }

  lemma FirstOutStays(dev: Device, m: Cpu, p: Places, bytes: seq<nat>, outs: seq<nat>)
    requires Wf(dev, m) && WfRow(p, bytes, outs) && bytes != [] && m.regs[p.z] == 0
    ensures RunRow(dev, m, p, bytes[1..], outs[1..]).regs[outs[0]] == m.regs[outs[0]]
  {
    RowFrame(dev, m, p, bytes[1..], outs[1..]);
    FirstKept(outs);
  }

  /**
   The row program multiplies exactly: the n + 1 output registers hold the n-byte operand times the
   factor, plus the carry it started with.
   */
  lemma RowProgramMultiplies(dev: Device, m: Cpu, p: Places, bytes: seq<nat>, outs: seq<nat>)
    requires Wf(dev, m) && WfRow(p, bytes, outs) && m.regs[p.z] == 0
    ensures var m' := RunRow(dev, m, p, bytes, outs);
            && Value(Gather(m'.regs, outs)) == Value(Gather(m.regs, bytes)) * m.regs[p.b] + m.regs[p.c]
            && (forall r :: 2 <= r < 32 && r != p.c && r !in outs ==> m'.regs[r] == m.regs[r])
            && m' == m.(regs := m'.regs, sreg := m'.sreg, pc := m'.pc, cks := m'.cks)
  {
    RowInRegisters(dev, m, p, bytes, outs);
    RowFrame(dev, m, p, bytes, outs);
    RowProduct(Gather(m.regs, bytes), m.regs[p.b], m.regs[p.c], m.sreg);
  }
}
