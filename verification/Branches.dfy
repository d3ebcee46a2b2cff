/**
 Programs that do arithmetic and comparisons on register operands of any number of bytes, and
 branch on the outcome.
 */
module Branches {
  import opened Bytes
  import opened Alu
  import opened MultiByte
  import opened Memory
  import opened ProgramCounter
  import opened Instructions

  predicate RegList(ds: seq<nat>) {
    forall i :: 0 <= i < |ds| ==> ds[i] < 32
  }

  /** The bytes in a list of registers. */
  function Gather(regs: seq<byte>, ds: seq<nat>): (bs: seq<byte>)
    requires |regs| == 32 && RegList(ds)
    ensures |bs| == |ds|
  {
    if ds == [] then [] else [regs[ds[0]]] + Gather(regs, ds[1..])
  }

  /** The program counter after n one-word instructions. */
  function PcAfter(dev: Device, pc: int, n: nat): int
    decreases n
  {
    if n == 0 then pc else PcAfter(dev, AdjustToMax(pc + 1, dev.pcMax), n - 1)
  }

  lemma {:induction false} PcAfterStraight(dev: Device, pc: int, n: nat)
    requires 0 <= pc && pc + n < dev.pcMax
    ensures PcAfter(dev, pc, n) == pc + n
    decreases n
  {
    if n > 0 {
      PcAfterStraight(dev, pc + 1, n - 1);
    }
  }

  // ----- addition and subtraction in registers -----

  /** The chain of value-level instructions that op starts or continues. */
  function Chain(op: ArithOp, a: seq<byte>, b: seq<byte>, f: Sreg): ChainOut
    requires |a| == |b| && (op.AddOp? || op.SubOp? ==> |a| > 0)
  {
    match op
    case AddOp => AddChain(a, b, f)
    case AdcOp => AdcChain(a, b, f)
    case SubOp => SubChain(a, b, f)
    case SbcOp => SbcChain(a, b, f)
  }

  /** A register written early in the list is not an operand later in it. */
  predicate NoLaterUse(ds: seq<nat>, rs: seq<nat>)
    requires |ds| == |rs|
  {
    forall i, j :: 0 <= i < j < |ds| ==> ds[i] != ds[j] && ds[i] != rs[j]
  }

  lemma {:induction false} GatherUnaffected(regs: seq<byte>, ds: seq<nat>, d: nat, v: byte)
    requires |regs| == 32 && RegList(ds) && d < 32
    requires forall i :: 0 <= i < |ds| ==> ds[i] != d
    ensures Gather(regs[d := v], ds) == Gather(regs, ds)
  {
    if ds != [] {
      GatherUnaffected(regs, ds[1..], d, v);
    }
  }

  /** The instruction that carries on a chain op starts. */
  function Continues(op: ArithOp): ArithOp {
    if op.AddOp? || op.AdcOp? then AdcOp else SbcOp
  }

  /** op on the first pair of registers, the instruction that carries on on the others. */
  function RunChain(dev: Device, m: Cpu, op: ArithOp, ds: seq<nat>, rs: seq<nat>): (m': Cpu)
    requires Wf(dev, m) && RegList(ds) && RegList(rs) && |ds| == |rs|
    ensures Wf(dev, m')
    decreases |ds|
  {
    if ds == [] then m
    else RunChain(dev, ExecArith(dev, m, op, ds[0], rs[0]), Continues(op), ds[1..], rs[1..])
  }

  /** A chain writes its destination registers, the flags and the program counter, and nothing else. */
  lemma {:induction false} ChainFrame(dev: Device, m: Cpu, op: ArithOp, ds: seq<nat>, rs: seq<nat>)
    requires Wf(dev, m) && RegList(ds) && RegList(rs) && |ds| == |rs|
    ensures var m' := RunChain(dev, m, op, ds, rs);
            && (forall r :: 0 <= r < 32 && r !in ds ==> m'.regs[r] == m.regs[r])
            && m' == m.(regs := m'.regs, sreg := m'.sreg, pc := PcAfter(dev, m.pc, |ds|), cks := m'.cks)
    decreases |ds|
  {
    if ds != [] {
      ChainFrame(dev, ExecArith(dev, m, op, ds[0], rs[0]), Continues(op), ds[1..], rs[1..]);
    }
  }

  /** The first instruction of a chain: what it computes, and what it leaves for the instructions after it. */
  lemma ChainStep(dev: Device, m: Cpu, op: ArithOp, ds: seq<nat>, rs: seq<nat>) returns (m1: Cpu, low: AluOut)
    requires Wf(dev, m) && RegList(ds) && RegList(rs) && |ds| == |rs| > 0 && NoLaterUse(ds, rs)
    ensures Wf(dev, m1) && m1.regs[ds[0]] == low.res && m1.sreg == low.sreg
    ensures Gather(m1.regs, ds[1..]) == Gather(m.regs, ds)[1..]
    ensures Gather(m1.regs, rs[1..]) == Gather(m.regs, rs)[1..]
    ensures RunChain(dev, m, op, ds, rs) == RunChain(dev, m1, Continues(op), ds[1..], rs[1..])
    ensures Chain(op, Gather(m.regs, ds), Gather(m.regs, rs), m.sreg) ==
            var rest := Chain(Continues(op), Gather(m.regs, ds)[1..], Gather(m.regs, rs)[1..], low.sreg);
            ChainOut([low.res] + rest.res, rest.sreg)
  {
    low := Compute(op, m.regs[ds[0]], m.regs[rs[0]], m.sreg);
    m1 := ExecArith(dev, m, op, ds[0], rs[0]);
    GatherUnaffected(m.regs, ds[1..], ds[0], low.res);
    GatherUnaffected(m.regs, rs[1..], ds[0], low.res);
  }

  /** The destination registers hold what the chain of value-level instructions computes. */
  lemma {:induction false} ChainInRegisters(dev: Device, m: Cpu, op: ArithOp, ds: seq<nat>, rs: seq<nat>)
    requires Wf(dev, m) && RegList(ds) && RegList(rs) && |ds| == |rs| && NoLaterUse(ds, rs)
    requires ds == [] ==> op.AdcOp? || op.SbcOp?
    ensures var m' := RunChain(dev, m, op, ds, rs);
            var out := Chain(op, Gather(m.regs, ds), Gather(m.regs, rs), m.sreg);
            Gather(m'.regs, ds) == out.res && m'.sreg == out.sreg
    decreases |ds|
  {
    if ds != [] {
      var m1, low := ChainStep(dev, m, op, ds, rs);
      ChainInRegisters(dev, m1, Continues(op), ds[1..], rs[1..]);
      FirstStays(dev, m1, Continues(op), ds, rs);
    }
  }

  lemma FirstStays(dev: Device, m: Cpu, op: ArithOp, ds: seq<nat>, rs: seq<nat>)
    requires Wf(dev, m) && RegList(ds) && RegList(rs) && |ds| == |rs| > 0 && NoLaterUse(ds, rs)
    ensures RunChain(dev, m, op, ds[1..], rs[1..]).regs[ds[0]] == m.regs[ds[0]]
  {
    ChainFrame(dev, m, op, ds[1..], rs[1..]);
    FirstKept(ds);
  }

  lemma FirstKept(ds: seq<nat>)
    requires ds != [] && forall i, j :: 0 <= i < j < |ds| ==> ds[i] != ds[j]
    ensures ds[0] !in ds[1..]
  {
  }

  /** Subtraction modulo p of numbers below p. */
  function Difference(a: nat, b: nat, p: nat): int {
    if a < b then a - b + p else a - b
  }

  /** Addition modulo p of numbers below p. */
  function Sum(a: nat, b: nat, p: nat): int {
    if a + b >= p then a + b - p else a + b
  }

  lemma SumValue(a: seq<byte>, b: seq<byte>, f: Sreg)
    requires |a| == |b| > 0
    ensures var out := AddChain(a, b, f);
            && Value(out.res) == Sum(Value(a), Value(b), Pow256(|a|))
            && (out.sreg.c <==> Value(a) + Value(b) >= Pow256(|a|))
            && out.sreg.t == f.t && out.sreg.i == f.i
  {
    AddChainModulo(a, b, f);
    AddChainSums(a, b, f);
  }

  lemma DifferenceValue(a: seq<byte>, b: seq<byte>, f: Sreg)
    requires |a| == |b| > 0
    ensures var out := SubChain(a, b, f);
            && Value(out.res) == Difference(Value(a), Value(b), Pow256(|a|))
            && (out.sreg.c <==> Value(a) < Value(b))
            && (out.sreg.z <==> a == b)
            && out.sreg.t == f.t && out.sreg.i == f.i
  {
    SubChainSubtracts(a, b, f);
  }

  /** The registers, flags and program counter a program may change; it changes no other flag than the six. */
  ghost predicate OnlyChanges(dev: Device, m: Cpu, m': Cpu, ds: seq<nat>)
    requires Wf(dev, m) && Wf(dev, m')
  {
    && (forall r :: 0 <= r < 32 && r !in ds ==> m'.regs[r] == m.regs[r])
    && m'.sreg.t == m.sreg.t && m'.sreg.i == m.sreg.i
    && m' == m.(regs := m'.regs, sreg := m'.sreg, pc := PcAfter(dev, m.pc, |ds|), cks := m'.cks)
  }

  /** ADD and n - 1 ADC leave the sum of the operand registers in the destination registers. */
  lemma AddProgram(dev: Device, m: Cpu, ds: seq<nat>, rs: seq<nat>)
    requires Wf(dev, m) && RegList(ds) && RegList(rs) && |ds| == |rs| > 0 && NoLaterUse(ds, rs)
    ensures var m' := RunChain(dev, m, AddOp, ds, rs);
            var a, b := Value(Gather(m.regs, ds)), Value(Gather(m.regs, rs));
            && Value(Gather(m'.regs, ds)) == Sum(a, b, Pow256(|ds|))
            && (m'.sreg.c <==> a + b >= Pow256(|ds|))
            && OnlyChanges(dev, m, m', ds)
  {
    ChainInRegisters(dev, m, AddOp, ds, rs);
    ChainFrame(dev, m, AddOp, ds, rs);
    SumValue(Gather(m.regs, ds), Gather(m.regs, rs), m.sreg);
  }

  /** SUB and n - 1 SBC leave the difference of the operand registers in the destination registers. */
  lemma SubProgram(dev: Device, m: Cpu, ds: seq<nat>, rs: seq<nat>)
    requires Wf(dev, m) && RegList(ds) && RegList(rs) && |ds| == |rs| > 0 && NoLaterUse(ds, rs)
    ensures var m' := RunChain(dev, m, SubOp, ds, rs);
            var a, b := Gather(m.regs, ds), Gather(m.regs, rs);
            && Value(Gather(m'.regs, ds)) == Difference(Value(a), Value(b), Pow256(|ds|))
            && (m'.sreg.c <==> Value(a) < Value(b))
            && (m'.sreg.z <==> a == b)
            && OnlyChanges(dev, m, m', ds)
  {
    ChainInRegisters(dev, m, SubOp, ds, rs);
    ChainFrame(dev, m, SubOp, ds, rs);
    DifferenceValue(Gather(m.regs, ds), Gather(m.regs, rs), m.sreg);
  }

  // ----- comparison and branch -----

  function RunCpc(dev: Device, m: Cpu, ds: seq<nat>, rs: seq<nat>): (m': Cpu)
    requires Wf(dev, m) && RegList(ds) && RegList(rs) && |ds| == |rs|
    ensures Wf(dev, m')
    decreases |ds|
  {
    if ds == [] then m else RunCpc(dev, ExecCompare(dev, m, CpcOp, ds[0], rs[0]), ds[1..], rs[1..])
  }

  /** CP on the lowest registers, CPC on the others. */
  function RunCompare(dev: Device, m: Cpu, ds: seq<nat>, rs: seq<nat>): (m': Cpu)
    requires Wf(dev, m) && RegList(ds) && RegList(rs) && |ds| == |rs| > 0
    ensures Wf(dev, m')
  {
    RunCpc(dev, ExecCompare(dev, m, CpOp, ds[0], rs[0]), ds[1..], rs[1..])
  }

  lemma {:induction false} RunCpcFlags(dev: Device, m: Cpu, ds: seq<nat>, rs: seq<nat>)
    requires Wf(dev, m) && RegList(ds) && RegList(rs) && |ds| == |rs|
    ensures var m' := RunCpc(dev, m, ds, rs);
            m' == m.(sreg := CpcChain(Gather(m.regs, ds), Gather(m.regs, rs), m.sreg),
                     pc := PcAfter(dev, m.pc, |ds|), cks := m'.cks)
    decreases |ds|
  {
    if ds != [] {
      RunCpcFlags(dev, ExecCompare(dev, m, CpcOp, ds[0], rs[0]), ds[1..], rs[1..]);
    }
  }

  lemma RunCompareFlags(dev: Device, m: Cpu, ds: seq<nat>, rs: seq<nat>)
    requires Wf(dev, m) && RegList(ds) && RegList(rs) && |ds| == |rs| > 0
    ensures var m' := RunCompare(dev, m, ds, rs);
            m' == m.(sreg := CpChain(Gather(m.regs, ds), Gather(m.regs, rs), m.sreg),
                     pc := PcAfter(dev, m.pc, |ds|), cks := m'.cks)
  {
    RunCpcFlags(dev, ExecCompare(dev, m, CpOp, ds[0], rs[0]), ds[1..], rs[1..]);
  }

  /** The conditional branches of the comparison table, as a flag number and the value branched on. */
  datatype Branch = BRLT | BRGE | BREQ | BRNE | BRLO | BRSH

  function BranchBit(b: Branch): nat {
    match b
    case BRLT => 4
    case BRGE => 4
    case BREQ => 1
    case BRNE => 1
    case BRLO => 0
    case BRSH => 0
  }

  predicate BranchWhenSet(b: Branch) {
    b == BRLT || b == BREQ || b == BRLO
  }

  /** The test each branch stands for when it follows a comparison of x with y. */
  predicate Relation(b: Branch, x: seq<byte>, y: seq<byte>)
    requires |x| == |y| > 0
  {
    match b
    case BRLT => Signed(x) < Signed(y)
    case BRGE => Signed(x) >= Signed(y)
    case BREQ => Value(x) == Value(y)
    case BRNE => Value(x) != Value(y)
    case BRLO => Value(x) < Value(y)
    case BRSH => Value(x) >= Value(y)
  }

  /** The flag a branch looks at after a comparison tells whether the relation it names holds. */
  lemma FlagDecides(x: seq<byte>, y: seq<byte>, f: Sreg, b: Branch)
    requires |x| == |y| > 0
    ensures Flag(CpChain(x, y, f), BranchBit(b)) == BranchWhenSet(b) <==> Relation(b, x, y)
  {
    CpChainCompares(x, y, f);
    if Value(x) == Value(y) {
      ValueInjective(x, y);
    }
  }

  /**
   From m to m' a comparison of x with y has been made and branched on: control is k past after
   exactly when the relation the branch names holds, and otherwise at after; registers and memory are
   as they were.
   */
  ghost predicate Decided(dev: Device, m: Cpu, m': Cpu, after: int, x: seq<byte>, y: seq<byte>, b: Branch, k: int)
    requires |x| == |y| > 0
  {
    && m'.pc == AdjustToMax(if Relation(b, x, y) then after + k else after, dev.pcMax)
    && m' == m.(sreg := m'.sreg, pc := m'.pc, cks := m'.cks)
  }

  /**
   Compare n-byte operands, then branch: the branch is taken exactly when the relation it names
   holds of the whole integers, and registers and memory are as they were.
   */
  lemma CompareAndBranch(dev: Device, m: Cpu, ds: seq<nat>, rs: seq<nat>, b: Branch, k: int)
    requires Wf(dev, m) && RegList(ds) && RegList(rs) && |ds| == |rs| > 0
    ensures var m' := ExecBranch(dev, RunCompare(dev, m, ds, rs), BranchWhenSet(b), BranchBit(b), k);
            Decided(dev, m, m', PcAfter(dev, m.pc, |ds|) + 1, Gather(m.regs, ds), Gather(m.regs, rs), b, k)
  {
    RunCompareFlags(dev, m, ds, rs);
    FlagDecides(Gather(m.regs, ds), Gather(m.regs, rs), m.sreg, b);
  }

  /** The test each branch stands for when it follows a comparison of y with x. */
  predicate Interchanged(b: Branch, x: seq<byte>, y: seq<byte>)
    requires |x| == |y| > 0
  {
    match b
    case BRLT => Signed(x) > Signed(y)
    case BRGE => Signed(x) <= Signed(y)
    case BREQ => x == y
    case BRNE => x != y
    case BRLO => Value(x) > Value(y)
    case BRSH => Value(x) <= Value(y)
  }

  /** As Decided, but of the comparison of y with x and the relation that holds of x and y. */
  ghost predicate DecidedInterchanged(dev: Device, m: Cpu, m': Cpu, after: int, x: seq<byte>, y: seq<byte>, b: Branch, k: int)
    requires |x| == |y| > 0
  {
    && m'.pc == AdjustToMax(if Interchanged(b, x, y) then after + k else after, dev.pcMax)
    && m' == m.(sreg := m'.sreg, pc := m'.pc, cks := m'.cks)
  }

  lemma InterchangedIs(b: Branch, x: seq<byte>, y: seq<byte>)
    requires |x| == |y| > 0
    ensures Interchanged(b, x, y) <==> Relation(b, y, x)
  {
    if Value(x) == Value(y) {
      ValueInjective(x, y);
    }
  }

  /**
   "Greater" and "less or equal" are decided by comparing with the operands interchanged: after CP and
   CPC of rs with ds the branch is taken exactly when the interchanged relation holds of the operands
   in ds and rs.
   */
  lemma InterchangedBranches(dev: Device, m: Cpu, ds: seq<nat>, rs: seq<nat>, b: Branch, k: int)
    requires Wf(dev, m) && RegList(ds) && RegList(rs) && |ds| == |rs| > 0
    ensures var m' := ExecBranch(dev, RunCompare(dev, m, rs, ds), BranchWhenSet(b), BranchBit(b), k);
            DecidedInterchanged(dev, m, m', PcAfter(dev, m.pc, |ds|) + 1, Gather(m.regs, ds), Gather(m.regs, rs), b, k)
  {
    CompareAndBranch(dev, m, rs, ds, b, k);
    InterchangedIs(b, Gather(m.regs, ds), Gather(m.regs, rs));
  }

  lemma SIsNXorV(x: seq<byte>, y: seq<byte>, f: Sreg)
    requires |x| == |y| > 0
    ensures var g := CpChain(x, y, f); g.s <==> g.n != g.v
  {
    if |x| == 1 {
    } else {
      CpcSIsNXorV(x[1..], y[1..], Cp(x[0], y[0], f));
    }
  }

  lemma {:induction false} CpcSIsNXorV(x: seq<byte>, y: seq<byte>, f: Sreg)
    requires |x| == |y|
    requires f.s <==> f.n != f.v
    ensures var g := CpcChain(x, y, f); g.s <==> g.n != g.v
  {
    if x != [] {
      CpcSIsNXorV(x[1..], y[1..], Cpc(x[0], y[0], f));
    }
  }

  /**
   The branch table writes the signed "greater" test as Z & (N ^ V) = 0. Of the flags after a
   comparison that is true also of equal operands; the test that holds exactly for "greater" has an
   OR in place of the AND.
   */
  lemma GreaterNeedsOr(x: seq<byte>, y: seq<byte>, f: Sreg)
    requires |x| == |y| > 0
    ensures var g := CpChain(x, y, f);
            && (!(g.z || g.n != g.v) <==> Signed(x) > Signed(y))
            && (!(g.z && g.n != g.v))
  {
    CpChainCompares(x, y, f);
    SIsNXorV(x, y, f);
    SignedInjective(x, y);
  }

  lemma SignedInjective(x: seq<byte>, y: seq<byte>)
    requires |x| == |y| > 0
    ensures Signed(x) == Signed(y) <==> x == y
  {
    ValueBound(x);
    ValueBound(y);
    if Signed(x) == Signed(y) {
      ValueInjective(x, y);
    }
  }
}
