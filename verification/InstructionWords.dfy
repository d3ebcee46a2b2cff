/**
 The instructions as the instruction set summary gives them: what a word in flash does when it is
 fetched, said of the word itself and in plain arithmetic. The opcode table, the operand fields and
 the functions that specify the handlers are not mentioned in these statements.
 */
module InstructionWords {
  import opened Bytes
  import opened Wrappers
  import opened Alu
  import opened Memory
  import opened ProgramCounter
  import opened Instructions
  import D = Decoder
  import DecoderInverse
  import opened FetchExecute
  import Program

  /** The word w is fetched next. */
  ghost predicate WordNext(dev: Device, flash: seq<bv16>, m: Cpu, w: bv16) {
    Wf(dev, m) && dev.pcSize < 4 && 0 <= m.pc < |flash| && flash[m.pc] == w
  }

  lemma FetchesWord(dev: Device, flash: seq<bv16>, m: Cpu, i: D.Instr)
    requires D.Valid(i) && WordNext(dev, flash, m, D.Encode(i))
    ensures FetchExec(dev, flash, m) == Execute(dev, flash, m, i)
  {
    DecoderInverse.DecodeEncode(i);
  }

  /** A field of 7 or 12 bits as two's complement. */
  function Signed7(k: bv16): int {
    if k as int < 64 then k as int else k as int - 128
  }

  function Signed12(k: bv16): int {
    if k as int < 2048 then k as int else k as int - 4096
  }

  /** The registers Z is made of. */
  function Z(m: Cpu): int
    requires |m.regs| == 32
  {
    var low: int, high: int := m.regs[30], m.regs[31];
    low + 256 * high
  }

  // ----- calls -----

  /** Where each call goes, whatever cells the stack lies on. */
  lemma CallGoes(dev: Device, m: Cpu, k: int, target: nat)
    requires Wf(dev, m) && dev.pcSize < 4
    ensures ExecCall(dev, m, Rcall(k)).pc == AdjustToMax(m.pc + k + 1, dev.pcMax)
    ensures ExecCall(dev, m, Icall).pc == AdjustToMax(Z(m), dev.pcMax)
    ensures CallAccepted(dev, Call(target)) ==> ExecCall(dev, m, Call(target)).pc == AdjustToMax(target, dev.pcMax)
  {
  }

  /** What a call leaves: the address after it on the stack, control at the target, all else as it was. */
  ghost predicate Called(dev: Device, m: Cpu, m': Cpu, length: nat, target: int, cks: nat) {
    && m'.pc == AdjustToMax(target, dev.pcMax) && m'.cks == cks
    && (PlainStack(dev, m.sp, dev.pcSize) ==>
          m' == m.(pc := m'.pc, sp := m'.sp, ram := m'.ram, cks := cks)
          && PushedOn(m, m', dev.pcSize, (m.pc + length) % 0x1_0000_0000))
  }

  lemma CallLeaves(dev: Device, m: Cpu, kind: CallKind, target: int)
    requires Wf(dev, m) && dev.pcSize < 4 && CallAccepted(dev, kind)
    requires ExecCall(dev, m, kind).pc == AdjustToMax(target, dev.pcMax)
    ensures Called(dev, m, ExecCall(dev, m, kind), if kind.Call? then 2 else 1, target, dev.pcSize + if kind.Call? then 2 else 1)
  {
    if PlainStack(dev, m.sp, dev.pcSize) {
      PushStores(dev, m, dev.pcSize, (m.pc + if kind.Call? then 2 else 1) % 0x1_0000_0000);
    }
  }

  lemma RcallLeaves(dev: Device, m: Cpu, k: bv16)
    requires Wf(dev, m) && dev.pcSize < 4 && k < 0x1000
    ensures Called(dev, m, ExecCall(dev, m, Rcall(D.Displacement12(k))), 1, m.pc + Signed12(k) + 1, dev.pcSize + 1)
  {
    DisplacementsAre(k);
    CallGoes(dev, m, Signed12(k), 0);
    CallLeaves(dev, m, Rcall(Signed12(k)), m.pc + Signed12(k) + 1);
  }

  lemma RcallWord(dev: Device, flash: seq<bv16>, m: Cpu, k: bv16)
    requires k < 0x1000 && WordNext(dev, flash, m, 0xd000 | k)
    ensures var r := FetchExec(dev, flash, m);
            r.Some? && Called(dev, m, r.value, 1, m.pc + Signed12(k) + 1, dev.pcSize + 1)
  {
    FetchesWord(dev, flash, m, D.Relative(D.RCALL, k));
    RcallLeaves(dev, m, k);
  }

  lemma IcallWord(dev: Device, flash: seq<bv16>, m: Cpu)
    requires WordNext(dev, flash, m, 0x9509)
    ensures var r := FetchExec(dev, flash, m); r.Some? && Called(dev, m, r.value, 1, Z(m), dev.pcSize + 1)
  {
    FetchesWord(dev, flash, m, D.NoOperand(D.ICALL));
    CallGoes(dev, m, 0, 0);
    CallLeaves(dev, m, Icall, Z(m));
  }

  lemma CallReads(dev: Device, flash: seq<bv16>, m: Cpu, high: nat)
    requires Wf(dev, m) && dev.pcSize < 4 && 0 <= m.pc < |flash|
    ensures var r := ExecuteCall(dev, flash, m, high);
            var second := m.pc + 1 < |flash|;
            var target := if second then high * 0x1_0000 + flash[m.pc + 1] as int else 0;
            && (r.Some? <==> second && !(dev.pcSize == 2 && target > 0xffff))
            && (r.Some? ==> Called(dev, m, r.value, 2, target, dev.pcSize + 2))
  {
    if m.pc + 1 < |flash| {
      var target := high * 0x1_0000 + flash[m.pc + 1] as int;
      if CallAccepted(dev, Call(target)) {
        CallGoes(dev, m, 0, target);
        CallLeaves(dev, m, Call(target), target);
      }
    }
  }

  /** The simulator stops where the second word is missing, and at a target its two-byte counter cannot hold. */
  lemma CallWord(dev: Device, flash: seq<bv16>, m: Cpu, k: bv16)
    requires k < 64 && WordNext(dev, flash, m, 0x940e | (((k & 0x3e) << 3) | (k & 0x1)))
    ensures var r := FetchExec(dev, flash, m);
            var second := m.pc + 1 < |flash|;
            var target := if second then k as int * 0x1_0000 + flash[m.pc + 1] as int else 0;
            && (r.Some? <==> second && !(dev.pcSize == 2 && target > 0xffff))
            && (r.Some? ==> Called(dev, m, r.value, 2, target, dev.pcSize + 2))
  {
    FetchesWord(dev, flash, m, D.Long(D.CALL, k));
    LongExecutes(dev, flash, m, D.CALL, k);
    CallReads(dev, flash, m, k as int);
  }

  // ----- jumps and branches -----

  lemma RjmpGoes(dev: Device, m: Cpu, k: bv16)
    requires Wf(dev, m) && k < 0x1000
    ensures ExecJump(dev, m, Rjmp(D.Displacement12(k))) == m.(pc := AdjustToMax(m.pc + Signed12(k) + 1, dev.pcMax), cks := 2)
  {
    DisplacementsAre(k);
  }

  lemma RjmpWord(dev: Device, flash: seq<bv16>, m: Cpu, k: bv16)
    requires k < 0x1000 && WordNext(dev, flash, m, 0xc000 | k)
    ensures FetchExec(dev, flash, m) == Some(m.(pc := AdjustToMax(m.pc + Signed12(k) + 1, dev.pcMax), cks := 2))
  {
    FetchesWord(dev, flash, m, D.Relative(D.RJMP, k));
    RjmpGoes(dev, m, k);
  }

  lemma IjmpGoes(dev: Device, flash: seq<bv16>, m: Cpu)
    requires Wf(dev, m) && dev.pcSize < 4 && 0 <= m.pc < |flash|
    ensures Execute(dev, flash, m, D.NoOperand(D.IJMP)) == Some(m.(pc := AdjustToMax(Z(m), dev.pcMax), cks := 2))
  {
  }

  lemma IjmpWord(dev: Device, flash: seq<bv16>, m: Cpu)
    requires WordNext(dev, flash, m, 0x9409)
    ensures FetchExec(dev, flash, m) == Some(m.(pc := AdjustToMax(Z(m), dev.pcMax), cks := 2))
  {
    FetchesWord(dev, flash, m, D.NoOperand(D.IJMP));
    IjmpGoes(dev, flash, m);
  }

  lemma JmpReads(dev: Device, flash: seq<bv16>, m: Cpu, high: nat)
    requires Wf(dev, m) && dev.pcSize < 4 && 0 <= m.pc < |flash|
    ensures ExecuteJump(dev, flash, m, high) ==
            if m.pc + 1 >= |flash| then None
            else Some(m.(pc := AdjustToMax(high * 0x1_0000 + flash[m.pc + 1] as int, dev.pcMax), cks := 3))
  {
  }

  lemma LongExecutes(dev: Device, flash: seq<bv16>, m: Cpu, op: D.LongOp, k: bv16)
    requires Wf(dev, m) && dev.pcSize < 4 && 0 <= m.pc < |flash| && k < 64
    ensures Execute(dev, flash, m, D.Long(op, k)) ==
            if op == D.CALL then ExecuteCall(dev, flash, m, k as int) else ExecuteJump(dev, flash, m, k as int)
  {
  }

  lemma JmpWord(dev: Device, flash: seq<bv16>, m: Cpu, k: bv16)
    requires k < 64 && WordNext(dev, flash, m, 0x940c | (((k & 0x3e) << 3) | (k & 0x1)))
    ensures FetchExec(dev, flash, m) ==
            if m.pc + 1 >= |flash| then None
            else Some(m.(pc := AdjustToMax(k as int * 0x1_0000 + flash[m.pc + 1] as int, dev.pcMax), cks := 3))
  {
    FetchesWord(dev, flash, m, D.Long(D.JMP, k));
    LongExecutes(dev, flash, m, D.JMP, k);
    JmpReads(dev, flash, m, k as int);
  }

  /** The flags by number. */
  function Flags(f: Sreg): (flags: seq<bool>)
    ensures |flags| == 8
  {
    [f.c, f.z, f.n, f.v, f.s, f.h, f.t, f.i]
  }

  /** A branch goes k words past the next one, or to the next one. */
  function Branched(dev: Device, m: Cpu, taken: bool, k: bv16): Cpu {
    m.(pc := AdjustToMax(m.pc + 1 + if taken then Signed7(k) else 0, dev.pcMax), cks := if taken then 2 else 1)
  }

  lemma BranchGoes(dev: Device, m: Cpu, whenSet: bool, s: nat, k: bv16)
    requires Wf(dev, m) && s < 8 && k < 128
    ensures ExecBranch(dev, m, whenSet, s, D.Displacement7(k)) == Branched(dev, m, Flags(m.sreg)[s] == whenSet, k)
  {
    DisplacementsAre(k);
  }

  lemma FieldBound(s: bv16)
    requires s < 8
    ensures s as int < 8
  {
  }

  lemma BranchExecutes(dev: Device, flash: seq<bv16>, m: Cpu, op: D.BranchOp, s: bv16, k: bv16)
    requires Wf(dev, m) && dev.pcSize < 4 && 0 <= m.pc < |flash| && s < 8 && k < 128
    ensures Execute(dev, flash, m, D.Branch(op, s, k)) == Some(ExecBranch(dev, m, op == D.BRBS, s as int, D.Displacement7(k)))
  {
  }

  lemma BranchWord(dev: Device, flash: seq<bv16>, m: Cpu, op: D.BranchOp, s: bv16, k: bv16)
    requires s < 8 && k < 128 && WordNext(dev, flash, m, D.Encode(D.Branch(op, s, k)))
    ensures s as int < 8
    ensures FetchExec(dev, flash, m) == Some(Branched(dev, m, Flags(m.sreg)[s as int] == (op == D.BRBS), k))
  {
    FetchesWord(dev, flash, m, D.Branch(op, s, k));
    BranchExecutes(dev, flash, m, op, s, k);
    FieldBound(s);
    BranchGoes(dev, m, op == D.BRBS, s as int, k);
  }

  lemma BranchEncoded(s: bv16, k: bv16)
    ensures D.Encode(D.Branch(D.BRBS, s, k)) == 0xf000 | ((k << 3) | s)
    ensures D.Encode(D.Branch(D.BRBC, s, k)) == 0xf400 | ((k << 3) | s)
  {
  }

  /** Branch if flag s is set: C, Z, N, V, S, H, T, I from 0 to 7. */
  lemma BrbsWord(dev: Device, flash: seq<bv16>, m: Cpu, s: bv16, k: bv16)
    requires s < 8 && k < 128 && WordNext(dev, flash, m, 0xf000 | ((k << 3) | s))
    ensures s as int < 8
    ensures FetchExec(dev, flash, m) == Some(Branched(dev, m, Flags(m.sreg)[s as int], k))
  {
    BranchEncoded(s, k);
    BranchWord(dev, flash, m, D.BRBS, s, k);
  }

  /** Branch if it is clear. */
  lemma BrbcWord(dev: Device, flash: seq<bv16>, m: Cpu, s: bv16, k: bv16)
    requires s < 8 && k < 128 && WordNext(dev, flash, m, 0xf400 | ((k << 3) | s))
    ensures s as int < 8
    ensures FetchExec(dev, flash, m) == Some(Branched(dev, m, !Flags(m.sreg)[s as int], k))
  {
    BranchEncoded(s, k);
    BranchWord(dev, flash, m, D.BRBC, s, k);
  }

  // ----- returns, PUSH and POP -----

  /** The numbers of two and three bytes above sp, highest byte first. */
  function TwoAbove(ram: seq<byte>, sp: nat): int
    requires sp + 2 < |ram|
  {
    var high: int, low: int := ram[sp + 1], ram[sp + 2];
    0x100 * high + low
  }

  function ThreeAbove(ram: seq<byte>, sp: nat): int
    requires sp + 3 < |ram|
  {
    var high: int := ram[sp + 1];
    0x1_0000 * high + TwoAbove(ram, sp + 1)
  }

  /** The cells above sp, n of them, are plain. */
  ghost predicate PlainAbove(dev: Device, sp: nat, n: nat) {
    sp + n <= 0xffff && sp + n < |dev.cells| && forall a :: sp < a <= sp + n ==> PlainCell(dev, a)
  }

  lemma PopReadsOne(dev: Device, m: Cpu, sp: word, n: nat)
    requires Wf(dev, m) && n > 0 && PlainAbove(dev, sp, n)
    ensures PopFrom(dev, m, sp, n) == Weighted(m.ram[sp + 1], n - 1) + PopFrom(dev, m, sp + 1, n - 1)
  {
    ReadPlain(dev, m, sp + 1);
  }

  lemma PopReads(dev: Device, m: Cpu, sp: word)
    requires Wf(dev, m)
    ensures PlainAbove(dev, sp, 1) ==> PopFrom(dev, m, sp, 1) == m.ram[sp + 1]
    ensures PlainAbove(dev, sp, 2) ==> PopFrom(dev, m, sp, 2) == TwoAbove(m.ram, sp)
    ensures PlainAbove(dev, sp, 3) ==> PopFrom(dev, m, sp, 3) == ThreeAbove(m.ram, sp)
  {
    assert Pow256(0) == 1 && Pow256(1) == 0x100 && Pow256(2) == 0x1_0000;
    if PlainAbove(dev, sp, 1) {
      PopReadsOne(dev, m, sp, 1);
    }
    if PlainAbove(dev, sp, 2) {
      PopReadsOne(dev, m, sp, 2);
      PopReadsOne(dev, m, sp + 1, 1);
    }
    if PlainAbove(dev, sp, 3) {
      PopReadsOne(dev, m, sp, 3);
      PopReadsOne(dev, m, sp + 1, 2);
      PopReadsOne(dev, m, sp + 2, 1);
    }
  }

  lemma RetLeaves(dev: Device, m: Cpu)
    requires Wf(dev, m) && dev.pcSize < 4 && PlainAbove(dev, m.sp, dev.pcSize)
    ensures dev.pcSize == 2 ==>
              ExecRet(dev, m) == m.(pc := AdjustToMax(TwoAbove(m.ram, m.sp), dev.pcMax), sp := m.sp + 2, cks := 4)
    ensures dev.pcSize == 3 ==>
              ExecRet(dev, m) == m.(pc := AdjustToMax(ThreeAbove(m.ram, m.sp), dev.pcMax), sp := m.sp + 3, cks := 5)
  {
    LoweredRaised(m.sp, dev.pcSize);
    PopReads(dev, m, m.sp);
  }

  lemma RetWord(dev: Device, flash: seq<bv16>, m: Cpu)
    requires WordNext(dev, flash, m, 0x9508) && PlainAbove(dev, m.sp, dev.pcSize)
    ensures dev.pcSize == 2 ==>
              FetchExec(dev, flash, m) == Some(m.(pc := AdjustToMax(TwoAbove(m.ram, m.sp), dev.pcMax), sp := m.sp + 2, cks := 4))
    ensures dev.pcSize == 3 ==>
              FetchExec(dev, flash, m) == Some(m.(pc := AdjustToMax(ThreeAbove(m.ram, m.sp), dev.pcMax), sp := m.sp + 3, cks := 5))
  {
    FetchesWord(dev, flash, m, D.NoOperand(D.RET));
    RetLeaves(dev, m);
  }

  lemma RetiLeaves(dev: Device, flash: seq<bv16>, m: Cpu)
    requires Wf(dev, m) && dev.pcSize < 4 && 0 <= m.pc < |flash| && PlainAbove(dev, m.sp, dev.pcSize)
    ensures dev.pcSize == 2 ==>
              Execute(dev, flash, m, D.NoOperand(D.RETI)) ==
              Some(m.(pc := AdjustToMax(TwoAbove(m.ram, m.sp), dev.pcMax), sp := m.sp + 2, cks := 4, sreg := m.sreg.(i := true)))
    ensures dev.pcSize == 3 ==>
              Execute(dev, flash, m, D.NoOperand(D.RETI)) ==
              Some(m.(pc := AdjustToMax(ThreeAbove(m.ram, m.sp), dev.pcMax), sp := m.sp + 3, cks := 5, sreg := m.sreg.(i := true)))
  {
    RetLeaves(dev, m);
  }

  /** RETI does what RET does and enables interrupts. */
  lemma RetiWord(dev: Device, flash: seq<bv16>, m: Cpu)
    requires WordNext(dev, flash, m, 0x9518) && PlainAbove(dev, m.sp, dev.pcSize)
    ensures dev.pcSize == 2 ==>
              FetchExec(dev, flash, m) == Some(m.(pc := AdjustToMax(TwoAbove(m.ram, m.sp), dev.pcMax), sp := m.sp + 2, cks := 4, sreg := m.sreg.(i := true)))
    ensures dev.pcSize == 3 ==>
              FetchExec(dev, flash, m) == Some(m.(pc := AdjustToMax(ThreeAbove(m.ram, m.sp), dev.pcMax), sp := m.sp + 3, cks := 5, sreg := m.sreg.(i := true)))
  {
    FetchesWord(dev, flash, m, D.NoOperand(D.RETI));
    RetiLeaves(dev, flash, m);
  }

  lemma PushLeaves(dev: Device, m: Cpu, d: nat)
    requires Wf(dev, m) && d < 32 && PlainStack(dev, m.sp, 1)
    ensures m.sp < |m.ram| && ExecPush(dev, m, d) ==
            m.(ram := m.ram[m.sp := m.regs[d]], sp := m.sp - 1, pc := AdjustToMax(m.pc + 1, dev.pcMax), cks := 2)
  {
    assert PlainCell(dev, m.sp);
    WritePlain(dev, m, m.sp, m.regs[d]);
    LoweredRaised(m.sp, 1);
    assert PushFrom(dev, m, m.sp, 1, m.regs[d]) == Write(dev, m, m.sp, m.regs[d] % 256);
  }

  lemma PushWord(dev: Device, flash: seq<bv16>, m: Cpu, d: bv16)
    requires d < 32 && WordNext(dev, flash, m, 0x920f | (d << 4)) && PlainStack(dev, m.sp, 1)
    ensures m.sp < |m.ram| && FetchExec(dev, flash, m) ==
            Some(m.(ram := m.ram[m.sp := m.regs[d as int]], sp := m.sp - 1, pc := AdjustToMax(m.pc + 1, dev.pcMax), cks := 2))
  {
    FetchesWord(dev, flash, m, D.OneReg(D.PUSH, d));
    PushLeaves(dev, m, d as int);
  }

  lemma PopLeaves(dev: Device, m: Cpu, d: nat)
    requires Wf(dev, m) && d < 32 && PlainAbove(dev, m.sp, 1)
    ensures ExecPop(dev, m, d) ==
            m.(regs := m.regs[d := m.ram[m.sp + 1]], sp := m.sp + 1, pc := AdjustToMax(m.pc + 1, dev.pcMax), cks := 2)
  {
    PopReads(dev, m, m.sp);
    LoweredRaised(m.sp, 1);
  }

  lemma PopWord(dev: Device, flash: seq<bv16>, m: Cpu, d: bv16)
    requires d < 32 && WordNext(dev, flash, m, 0x900f | (d << 4)) && PlainAbove(dev, m.sp, 1)
    ensures FetchExec(dev, flash, m) ==
            Some(m.(regs := m.regs[d as int := m.ram[m.sp + 1]], sp := m.sp + 1, pc := AdjustToMax(m.pc + 1, dev.pcMax), cks := 2))
  {
    FetchesWord(dev, flash, m, D.OneReg(D.POP, d));
    PopLeaves(dev, m, d as int);
  }

  // ----- arithmetic -----

  /** m' is m with these registers and this status register, one word on, so many clocks later. */
  ghost predicate Stepped(dev: Device, m: Cpu, m': Cpu, regs: seq<byte>, cks: nat) {
    m' == m.(regs := regs, sreg := m'.sreg, pc := AdjustToMax(m.pc + 1, dev.pcMax), cks := cks)
  }

  /** The flags of an addition of two bytes and a carry, in integers. */
  ghost predicate SumFlags(f: Sreg, g: Sreg, rd: byte, rr: byte, c: nat) {
    var sum: int, signedSum := rd + rr + c, SignedByte(rd) + SignedByte(rr) + c;
    && (g.c <==> sum >= 256) && (g.z <==> sum % 256 == 0) && (g.n <==> sum % 256 >= 128)
    && (g.v <==> !(-128 <= signedSum < 128)) && (g.s <==> signedSum < 0)
    && (g.h <==> rd % 16 + rr % 16 + c >= 16) && g.t == f.t && g.i == f.i
  }

  /** The flags of a subtraction of a byte and a borrow; sticky says whether Z needs to have been set. */
  ghost predicate DifferenceFlags(f: Sreg, g: Sreg, rd: byte, rr: byte, c: nat, sticky: bool) {
    var diff: int, signedDiff := rd - rr - c, SignedByte(rd) - SignedByte(rr) - c;
    && (g.c <==> diff < 0) && (g.z <==> diff % 256 == 0 && (sticky ==> f.z)) && (g.n <==> diff % 256 >= 128)
    && (g.v <==> !(-128 <= signedDiff < 128)) && (g.s <==> signedDiff < 0)
    && (g.h <==> rd % 16 < rr % 16 + c) && g.t == f.t && g.i == f.i
  }

  /** The carry as an operand, where it is used. */
  function Carry(used: bool, f: Sreg): nat {
    if used && f.c then 1 else 0
  }

  lemma SumMeans(dev: Device, m: Cpu, carry: bool, d: nat, r: nat) returns (m': Cpu)
    requires Wf(dev, m) && d < 32 && r < 32
    ensures m' == ExecArith(dev, m, if carry then AdcOp else AddOp, d, r)
    ensures Stepped(dev, m, m', m.regs[d := (m.regs[d] + m.regs[r] + Carry(carry, m.sreg)) % 256], 1)
    ensures SumFlags(m.sreg, m'.sreg, m.regs[d], m.regs[r], Carry(carry, m.sreg))
  {
    m' := ExecArith(dev, m, if carry then AdcOp else AddOp, d, r);
    FullAdder(m.regs[d], m.regs[r], Carry(carry, m.sreg), m.sreg);
  }

  lemma DifferenceMeans(dev: Device, m: Cpu, carry: bool, d: nat, r: nat) returns (m': Cpu)
    requires Wf(dev, m) && d < 32 && r < 32
    ensures m' == ExecArith(dev, m, if carry then SbcOp else SubOp, d, r)
    ensures Stepped(dev, m, m', m.regs[d := (m.regs[d] - m.regs[r] - Carry(carry, m.sreg)) % 256], 1)
    ensures DifferenceFlags(m.sreg, m'.sreg, m.regs[d], m.regs[r], Carry(carry, m.sreg), carry)
  {
    m' := ExecArith(dev, m, if carry then SbcOp else SubOp, d, r);
    FullSubtractor(m.regs[d], m.regs[r], Carry(carry, m.sreg), m.sreg);
  }

  lemma ComparisonMeans(dev: Device, m: Cpu, carry: bool, d: nat, r: nat) returns (m': Cpu)
    requires Wf(dev, m) && d < 32 && r < 32
    ensures m' == ExecCompare(dev, m, if carry then CpcOp else CpOp, d, r)
    ensures Stepped(dev, m, m', m.regs, 1)
    ensures DifferenceFlags(m.sreg, m'.sreg, m.regs[d], m.regs[r], Carry(carry, m.sreg), carry)
  {
    m' := ExecCompare(dev, m, if carry then CpcOp else CpOp, d, r);
    FullSubtractor(m.regs[d], m.regs[r], Carry(carry, m.sreg), m.sreg);
  }

  /** MOV copies a register. */
  lemma CopyMeans(dev: Device, m: Cpu, d: nat, r: nat)
    requires Wf(dev, m) && d < 32 && r < 32
    ensures ExecMov(dev, m, d, r) == m.(regs := m.regs[d := m.regs[r]], pc := AdjustToMax(m.pc + 1, dev.pcMax), cks := 1)
  {
  }

  /** Z for a zero product, and C for its top bit. */
  ghost predicate ProductLeft(m: Cpu, m': Cpu, rd: int, rr: int)
    requires |m.regs| == |m'.regs| == 32
  {
    var low: int, high: int := m'.regs[0], m'.regs[1];
    && m'.regs[2..] == m.regs[2..] && low + 256 * high == rd * rr
    && m'.sreg == m.sreg.(z := rd * rr == 0, c := rd * rr >= 32768)
  }

  lemma ProductMeans(dev: Device, m: Cpu, d: nat, r: nat) returns (m': Cpu)
    requires Wf(dev, m) && d < 32 && r < 32
    ensures m' == ExecMul(dev, m, d, r) && Wf(dev, m')
    ensures Stepped(dev, m, m', m'.regs, 2) && ProductLeft(m, m', m.regs[d], m.regs[r])
  {
    ProductIsWord(m.regs[d], m.regs[r]);
    m' := ExecMul(dev, m, d, r);
  }

  // The words of these instructions; what their handlers leave is said above.

  lemma AddEncoded(d: bv16, r: bv16)
    ensures D.Encode(D.TwoReg(D.ADD, d, r)) == 0x0c00 | ((d << 4) | (r & 0xf) | ((r & 0x10) << 5))
  {
  }

  lemma AddWord(dev: Device, flash: seq<bv16>, m: Cpu, d: bv16, r: bv16)
    requires d < 32 && r < 32 && WordNext(dev, flash, m, 0x0c00 | ((d << 4) | (r & 0xf) | ((r & 0x10) << 5)))
    ensures FetchExec(dev, flash, m) == Some(ExecArith(dev, m, AddOp, d as int, r as int))
  {
    AddEncoded(d, r);
    FetchesWord(dev, flash, m, D.TwoReg(D.ADD, d, r));
  }

  lemma AdcEncoded(d: bv16, r: bv16)
    ensures D.Encode(D.TwoReg(D.ADC, d, r)) == 0x1c00 | ((d << 4) | (r & 0xf) | ((r & 0x10) << 5))
  {
  }

  lemma AdcWord(dev: Device, flash: seq<bv16>, m: Cpu, d: bv16, r: bv16)
    requires d < 32 && r < 32 && WordNext(dev, flash, m, 0x1c00 | ((d << 4) | (r & 0xf) | ((r & 0x10) << 5)))
    ensures FetchExec(dev, flash, m) == Some(ExecArith(dev, m, AdcOp, d as int, r as int))
  {
    AdcEncoded(d, r);
    FetchesWord(dev, flash, m, D.TwoReg(D.ADC, d, r));
  }

  lemma SubEncoded(d: bv16, r: bv16)
    ensures D.Encode(D.TwoReg(D.SUB, d, r)) == 0x1800 | ((d << 4) | (r & 0xf) | ((r & 0x10) << 5))
  {
  }

  lemma SubWord(dev: Device, flash: seq<bv16>, m: Cpu, d: bv16, r: bv16)
    requires d < 32 && r < 32 && WordNext(dev, flash, m, 0x1800 | ((d << 4) | (r & 0xf) | ((r & 0x10) << 5)))
    ensures FetchExec(dev, flash, m) == Some(ExecArith(dev, m, SubOp, d as int, r as int))
  {
    SubEncoded(d, r);
    FetchesWord(dev, flash, m, D.TwoReg(D.SUB, d, r));
  }

  lemma SbcEncoded(d: bv16, r: bv16)
    ensures D.Encode(D.TwoReg(D.SBC, d, r)) == 0x0800 | ((d << 4) | (r & 0xf) | ((r & 0x10) << 5))
  {
  }

  lemma SbcWord(dev: Device, flash: seq<bv16>, m: Cpu, d: bv16, r: bv16)
    requires d < 32 && r < 32 && WordNext(dev, flash, m, 0x0800 | ((d << 4) | (r & 0xf) | ((r & 0x10) << 5)))
    ensures FetchExec(dev, flash, m) == Some(ExecArith(dev, m, SbcOp, d as int, r as int))
  {
    SbcEncoded(d, r);
    FetchesWord(dev, flash, m, D.TwoReg(D.SBC, d, r));
  }

  lemma CpEncoded(d: bv16, r: bv16)
    ensures D.Encode(D.TwoReg(D.CP, d, r)) == 0x1400 | ((d << 4) | (r & 0xf) | ((r & 0x10) << 5))
  {
  }

  lemma CpWord(dev: Device, flash: seq<bv16>, m: Cpu, d: bv16, r: bv16)
    requires d < 32 && r < 32 && WordNext(dev, flash, m, 0x1400 | ((d << 4) | (r & 0xf) | ((r & 0x10) << 5)))
    ensures FetchExec(dev, flash, m) == Some(ExecCompare(dev, m, CpOp, d as int, r as int))
  {
    CpEncoded(d, r);
    FetchesWord(dev, flash, m, D.TwoReg(D.CP, d, r));
  }

  lemma CpcEncoded(d: bv16, r: bv16)
    ensures D.Encode(D.TwoReg(D.CPC, d, r)) == 0x0400 | ((d << 4) | (r & 0xf) | ((r & 0x10) << 5))
  {
  }

  lemma CpcWord(dev: Device, flash: seq<bv16>, m: Cpu, d: bv16, r: bv16)
    requires d < 32 && r < 32 && WordNext(dev, flash, m, 0x0400 | ((d << 4) | (r & 0xf) | ((r & 0x10) << 5)))
    ensures FetchExec(dev, flash, m) == Some(ExecCompare(dev, m, CpcOp, d as int, r as int))
  {
    CpcEncoded(d, r);
    FetchesWord(dev, flash, m, D.TwoReg(D.CPC, d, r));
  }

  lemma MulEncoded(d: bv16, r: bv16)
    ensures D.Encode(D.TwoReg(D.MUL, d, r)) == 0x9c00 | ((d << 4) | (r & 0xf) | ((r & 0x10) << 5))
  {
  }

  lemma MulWord(dev: Device, flash: seq<bv16>, m: Cpu, d: bv16, r: bv16)
    requires d < 32 && r < 32 && WordNext(dev, flash, m, 0x9c00 | ((d << 4) | (r & 0xf) | ((r & 0x10) << 5)))
    ensures FetchExec(dev, flash, m) == Some(ExecMul(dev, m, d as int, r as int))
  {
    MulEncoded(d, r);
    FetchesWord(dev, flash, m, D.TwoReg(D.MUL, d, r));
  }

  lemma MovEncoded(d: bv16, r: bv16)
    ensures D.Encode(D.TwoReg(D.MOV, d, r)) == 0x2c00 | ((d << 4) | (r & 0xf) | ((r & 0x10) << 5))
  {
  }

  lemma MovWord(dev: Device, flash: seq<bv16>, m: Cpu, d: bv16, r: bv16)
    requires d < 32 && r < 32 && WordNext(dev, flash, m, 0x2c00 | ((d << 4) | (r & 0xf) | ((r & 0x10) << 5)))
    ensures FetchExec(dev, flash, m) == Some(ExecMov(dev, m, d as int, r as int))
  {
    MovEncoded(d, r);
    FetchesWord(dev, flash, m, D.TwoReg(D.MOV, d, r));
  }

  // ----- fetching and whole runs -----

  /** The instruction leads to next, its branch taken or not. */
  ghost predicate Leads(i: D.Instr, flash: seq<bv16>, pc: nat, size: int, next: int) {
    var second, two, target := Program.WordAfter(flash, pc), Program.TwoWordsAfter(Program.Avr(), flash, pc), Program.StaticTarget();
    Program.LeadsBy(i, pc, second, two, true, target, size, next) || Program.LeadsBy(i, pc, second, two, false, target, size, next)
  }

  /** An instruction that goes on to the next word. */
  lemma OnLeads(i: D.Instr, flash: seq<bv16>, pc: nat, size: int)
    requires i.TwoReg? || i.OneReg?
    requires !Program.IsSkip(i) && !Program.IsTwoWord(i)
    ensures Leads(i, flash, pc, size, AdjustToMax(pc + 1, size))
  {
  }

  lemma TwoRegOn(dev: Device, m: Cpu, op: D.TwoRegOp, d: nat, r: nat)
    requires Wf(dev, m) && d < 32 && r < 32
    ensures var m' := ExecuteTwoReg(dev, m, op, d, r);
            m'.Some? ==> op != D.CPSE && m'.value.pc == AdjustToMax(m.pc + 1, dev.pcMax)
  {
  }

  lemma OneRegOn(dev: Device, m: Cpu, op: D.OneRegOp, d: nat)
    requires Wf(dev, m) && d < 32
    ensures var m' := ExecuteOneReg(dev, m, op, d);
            m'.Some? ==> op != D.LDS && op != D.STS && m'.value.pc == AdjustToMax(m.pc + 1, dev.pcMax)
  {
  }

  lemma TwoRegLeads(dev: Device, flash: seq<bv16>, m: Cpu, op: D.TwoRegOp, d: bv16, r: bv16)
    requires Wf(dev, m) && m.pc >= 0 && d < 32 && r < 32
    ensures var m' := ExecuteTwoReg(dev, m, op, d as int, r as int);
            m'.Some? ==> Leads(D.TwoReg(op, d, r), flash, m.pc, dev.pcMax, m'.value.pc)
  {
    TwoRegOn(dev, m, op, d as int, r as int);
    if op != D.CPSE {
      OnLeads(D.TwoReg(op, d, r), flash, m.pc, dev.pcMax);
    }
  }

  lemma OneRegLeads(dev: Device, flash: seq<bv16>, m: Cpu, op: D.OneRegOp, d: bv16)
    requires Wf(dev, m) && m.pc >= 0 && d < 32
    ensures var m' := ExecuteOneReg(dev, m, op, d as int);
            m'.Some? ==> Leads(D.OneReg(op, d), flash, m.pc, dev.pcMax, m'.value.pc)
  {
    OneRegOn(dev, m, op, d as int);
    if op != D.LDS && op != D.STS {
      OnLeads(D.OneReg(op, d), flash, m.pc, dev.pcMax);
    }
  }

  lemma LongGoes(dev: Device, flash: seq<bv16>, m: Cpu, k: bv16)
    requires Wf(dev, m) && dev.pcSize < 4 && 0 <= m.pc < |flash| && k < 64
    ensures var m' := ExecuteCall(dev, flash, m, k as int);
            m'.Some? ==> m.pc + 1 < |flash| && m'.value.pc == AdjustToMax(Program.LongTarget(k, flash[m.pc + 1]), dev.pcMax)
    ensures var m' := ExecuteJump(dev, flash, m, k as int);
            m'.Some? ==> m.pc + 1 < |flash| && m'.value.pc == AdjustToMax(Program.LongTarget(k, flash[m.pc + 1]), dev.pcMax)
  {
    CallReads(dev, flash, m, k as int);
    JmpReads(dev, flash, m, k as int);
  }

  /** A long jump or call leads where its two words say. */
  lemma TargetLeads(flash: seq<bv16>, op: D.LongOp, k: bv16, pc: nat, size: int)
    requires pc + 1 < |flash|
    ensures Leads(D.Long(op, k), flash, pc, size, AdjustToMax(Program.LongTarget(k, flash[pc + 1]), size))
  {
  }

  lemma LongLeads(dev: Device, flash: seq<bv16>, m: Cpu, op: D.LongOp, k: bv16)
    requires Wf(dev, m) && dev.pcSize < 4 && 0 <= m.pc < |flash| && k < 64
    ensures var m' := Execute(dev, flash, m, D.Long(op, k));
            m'.Some? ==> Leads(D.Long(op, k), flash, m.pc, dev.pcMax, m'.value.pc)
  {
    LongExecutes(dev, flash, m, op, k);
    LongGoes(dev, flash, m, k);
    if m.pc + 1 < |flash| {
      TargetLeads(flash, op, k, m.pc, dev.pcMax);
    }
  }

  lemma RelativeLeads(dev: Device, flash: seq<bv16>, m: Cpu, op: D.RelativeOp, k: bv16)
    requires Wf(dev, m) && dev.pcSize < 4 && 0 <= m.pc < |flash| && k < 0x1000
    requires Execute(dev, flash, m, D.Relative(op, k)).Some?
    ensures Leads(D.Relative(op, k), flash, m.pc, dev.pcMax, Execute(dev, flash, m, D.Relative(op, k)).value.pc)
  {
  }

  lemma BranchLeads(dev: Device, flash: seq<bv16>, m: Cpu, op: D.BranchOp, s: bv16, k: bv16)
    requires Wf(dev, m) && dev.pcSize < 4 && 0 <= m.pc < |flash| && s < 8 && k < 128
    ensures Execute(dev, flash, m, D.Branch(op, s, k)).Some?
    ensures Leads(D.Branch(op, s, k), flash, m.pc, dev.pcMax, Execute(dev, flash, m, D.Branch(op, s, k)).value.pc)
  {
  }

  lemma ExecuteLeads(dev: Device, flash: seq<bv16>, m: Cpu, i: D.Instr)
    requires Wf(dev, m) && dev.pcSize < 4 && 0 <= m.pc < |flash| && D.Valid(i)
    requires Execute(dev, flash, m, i).Some?
    ensures Leads(i, flash, m.pc, dev.pcMax, Execute(dev, flash, m, i).value.pc)
  {
    match i
    case TwoReg(op, d, r) => TwoRegLeads(dev, flash, m, op, d, r);
    case OneReg(op, d) => OneRegLeads(dev, flash, m, op, d);
    case Branch(op, s, k) => BranchLeads(dev, flash, m, op, s, k);
    case Relative(op, k) => RelativeLeads(dev, flash, m, op, k);
    case Long(op, k) => LongLeads(dev, flash, m, op, k);
    case NoOperand(op) =>
  }

  /** Every fetch goes where the runs of a program say it may. */
  lemma FetchLeads(dev: Device, flash: seq<bv16>, m: Cpu)
    requires Wf(dev, m) && dev.pcSize < 4 && FetchExec(dev, flash, m).Some?
    ensures 0 <= m.pc < |flash| && Leads(D.Decode(flash[m.pc]), flash, m.pc, dev.pcMax, FetchExec(dev, flash, m).value.pc)
  {
    DecoderInverse.EncodeDecode(flash[m.pc]);
    ExecuteLeads(dev, flash, m, D.Decode(flash[m.pc]));
  }
}
