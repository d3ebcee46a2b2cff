/**
 Fetching an instruction word from flash, decoding it and executing it; and what whole programs of
 instruction words do.
 */
module FetchExecute {
  import opened Bytes
  import opened Wrappers
  import opened Memory
  import opened Instructions
  import Branches
  import D = Decoder
  import DecoderInverse

  lemma Complement7(k: bv16)
    requires k < 128
    ensures (!k & 0x7f) as int == 0x7f - k as int
  {
    assert !k & 0x7f == 0x7f - k;
  }

  lemma Complement6(k: bv16)
    requires k < 64
    ensures (!k & 0x3f) as int == 0x3f - k as int
  {
  }

  /** A field of 12 bits in halves. */
  lemma Halves(k: bv16)
    requires k < 4096
    ensures k >> 6 < 64 && k & 0x3f < 64
    ensures k as int == (k >> 6) as int * 64 + (k & 0x3f) as int
  {
  }

  lemma ComplementHalves(k: bv16)
    requires k < 4096
    ensures !k & 0xfff < 4096
    ensures (!k & 0xfff) >> 6 == !(k >> 6) & 0x3f && (!k & 0xfff) & 0x3f == !(k & 0x3f) & 0x3f
  {
  }

  lemma Complement12(k: bv16)
    requires k < 4096
    ensures (!k & 0xfff) as int == 0xfff - k as int
  {
    Halves(k);
    ComplementHalves(k);
    Halves(!k & 0xfff);
    Complement6(k >> 6);
    Complement6(k & 0x3f);
  }

  lemma SignBit7(k: bv16)
    requires k < 128
    ensures k & 0x40 == 0 <==> k as int < 64
  {
    assert k & 0x40 == 0 <==> k < 64;
  }

  lemma SignBit12(k: bv16)
    requires k < 4096
    ensures k & 0x800 == 0 <==> k as int < 2048
  {
    assert k & 0x800 == 0 <==> k < 2048;
  }

  /** The displacements are the fields less their full range where the top bit is set. */
  lemma DisplacementsAre(k: bv16)
    ensures k < 128 ==> D.Displacement7(k) == if k as int < 64 then k as int else k as int - 128
    ensures k < 4096 ==> D.Displacement12(k) == if k as int < 2048 then k as int else k as int - 4096
  {
    if k < 128 {
      Complement7(k);
      SignBit7(k);
    }
    if k < 4096 {
      Complement12(k);
      SignBit12(k);
    }
  }

  /** The target of the CALL or JMP at pc with these high bits; the others are in the next word. */
  function LongTarget(flash: seq<bv16>, pc: nat, high: nat): nat
    requires pc + 1 < |flash|
  {
    high * 0x1_0000 + flash[pc + 1] as int
  }

  function LongCall(flash: seq<bv16>, pc: nat, high: nat): CallKind
    requires pc + 1 < |flash|
  {
    Call(LongTarget(flash, pc, high))
  }

  function ExecuteJump(dev: Device, flash: seq<bv16>, m: Cpu, high: nat): (r: Option<Cpu>)
    requires Wf(dev, m) && dev.pcSize < 4 && 0 <= m.pc < |flash|
    ensures r.Some? ==> Wf(dev, r.value)
  {
    if m.pc + 1 >= |flash| then None else Some(ExecJump(dev, m, Jmp(LongTarget(flash, m.pc, high))))
  }

  function ExecuteCall(dev: Device, flash: seq<bv16>, m: Cpu, high: nat): (r: Option<Cpu>)
    requires Wf(dev, m) && dev.pcSize < 4 && 0 <= m.pc < |flash|
    ensures r.Some? ==> Wf(dev, r.value)
  {
    if m.pc + 1 >= |flash| then None
    else
      var kind := LongCall(flash, m.pc, high);
      if CallAccepted(dev, kind) then Some(ExecCall(dev, m, kind)) else None
  }

  function ExecuteOneReg(dev: Device, m: Cpu, op: D.OneRegOp, d: nat): (r: Option<Cpu>)
    requires Wf(dev, m) && d < 32
    ensures r.Some? ==> Wf(dev, r.value)
  {
    if op == D.PUSH then Some(ExecPush(dev, m, d))
    else if op == D.POP then Some(ExecPop(dev, m, d))
    else None
  }

  function ExecuteNoOperand(dev: Device, m: Cpu, op: D.NoOperandOp): (r: Option<Cpu>)
    requires Wf(dev, m) && dev.pcSize < 4
    ensures r.Some? ==> Wf(dev, r.value)
  {
    if op == D.ICALL then Some(ExecCall(dev, m, Icall))
    else if op == D.IJMP then Some(ExecJump(dev, m, Ijmp))
    else if op == D.RET then Some(ExecRet(dev, m))
    else if op == D.RETI then Some(ExecReti(dev, m))
    else None
  }

  /** Execute a decoded instruction; None for instructions outside the model and where the simulator stops. */
  function Execute(dev: Device, flash: seq<bv16>, m: Cpu, i: D.Instr): (r: Option<Cpu>)
    requires Wf(dev, m) && dev.pcSize < 4 && 0 <= m.pc < |flash| && D.Valid(i)
    ensures r.Some? ==> Wf(dev, r.value)
  {
    match i
    case TwoReg(op, d, r) => ExecuteTwoReg(dev, m, op, d as int, r as int)
    case OneReg(op, d) => ExecuteOneReg(dev, m, op, d as int)
    case Branch(op, s, k) => Some(ExecBranch(dev, m, op == D.BRBS, s as int, D.Displacement7(k)))
    case Relative(op, k) =>
      if op == D.RCALL then Some(ExecCall(dev, m, Rcall(D.Displacement12(k))))
      else Some(ExecJump(dev, m, Rjmp(D.Displacement12(k))))
    case Long(op, k) => if op == D.CALL then ExecuteCall(dev, flash, m, k as int) else ExecuteJump(dev, flash, m, k as int)
    case NoOperand(op) => ExecuteNoOperand(dev, m, op)
    case _ => None
  }

  function ExecuteTwoReg(dev: Device, m: Cpu, op: D.TwoRegOp, d: nat, r: nat): (r': Option<Cpu>)
    requires Wf(dev, m) && d < 32 && r < 32
    ensures r'.Some? ==> Wf(dev, r'.value)
  {
    match op
    case ADD => Some(ExecArith(dev, m, AddOp, d, r))
    case ADC => Some(ExecArith(dev, m, AdcOp, d, r))
    case SUB => Some(ExecArith(dev, m, SubOp, d, r))
    case SBC => Some(ExecArith(dev, m, SbcOp, d, r))
    case CP => Some(ExecCompare(dev, m, CpOp, d, r))
    case CPC => Some(ExecCompare(dev, m, CpcOp, d, r))
    case MUL => Some(ExecMul(dev, m, d, r))
    case MOV => Some(ExecMov(dev, m, d, r))
    case _ => None
  }

  /** Fetch the word at the program counter, decode it and execute it. */
  function FetchExec(dev: Device, flash: seq<bv16>, m: Cpu): (r: Option<Cpu>)
    requires Wf(dev, m) && dev.pcSize < 4
    ensures r.Some? ==> Wf(dev, r.value)
  {
    if !(0 <= m.pc < |flash|) then None
    else
      var w := flash[m.pc];
      var i := D.Decode(w);
      if i == D.Unknown then None
      else
        DecoderInverse.EncodeDecode(w);
        Execute(dev, flash, m, i)
  }

  /** A way to perform the next instruction; None where there is none. */
  type Next = Cpu -> Option<Cpu>

  /** Fetching and executing from flash. */
  ghost function Fetching(dev: Device, flash: seq<bv16>): Next
    requires dev.pcSize < 4
  {
    (m: Cpu) => if Wf(dev, m) then FetchExec(dev, flash, m) else None
  }

  /** n instructions. */
  function Run(next: Next, m: Cpu, n: nat): Option<Cpu>
    decreases n
  {
    if n == 0 then Some(m)
    else
      match next(m)
      case None => None
      case Some(m1) => Run(next, m1, n - 1)
  }

  predicate HasWord(flash: seq<bv16>, at: int, i: D.Instr) {
    0 <= at < |flash| && flash[at] == D.Encode(i)
  }

  /** A word that encodes an instruction is executed as that instruction. */
  lemma FetchesEncoded(dev: Device, flash: seq<bv16>, m: Cpu, i: D.Instr)
    requires Wf(dev, m) && dev.pcSize < 4
    requires D.Valid(i) && HasWord(flash, m.pc, i)
    ensures Fetching(dev, flash)(m) == Execute(dev, flash, m, i)
  {
    DecoderInverse.DecodeEncode(i);
  }

  // ----- straight-line code, instruction by instruction -----

  type Effect = Cpu -> Cpu

  /** Executing i is eff, whatever the flash and the machine. */
  ghost predicate Means(dev: Device, i: D.Instr, eff: Effect)
    requires dev.pcSize < 4
  {
    D.Valid(i) && forall flash: seq<bv16>, m: Cpu {:trigger Execute(dev, flash, m, i)} :: Wf(dev, m) && 0 <= m.pc < |flash| ==>
                    Execute(dev, flash, m, i) == Some(eff(m))
  }

  /** The effect goes on to the next word. */
  ghost predicate MovesOn(dev: Device, eff: Effect) {
    forall m: Cpu {:trigger eff(m)} :: Wf(dev, m) && 0 <= m.pc && m.pc + 1 < dev.pcMax ==> Wf(dev, eff(m)) && eff(m).pc == m.pc + 1
  }

  /** The instructions have these effects one by one, and all but the last go on to the next word. */
  ghost predicate Effects(dev: Device, code: seq<D.Instr>, effs: seq<Effect>)
    requires dev.pcSize < 4 && |code| == |effs|
    decreases |code|
  {
    code == [] ||
    (Means(dev, code[0], effs[0]) && (|code| > 1 ==> MovesOn(dev, effs[0])) && Effects(dev, code[1..], effs[1..]))
  }

  /** From pc on, flash holds the words of the instructions. */
  ghost predicate Holds(flash: seq<bv16>, pc: int, code: seq<D.Instr>)
    decreases |code|
  {
    code == [] || (HasWord(flash, pc, code[0]) && Holds(flash, pc + 1, code[1..]))
  }

  function Apply(effs: seq<Effect>, m: Cpu): Cpu
    decreases |effs|
  {
    if effs == [] then m else Apply(effs[1..], effs[0](m))
  }

  lemma RunStep(next: Next, m: Cpu, m1: Cpu, n: nat)
    requires n > 0 && next(m) == Some(m1)
    ensures Run(next, m, n) == Run(next, m1, n - 1)
  {
  }

  lemma FetchesEffect(dev: Device, flash: seq<bv16>, m: Cpu, i: D.Instr, eff: Effect)
    requires Wf(dev, m) && dev.pcSize < 4 && Means(dev, i, eff) && HasWord(flash, m.pc, i)
    ensures Fetching(dev, flash)(m) == Some(eff(m))
  {
    FetchesEncoded(dev, flash, m, i);
  }

  /** From pc on, the next instructions have these effects, and all but the last go on to the next word. */
  ghost predicate Straight(next: Next, dev: Device, pc: int, effs: seq<Effect>)
    decreases |effs|
  {
    effs == [] ||
    ((forall m: Cpu {:trigger next(m)} :: Wf(dev, m) && m.pc == pc ==> next(m) == Some(effs[0](m))) &&
     (|effs| > 1 ==> MovesOn(dev, effs[0])) && Straight(next, dev, pc + 1, effs[1..]))
  }

  lemma {:induction false} CodeIsStraight(dev: Device, flash: seq<bv16>, pc: int, code: seq<D.Instr>, effs: seq<Effect>)
    requires dev.pcSize < 4 && |code| == |effs| && Effects(dev, code, effs) && Holds(flash, pc, code)
    ensures Straight(Fetching(dev, flash), dev, pc, effs)
    decreases |code|
  {
    if code != [] {
      var next, i, eff := Fetching(dev, flash), code[0], effs[0];
      forall m: Cpu | Wf(dev, m) && m.pc == pc ensures next(m) == Some(eff(m)) {
        FetchesEffect(dev, flash, m, i, eff);
      }
      CodeIsStraight(dev, flash, pc + 1, code[1..], effs[1..]);
    }
  }

  lemma {:induction false} StraightRuns(next: Next, dev: Device, m: Cpu, effs: seq<Effect>)
    requires Straight(next, dev, m.pc, effs) && Wf(dev, m) && 0 <= m.pc && m.pc + |effs| <= dev.pcMax
    ensures Run(next, m, |effs|) == Some(Apply(effs, m))
    decreases |effs|
  {
    if effs != [] {
      var m1 := effs[0](m);
      RunStep(next, m, m1, |effs|);
      if |effs| > 1 {
        StraightRuns(next, dev, m1, effs[1..]);
      }
    }
  }

  /** Straight-line code in flash runs as its effects one after the other. */
  lemma CodeRuns(dev: Device, flash: seq<bv16>, m: Cpu, code: seq<D.Instr>, effs: seq<Effect>)
    requires dev.pcSize < 4 && |code| == |effs| && Effects(dev, code, effs) && Holds(flash, m.pc, code)
    requires Wf(dev, m) && 0 <= m.pc && m.pc + |code| <= dev.pcMax
    ensures Run(Fetching(dev, flash), m, |code|) == Some(Apply(effs, m))
  {
    CodeIsStraight(dev, flash, m.pc, code, effs);
    StraightRuns(Fetching(dev, flash), dev, m, effs);
  }

  // ----- programs on register operands -----

  predicate Fields(ds: seq<bv16>) {
    forall i :: 0 <= i < |ds| ==> ds[i] < 32
  }

  /** The register numbers of a list of fields. */
  function Numbers(ds: seq<bv16>): (ns: seq<nat>)
    requires Fields(ds)
    ensures |ns| == |ds| && Branches.RegList(ns)
  {
    if ds == [] then [] else [ds[0] as int] + Numbers(ds[1..])
  }

  function ArithOf(op: ArithOp): D.TwoRegOp {
    match op
    case AddOp => D.ADD
    case AdcOp => D.ADC
    case SubOp => D.SUB
    case SbcOp => D.SBC
  }

  function CompareOf(op: CompareOp): D.TwoRegOp {
    if op == CpOp then D.CP else D.CPC
  }

  ghost function ArithEffect(dev: Device, op: ArithOp, d: bv16, r: bv16): Effect
    requires d < 32 && r < 32
  {
    (m: Cpu) => if Wf(dev, m) then ExecArith(dev, m, op, d as int, r as int) else m
  }

  ghost function CompareEffect(dev: Device, op: CompareOp, d: bv16, r: bv16): Effect
    requires d < 32 && r < 32
  {
    (m: Cpu) => if Wf(dev, m) then ExecCompare(dev, m, op, d as int, r as int) else m
  }

  lemma ExecutesTwoReg(dev: Device, flash: seq<bv16>, m: Cpu, op: D.TwoRegOp, d: bv16, r: bv16)
    requires Wf(dev, m) && dev.pcSize < 4 && 0 <= m.pc < |flash| && d < 32 && r < 32
    ensures D.Valid(D.TwoReg(op, d, r))
    ensures Execute(dev, flash, m, D.TwoReg(op, d, r)) == ExecuteTwoReg(dev, m, op, d as int, r as int)
  {
  }

  /** What a two-register instruction does, it does whatever the flash. */
  lemma TwoRegMeans(dev: Device, op: D.TwoRegOp, d: bv16, r: bv16, eff: Effect)
    requires dev.pcSize < 4 && d < 32 && r < 32
    requires forall m: Cpu {:trigger eff(m)} :: Wf(dev, m) ==> ExecuteTwoReg(dev, m, op, d as int, r as int) == Some(eff(m))
    ensures Means(dev, D.TwoReg(op, d, r), eff)
  {
    var i := D.TwoReg(op, d, r);
    forall flash: seq<bv16>, m: Cpu | Wf(dev, m) && 0 <= m.pc < |flash|
      ensures Execute(dev, flash, m, i) == Some(eff(m))
    {
      ExecutesTwoReg(dev, flash, m, op, d, r);
      assert ExecuteTwoReg(dev, m, op, d as int, r as int) == Some(eff(m));
    }
  }

  lemma ArithMeans(dev: Device, op: ArithOp, d: bv16, r: bv16)
    requires dev.pcSize < 4 && d < 32 && r < 32
    ensures Means(dev, D.TwoReg(ArithOf(op), d, r), ArithEffect(dev, op, d, r))
  {
    TwoRegMeans(dev, ArithOf(op), d, r, ArithEffect(dev, op, d, r));
  }

  lemma ArithMovesOn(dev: Device, op: ArithOp, d: bv16, r: bv16)
    requires d < 32 && r < 32
    ensures MovesOn(dev, ArithEffect(dev, op, d, r))
  {
  }

  lemma CompareMeans(dev: Device, op: CompareOp, d: bv16, r: bv16)
    requires dev.pcSize < 4 && d < 32 && r < 32
    ensures Means(dev, D.TwoReg(CompareOf(op), d, r), CompareEffect(dev, op, d, r))
  {
    TwoRegMeans(dev, CompareOf(op), d, r, CompareEffect(dev, op, d, r));
  }

  lemma CompareMovesOn(dev: Device, op: CompareOp, d: bv16, r: bv16)
    requires d < 32 && r < 32
    ensures MovesOn(dev, CompareEffect(dev, op, d, r))
  {
  }

  /** op on the first pair of registers, and the instruction that carries on on the others. */
  function ChainCode(op: ArithOp, ds: seq<bv16>, rs: seq<bv16>): (code: seq<D.Instr>)
    requires |ds| == |rs|
    ensures |code| == |ds|
    decreases |ds|
  {
    if ds == [] then []
    else [D.TwoReg(ArithOf(op), ds[0], rs[0])] + ChainCode(Branches.Continues(op), ds[1..], rs[1..])
  }

  ghost function ChainEffects(dev: Device, op: ArithOp, ds: seq<bv16>, rs: seq<bv16>): (effs: seq<Effect>)
    requires |ds| == |rs| && Fields(ds) && Fields(rs)
    ensures |effs| == |ds|
    decreases |ds|
  {
    if ds == [] then []
    else [ArithEffect(dev, op, ds[0], rs[0])] + ChainEffects(dev, Branches.Continues(op), ds[1..], rs[1..])
  }

  lemma {:induction false} ChainHasEffects(dev: Device, op: ArithOp, ds: seq<bv16>, rs: seq<bv16>)
    requires dev.pcSize < 4 && |ds| == |rs| && Fields(ds) && Fields(rs)
    ensures Effects(dev, ChainCode(op, ds, rs), ChainEffects(dev, op, ds, rs))
    decreases |ds|
  {
    if ds != [] {
      ArithMeans(dev, op, ds[0], rs[0]);
      ArithMovesOn(dev, op, ds[0], rs[0]);
      ChainHasEffects(dev, Branches.Continues(op), ds[1..], rs[1..]);
    }
  }

  lemma {:induction false} ChainApplies(dev: Device, m: Cpu, op: ArithOp, ds: seq<bv16>, rs: seq<bv16>)
    requires |ds| == |rs| && Fields(ds) && Fields(rs) && Wf(dev, m)
    ensures Apply(ChainEffects(dev, op, ds, rs), m) == Branches.RunChain(dev, m, op, Numbers(ds), Numbers(rs))
    decreases |ds|
  {
    if ds != [] {
      var m1 := ExecArith(dev, m, op, ds[0] as int, rs[0] as int);
      ChainApplies(dev, m1, Branches.Continues(op), ds[1..], rs[1..]);
    }
  }

  /**
   Words for ADD and n - 1 ADC in flash: n fetches later the destination registers hold the sum of the
   operands modulo 256 to the power n, C is its carry, and control is after the program.
   */
  lemma AddProgramInFlash(dev: Device, flash: seq<bv16>, m: Cpu, ds: seq<bv16>, rs: seq<bv16>)
    requires |ds| == |rs| > 0 && Fields(ds) && Fields(rs) && Wf(dev, m) && dev.pcSize < 4
    requires 0 <= m.pc && m.pc + |ds| < dev.pcMax && Holds(flash, m.pc, ChainCode(AddOp, ds, rs))
    requires Branches.NoLaterUse(Numbers(ds), Numbers(rs))
    ensures var r := Run(Fetching(dev, flash), m, |ds|);
            var a := Value(Branches.Gather(m.regs, Numbers(ds)));
            var b := Value(Branches.Gather(m.regs, Numbers(rs)));
            && r.Some? && |r.value.regs| == 32 && r.value.pc == m.pc + |ds|
            && Value(Branches.Gather(r.value.regs, Numbers(ds))) == Branches.Sum(a, b, Pow256(|ds|))
            && (r.value.sreg.c <==> a + b >= Pow256(|ds|))
  {
    ChainHasEffects(dev, AddOp, ds, rs);
    CodeRuns(dev, flash, m, ChainCode(AddOp, ds, rs), ChainEffects(dev, AddOp, ds, rs));
    ChainApplies(dev, m, AddOp, ds, rs);
    Branches.AddProgram(dev, m, Numbers(ds), Numbers(rs));
    Branches.PcAfterStraight(dev, m.pc, |ds|);
  }

  /** Likewise SUB and n - 1 SBC: the difference, its borrow in C, and Z for equal operands. */
  lemma SubProgramInFlash(dev: Device, flash: seq<bv16>, m: Cpu, ds: seq<bv16>, rs: seq<bv16>)
    requires |ds| == |rs| > 0 && Fields(ds) && Fields(rs) && Wf(dev, m) && dev.pcSize < 4
    requires 0 <= m.pc && m.pc + |ds| < dev.pcMax && Holds(flash, m.pc, ChainCode(SubOp, ds, rs))
    requires Branches.NoLaterUse(Numbers(ds), Numbers(rs))
    ensures var r := Run(Fetching(dev, flash), m, |ds|);
            var a := Branches.Gather(m.regs, Numbers(ds));
            var b := Branches.Gather(m.regs, Numbers(rs));
            && r.Some? && |r.value.regs| == 32 && r.value.pc == m.pc + |ds|
            && Value(Branches.Gather(r.value.regs, Numbers(ds))) == Branches.Difference(Value(a), Value(b), Pow256(|ds|))
            && (r.value.sreg.c <==> Value(a) < Value(b)) && (r.value.sreg.z <==> a == b)
  {
    ChainHasEffects(dev, SubOp, ds, rs);
    CodeRuns(dev, flash, m, ChainCode(SubOp, ds, rs), ChainEffects(dev, SubOp, ds, rs));
    ChainApplies(dev, m, SubOp, ds, rs);
    Branches.SubProgram(dev, m, Numbers(ds), Numbers(rs));
    Branches.PcAfterStraight(dev, m.pc, |ds|);
  }

  // ----- compare and branch -----

  /** A branch of the comparison table as an instruction. */
  function BranchInstr(b: Branches.Branch, k: bv16): D.Instr {
    D.Branch(if Branches.BranchWhenSet(b) then D.BRBS else D.BRBC,
             match b case BRLT => 4 case BRGE => 4 case BREQ => 1 case BRNE => 1 case BRLO => 0 case BRSH => 0, k)
  }

  ghost function BranchEffect(dev: Device, b: Branches.Branch, k: int): Effect {
    (m: Cpu) => if Wf(dev, m) then ExecBranch(dev, m, Branches.BranchWhenSet(b), Branches.BranchBit(b), k) else m
  }

  lemma BranchMeans(dev: Device, b: Branches.Branch, k: bv16)
    requires dev.pcSize < 4 && k < 128
    ensures Means(dev, BranchInstr(b, k), BranchEffect(dev, b, D.Displacement7(k)))
  {
  }

  /** op on the first pair of registers, CPC on the others, and the last instruction. */
  function CompareCode(op: CompareOp, ds: seq<bv16>, rs: seq<bv16>, last: D.Instr): (code: seq<D.Instr>)
    requires |ds| == |rs|
    ensures |code| == |ds| + 1
    decreases |ds|
  {
    if ds == [] then [last] else [D.TwoReg(CompareOf(op), ds[0], rs[0])] + CompareCode(CpcOp, ds[1..], rs[1..], last)
  }

  ghost function CompareEffects(dev: Device, op: CompareOp, ds: seq<bv16>, rs: seq<bv16>, last: Effect): (effs: seq<Effect>)
    requires |ds| == |rs| && Fields(ds) && Fields(rs)
    ensures |effs| == |ds| + 1
    decreases |ds|
  {
    if ds == [] then [last]
    else [CompareEffect(dev, op, ds[0], rs[0])] + CompareEffects(dev, CpcOp, ds[1..], rs[1..], last)
  }

  lemma {:induction false} CompareHasEffects(dev: Device, op: CompareOp, ds: seq<bv16>, rs: seq<bv16>, last: D.Instr, eff: Effect)
    requires dev.pcSize < 4 && |ds| == |rs| && Fields(ds) && Fields(rs) && Means(dev, last, eff)
    ensures Effects(dev, CompareCode(op, ds, rs, last), CompareEffects(dev, op, ds, rs, eff))
    decreases |ds|
  {
    if ds != [] {
      CompareMeans(dev, op, ds[0], rs[0]);
      CompareMovesOn(dev, op, ds[0], rs[0]);
      CompareHasEffects(dev, CpcOp, ds[1..], rs[1..], last, eff);
    } else {
      assert Effects(dev, [], []);
    }
  }

  lemma {:induction false} CpcApplies(dev: Device, m: Cpu, ds: seq<bv16>, rs: seq<bv16>, last: Effect)
    requires |ds| == |rs| && Fields(ds) && Fields(rs) && Wf(dev, m)
    ensures Apply(CompareEffects(dev, CpcOp, ds, rs, last), m) == last(Branches.RunCpc(dev, m, Numbers(ds), Numbers(rs)))
    decreases |ds|
  {
    if ds != [] {
      CpcApplies(dev, ExecCompare(dev, m, CpcOp, ds[0] as int, rs[0] as int), ds[1..], rs[1..], last);
    } else {
      assert Apply([], last(m)) == last(m);
    }
  }

  lemma CompareApplies(dev: Device, m: Cpu, ds: seq<bv16>, rs: seq<bv16>, last: Effect)
    requires |ds| == |rs| > 0 && Fields(ds) && Fields(rs) && Wf(dev, m)
    ensures Apply(CompareEffects(dev, CpOp, ds, rs, last), m) == last(Branches.RunCompare(dev, m, Numbers(ds), Numbers(rs)))
  {
    CpcApplies(dev, ExecCompare(dev, m, CpOp, ds[0] as int, rs[0] as int), ds[1..], rs[1..], last);
  }

  lemma CompareCodeRuns(dev: Device, flash: seq<bv16>, m: Cpu, ds: seq<bv16>, rs: seq<bv16>, last: D.Instr, eff: Effect)
    requires |ds| == |rs| > 0 && Fields(ds) && Fields(rs) && Wf(dev, m) && dev.pcSize < 4
    requires 0 <= m.pc && m.pc + |ds| < dev.pcMax && Holds(flash, m.pc, CompareCode(CpOp, ds, rs, last))
    requires Means(dev, last, eff)
    ensures Run(Fetching(dev, flash), m, |ds| + 1) == Some(eff(Branches.RunCompare(dev, m, Numbers(ds), Numbers(rs))))
  {
    CompareHasEffects(dev, CpOp, ds, rs, last, eff);
    CodeRuns(dev, flash, m, CompareCode(CpOp, ds, rs, last), CompareEffects(dev, CpOp, ds, rs, eff));
    CompareApplies(dev, m, ds, rs, eff);
  }

  /**
   Words for CP, n - 1 CPC and a conditional branch in flash: n + 1 fetches later the branch has been
   decided by the relation it names between the n-byte operands.
   */
  lemma CompareProgramInFlash(dev: Device, flash: seq<bv16>, m: Cpu, ds: seq<bv16>, rs: seq<bv16>, b: Branches.Branch, k: bv16)
    requires |ds| == |rs| > 0 && Fields(ds) && Fields(rs) && k < 128 && Wf(dev, m) && dev.pcSize < 4
    requires 0 <= m.pc && m.pc + |ds| < dev.pcMax && Holds(flash, m.pc, CompareCode(CpOp, ds, rs, BranchInstr(b, k)))
    ensures var r := Run(Fetching(dev, flash), m, |ds| + 1);
            var x, y := Branches.Gather(m.regs, Numbers(ds)), Branches.Gather(m.regs, Numbers(rs));
            r.Some? && Branches.Decided(dev, m, r.value, m.pc + |ds| + 1, x, y, b, D.Displacement7(k))
  {
    BranchMeans(dev, b, k);
    CompareCodeRuns(dev, flash, m, ds, rs, BranchInstr(b, k), BranchEffect(dev, b, D.Displacement7(k)));
    DecidedInReach(dev, m, Numbers(ds), Numbers(rs), b, D.Displacement7(k));
  }

  lemma DecidedInReach(dev: Device, m: Cpu, ds: seq<nat>, rs: seq<nat>, b: Branches.Branch, k: int)
    requires |ds| == |rs| > 0 && Branches.RegList(ds) && Branches.RegList(rs) && Wf(dev, m)
    requires 0 <= m.pc && m.pc + |ds| < dev.pcMax
    ensures var m' := BranchEffect(dev, b, k)(Branches.RunCompare(dev, m, ds, rs));
            Branches.Decided(dev, m, m', m.pc + |ds| + 1, Branches.Gather(m.regs, ds), Branches.Gather(m.regs, rs), b, k)
  {
    Branches.CompareAndBranch(dev, m, ds, rs, b, k);
    Branches.PcAfterStraight(dev, m.pc, |ds|);
  }
}
