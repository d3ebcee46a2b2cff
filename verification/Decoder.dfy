/**
 The opcode table: which instruction a flash word is, and with which operand fields.

 The lookup tries one operand shape after another; within a shape it clears the operand bits and
 compares what is left with the opcodes of that shape. `Encode` is the independent reading of the
 instruction set summary; module DecoderInverse proves that the two are inverse.
 */
module Decoder {
  import opened Wrappers

  datatype NoOperandOp = BREAK | EICALL | EIJMP | ELPM | ESPM | ICALL | IJMP | LPM | NOP | RET | RETI | SLEEP | SPM | WDR
  datatype TwoRegOp = ADC | ADD | AND | CP | CPC | CPSE | EOR | MOV | MUL | OR | SBC | SUB
  datatype OneRegOp =
    | ASR | COM | DEC | ELPM_Z | ELPM_Z_incr | INC | LDS | LD_X | LD_X_decr | LD_X_incr | LD_Y_decr | LD_Y_incr
    | LD_Z_decr | LD_Z_incr | LPM_Z | LPM_Z_incr | LSR | NEG | POP | PUSH | ROR | STS | ST_X | ST_X_decr | ST_X_incr
    | ST_Y_decr | ST_Y_incr | ST_Z_decr | ST_Z_incr | SWAP
  datatype RegConstOp = ANDI | CPI | LDI | ORI | SBCI | SUBI
  datatype RegBitOp = BLD | BST | SBRC | SBRS
  datatype BranchOp = BRBC | BRBS
  datatype DisplOp = LDD_Y | LDD_Z | STD_Y | STD_Z
  datatype LongOp = CALL | JMP
  datatype SregBitOp = BCLR | BSET
  datatype WordConstOp = ADIW | SBIW
  datatype IoBitOp = CBI | SBI | SBIC | SBIS
  datatype IoRegOp = IN | OUT
  datatype RelativeOp = RCALL | RJMP
  datatype HighRegsOp = MOVW | MULS
  datatype MidRegsOp = MULSU | FMUL | FMULS | FMULSU

  /** An instruction with its operand fields, one constructor for each operand shape. */
  datatype Instr =
    | NoOperand(op0: NoOperandOp)
    | TwoReg(op2: TwoRegOp, d: bv16, r: bv16)
    | OneReg(op1: OneRegOp, d: bv16)
    | RegConst(opk: RegConstOp, d: bv16, k: bv16)
    | RegBit(opb: RegBitOp, d: bv16, b: bv16)
    | Branch(opc: BranchOp, s: bv16, k: bv16)
    | Displ(opq: DisplOp, d: bv16, q: bv16)
    | Long(opl: LongOp, k: bv16)
    | SregBit(ops: SregBitOp, s: bv16)
    | WordConst(opw: WordConstOp, d: bv16, k: bv16)
    | IoBit(opa: IoBitOp, a: bv16, b: bv16)
    | IoReg(opi: IoRegOp, d: bv16, a: bv16)
    | Relative(opr: RelativeOp, k: bv16)
    | HighRegs(oph: HighRegsOp, d: bv16, r: bv16)
    | MidRegs(opm: MidRegsOp, d: bv16, r: bv16)
    | Unknown

  // ----- operand fields -----

  function GetRd2(w: bv16): bv16 { (((w & 0x0030) >> 4) & 0x3) * 2 + 24 }
  function GetRd3(w: bv16): bv16 { (((w & 0x0070) >> 4) & 0x7) + 16 }
  function GetRd4(w: bv16): bv16 { (((w & 0x00f0) >> 4) & 0xf) + 16 }
  function GetRd5(w: bv16): bv16 { ((w & 0x01f0) >> 4) & 0x1f }
  function GetRr3(w: bv16): bv16 { (w & 0x0007) + 16 }
  function GetRr4(w: bv16): bv16 { (w & 0x000f) + 16 }
  function GetRr5(w: bv16): bv16 { ((w & 0x020f) & 0xf) + (((w & 0x020f) >> 5) & 0x10) }
  function GetK8(w: bv16): bv16 { (((w & 0x0f0f) >> 4) & 0xf0) + ((w & 0x0f0f) & 0xf) }
  function GetK6(w: bv16): bv16 { (((w & 0x00cf) >> 2) & 0x0030) + ((w & 0x00cf) & 0xf) }
  function GetK7(w: bv16): bv16 { ((w & 0x03f8) >> 3) & 0x7f }
  function GetK12(w: bv16): bv16 { w & 0x0fff }
  function GetK22(w: bv16): bv16 { (((w & 0x01f1) >> 3) & 0x003e) + ((w & 0x01f1) & 0x1) }
  function GetRegBit(w: bv16): bv16 { w & 0x0007 }
  function GetSregBit(w: bv16): bv16 { (w & 0x0070) >> 4 }
  function GetQ(w: bv16): bv16 {
    var q := w & 0x2c07;
    var qq := (((q >> 1) & 0x1000) + (q & 0x0c00)) >> 7;
    (qq & 0x0038) + (q & 0x7)
  }
  function GetA5(w: bv16): bv16 { (w & 0x00f8) >> 3 }
  function GetA6(w: bv16): bv16 { (((w & 0x060f) >> 5) & 0x0030) + ((w & 0x060f) & 0xf) }

  // ----- displacements -----

  /** A field with the given sign bit and mask read as two's complement. */
  function SignedField(val: bv16, sign: bv16, mask: bv16): int {
    if val & sign == 0 then val as int else -1 * ((!val & mask) as int + 1)
  }

  /** The displacement of a branch. */
  function Displacement7(k: bv16): int {
    SignedField(k, 0x40, 0x7f)
  }

  /** The displacement of a relative jump or call. */
  function Displacement12(k: bv16): int {
    SignedField(k, 0x800, 0xfff)
  }

  // ----- opcode tables, one for each operand shape -----

  function NoOperandTable(w: bv16): Option<NoOperandOp> {
    if w == 0x9598 then Some(BREAK)
    else if w == 0x9519 then Some(EICALL)
    else if w == 0x9419 then Some(EIJMP)
    else if w == 0x95d8 then Some(ELPM)
    else if w == 0x95f8 then Some(ESPM)
    else if w == 0x9509 then Some(ICALL)
    else if w == 0x9409 then Some(IJMP)
    else if w == 0x95c8 then Some(LPM)
    else if w == 0x0000 then Some(NOP)
    else if w == 0x9508 then Some(RET)
    else if w == 0x9518 then Some(RETI)
    else if w == 0x9588 then Some(SLEEP)
    else if w == 0x95e8 then Some(SPM)
    else if w == 0x95a8 then Some(WDR)
    else None
  }

  function TwoRegTable(w: bv16): Option<TwoRegOp> {
    if w == 0x1c00 then Some(ADC)
    else if w == 0x0c00 then Some(ADD)
    else if w == 0x2000 then Some(AND)
    else if w == 0x1400 then Some(CP)
    else if w == 0x0400 then Some(CPC)
    else if w == 0x1000 then Some(CPSE)
    else if w == 0x2400 then Some(EOR)
    else if w == 0x2c00 then Some(MOV)
    else if w == 0x9c00 then Some(MUL)
    else if w == 0x2800 then Some(OR)
    else if w == 0x0800 then Some(SBC)
    else if w == 0x1800 then Some(SUB)
    else None
  }

  /** Opcodes with a single register operand; those that store, load, and work in place, apart. */
  function OneRegTable(w: bv16): Option<OneRegOp> {
    if w == 0x9405 then Some(ASR)
    else if w == 0x9400 then Some(COM)
    else if w == 0x940a then Some(DEC)
    else if w == 0x9403 then Some(INC)
    else if w == 0x9406 then Some(LSR)
    else if w == 0x9401 then Some(NEG)
    else if w == 0x9407 then Some(ROR)
    else if w == 0x9402 then Some(SWAP)
    else LoadTable(w)
  }

  function LoadTable(w: bv16): Option<OneRegOp> {
    if w == 0x9006 then Some(ELPM_Z)
    else if w == 0x9007 then Some(ELPM_Z_incr)
    else if w == 0x9000 then Some(LDS)
    else if w == 0x900c then Some(LD_X)
    else if w == 0x900e then Some(LD_X_decr)
    else if w == 0x900d then Some(LD_X_incr)
    else if w == 0x900a then Some(LD_Y_decr)
    else if w == 0x9009 then Some(LD_Y_incr)
    else if w == 0x9002 then Some(LD_Z_decr)
    else if w == 0x9001 then Some(LD_Z_incr)
    else if w == 0x9004 then Some(LPM_Z)
    else if w == 0x9005 then Some(LPM_Z_incr)
    else if w == 0x900f then Some(POP)
    else StoreTable(w)
  }

  function StoreTable(w: bv16): Option<OneRegOp> {
    if w == 0x920f then Some(PUSH)
    else if w == 0x9200 then Some(STS)
    else if w == 0x920c then Some(ST_X)
    else if w == 0x920e then Some(ST_X_decr)
    else if w == 0x920d then Some(ST_X_incr)
    else if w == 0x920a then Some(ST_Y_decr)
    else if w == 0x9209 then Some(ST_Y_incr)
    else if w == 0x9202 then Some(ST_Z_decr)
    else if w == 0x9201 then Some(ST_Z_incr)
    else None
  }

  function RegConstTable(w: bv16): Option<RegConstOp> {
    if w == 0x7000 then Some(ANDI)
    else if w == 0x3000 then Some(CPI)
    else if w == 0xe000 then Some(LDI)
    else if w == 0x6000 then Some(ORI)
    else if w == 0x4000 then Some(SBCI)
    else if w == 0x5000 then Some(SUBI)
    else None
  }

  function RegBitTable(w: bv16): Option<RegBitOp> {
    if w == 0xf800 then Some(BLD)
    else if w == 0xfa00 then Some(BST)
    else if w == 0xfc00 then Some(SBRC)
    else if w == 0xfe00 then Some(SBRS)
    else None
  }

  function BranchTable(w: bv16): Option<BranchOp> {
    if w == 0xf400 then Some(BRBC)
    else if w == 0xf000 then Some(BRBS)
    else None
  }

  function DisplTable(w: bv16): Option<DisplOp> {
    if w == 0x8008 then Some(LDD_Y)
    else if w == 0x8000 then Some(LDD_Z)
    else if w == 0x8208 then Some(STD_Y)
    else if w == 0x8200 then Some(STD_Z)
    else None
  }

  function LongTable(w: bv16): Option<LongOp> {
    if w == 0x940e then Some(CALL)
    else if w == 0x940c then Some(JMP)
    else None
  }

  function SregBitTable(w: bv16): Option<SregBitOp> {
    if w == 0x9488 then Some(BCLR)
    else if w == 0x9408 then Some(BSET)
    else None
  }

  function WordConstTable(w: bv16): Option<WordConstOp> {
    if w == 0x9600 then Some(ADIW)
    else if w == 0x9700 then Some(SBIW)
    else None
  }

  function IoBitTable(w: bv16): Option<IoBitOp> {
    if w == 0x9800 then Some(CBI)
    else if w == 0x9a00 then Some(SBI)
    else if w == 0x9900 then Some(SBIC)
    else if w == 0x9b00 then Some(SBIS)
    else None
  }

  function IoRegTable(w: bv16): Option<IoRegOp> {
    if w == 0xb000 then Some(IN)
    else if w == 0xb800 then Some(OUT)
    else None
  }

  function RelativeTable(w: bv16): Option<RelativeOp> {
    if w == 0xd000 then Some(RCALL)
    else if w == 0xc000 then Some(RJMP)
    else None
  }

  function HighRegsTable(w: bv16): Option<HighRegsOp> {
    if w == 0x0100 then Some(MOVW)
    else if w == 0x0200 then Some(MULS)
    else None
  }

  function MidRegsTable(w: bv16): Option<MidRegsOp> {
    if w == 0x0300 then Some(MULSU)
    else if w == 0x0308 then Some(FMUL)
    else if w == 0x0380 then Some(FMULS)
    else if w == 0x0388 then Some(FMULSU)
    else None
  }

  /** The instruction a flash word stands for; shapes are tried in this order. */
  function Decode(w: bv16): Instr {
    var e0 := NoOperandTable(w);
    var e1 := TwoRegTable(w & !(0x01f0 | 0x020f));
    var e2 := OneRegTable(w & !0x01f0);
    var e3 := RegConstTable(w & !(0x00f0 | 0x0f0f));
    var e4 := RegBitTable(w & !(0x01f0 | 0x0007));
    var e5 := BranchTable(w & !(0x03f8 | 0x0007));
    var e6 := DisplTable(w & !(0x01f0 | 0x2c07));
    var e7 := LongTable(w & !0x01f1);
    var e8 := SregBitTable(w & !0x0070);
    var e9 := WordConstTable(w & !(0x00cf | 0x0030));
    var e10 := IoBitTable(w & !(0x00f8 | 0x0007));
    var e11 := IoRegTable(w & !(0x060f | 0x01f0));
    var e12 := RelativeTable(w & !0x0fff);
    var e13 := HighRegsTable(w & !(0x00f0 | 0x000f));
    var e14 := MidRegsTable(w & !(0x0070 | 0x0007));
    if e0.Some? then NoOperand(e0.value)
    else if e1.Some? then TwoReg(e1.value, GetRd5(w), GetRr5(w))
    else if e2.Some? then OneReg(e2.value, GetRd5(w))
    else if e3.Some? then RegConst(e3.value, GetRd4(w), GetK8(w))
    else if e4.Some? then RegBit(e4.value, GetRd5(w), GetRegBit(w))
    else if e5.Some? then Branch(e5.value, GetRegBit(w), GetK7(w))
    else if e6.Some? then Displ(e6.value, GetRd5(w), GetQ(w))
    else if e7.Some? then Long(e7.value, GetK22(w))
    else if e8.Some? then SregBit(e8.value, GetSregBit(w))
    else if e9.Some? then WordConst(e9.value, GetRd2(w), GetK6(w))
    else if e10.Some? then IoBit(e10.value, GetA5(w), GetRegBit(w))
    else if e11.Some? then IoReg(e11.value, GetRd5(w), GetA6(w))
    else if e12.Some? then Relative(e12.value, GetK12(w))
    else if e13.Some? then HighRegs(e13.value, GetRd4(w), GetRr4(w))
    else if e14.Some? then MidRegs(e14.value, GetRd3(w), GetRr3(w))
    else Unknown
  }

  // ----- the instruction set summary, read as an encoder -----

  /** The operands an encoding has room for. */
  predicate Valid(i: Instr) {
    match i
    case NoOperand(_) => true
    case TwoReg(_, d, r) => d < 32 && r < 32
    case OneReg(_, d) => d < 32
    case RegConst(_, d, k) => 16 <= d < 32 && k < 256
    case RegBit(_, d, b) => d < 32 && b < 8
    case Branch(_, s, k) => s < 8 && k < 128
    case Displ(_, d, q) => d < 32 && q < 64
    case Long(_, k) => k < 64
    case SregBit(_, s) => s < 8
    case WordConst(_, d, k) => (d == 24 || d == 26 || d == 28 || d == 30) && k < 64
    case IoBit(_, a, b) => a < 32 && b < 8
    case IoReg(_, d, a) => d < 32 && a < 64
    case Relative(_, k) => k < 0x1000
    case HighRegs(_, d, r) => 16 <= d < 32 && 16 <= r < 32
    case MidRegs(_, d, r) => 16 <= d < 24 && 16 <= r < 24
    case Unknown => false
  }

  function NoOperandBits(op: NoOperandOp): bv16 {
    match op
    case BREAK => 0x9598 case EICALL => 0x9519 case EIJMP => 0x9419 case ELPM => 0x95d8 case ESPM => 0x95f8
    case ICALL => 0x9509 case IJMP => 0x9409 case LPM => 0x95c8 case NOP => 0x0000 case RET => 0x9508
    case RETI => 0x9518 case SLEEP => 0x9588 case SPM => 0x95e8 case WDR => 0x95a8
  }

  function TwoRegBits(op: TwoRegOp): bv16 {
    match op
    case ADC => 0x1c00 case ADD => 0x0c00 case AND => 0x2000 case CP => 0x1400 case CPC => 0x0400 case CPSE => 0x1000
    case EOR => 0x2400 case MOV => 0x2c00 case MUL => 0x9c00 case OR => 0x2800 case SBC => 0x0800 case SUB => 0x1800
  }

  function OneRegBits(op: OneRegOp): bv16 {
    match op
    case ASR => 0x9405 case COM => 0x9400 case DEC => 0x940a case ELPM_Z => 0x9006 case ELPM_Z_incr => 0x9007
    case INC => 0x9403 case LDS => 0x9000 case LD_X => 0x900c case LD_X_decr => 0x900e case LD_X_incr => 0x900d
    case LD_Y_decr => 0x900a case LD_Y_incr => 0x9009 case LD_Z_decr => 0x9002 case LD_Z_incr => 0x9001
    case LPM_Z => 0x9004 case LPM_Z_incr => 0x9005 case LSR => 0x9406 case NEG => 0x9401 case POP => 0x900f
    case PUSH => 0x920f case ROR => 0x9407 case STS => 0x9200 case ST_X => 0x920c case ST_X_decr => 0x920e
    case ST_X_incr => 0x920d case ST_Y_decr => 0x920a case ST_Y_incr => 0x9209 case ST_Z_decr => 0x9202
    case ST_Z_incr => 0x9201 case SWAP => 0x9402
  }

  function RegConstBits(op: RegConstOp): bv16 {
    match op
    case ANDI => 0x7000 case CPI => 0x3000 case LDI => 0xe000 case ORI => 0x6000 case SBCI => 0x4000 case SUBI => 0x5000
  }

  function RegBitBits(op: RegBitOp): bv16 {
    match op
    case BLD => 0xf800 case BST => 0xfa00 case SBRC => 0xfc00 case SBRS => 0xfe00
  }

  function BranchBits(op: BranchOp): bv16 {
    match op
    case BRBC => 0xf400 case BRBS => 0xf000
  }

  function LongBits(op: LongOp): bv16 {
    match op
    case CALL => 0x940e case JMP => 0x940c
  }

  function SregBitBits(op: SregBitOp): bv16 {
    match op
    case BCLR => 0x9488 case BSET => 0x9408
  }

  function WordConstBits(op: WordConstOp): bv16 {
    match op
    case ADIW => 0x9600 case SBIW => 0x9700
  }

  function IoRegBits(op: IoRegOp): bv16 {
    match op
    case IN => 0xb000 case OUT => 0xb800
  }

  function RelativeBits(op: RelativeOp): bv16 {
    match op
    case RCALL => 0xd000 case RJMP => 0xc000
  }

  function HighRegsBits(op: HighRegsOp): bv16 {
    match op
    case MOVW => 0x0100 case MULS => 0x0200
  }

  function DisplBits(op: DisplOp): bv16 {
    match op
    case LDD_Y => 0x8008 case LDD_Z => 0x8000 case STD_Y => 0x8208 case STD_Z => 0x8200
  }

  function IoBitBits(op: IoBitOp): bv16 {
    match op
    case CBI => 0x9800 case SBI => 0x9a00 case SBIC => 0x9900 case SBIS => 0x9b00
  }

  function MidRegsBits(op: MidRegsOp): bv16 {
    match op
    case MULSU => 0x0300 case FMUL => 0x0308 case FMULS => 0x0380 case FMULSU => 0x0388
  }

  // The operand bits of each shape, placed as the opcode column shows them.

  function TwoRegFields(d: bv16, r: bv16): bv16 { (d << 4) | (r & 0xf) | ((r & 0x10) << 5) }
  function RegConstFields(d: bv16, k: bv16): bv16 { ((d & 0xf) << 4) | (k & 0xf) | ((k & 0xf0) << 4) }
  function RegBitFields(d: bv16, b: bv16): bv16 { (d << 4) | b }
  function BranchFields(s: bv16, k: bv16): bv16 { (k << 3) | s }
  function DisplFields(d: bv16, q: bv16): bv16 { (d << 4) | (q & 0x7) | ((q & 0x18) << 7) | ((q & 0x20) << 8) }
  function LongFields(k: bv16): bv16 { ((k & 0x3e) << 3) | (k & 0x1) }
  function WordConstFields(d: bv16, k: bv16): bv16 { (((d - 24) >> 1) << 4) | (k & 0xf) | ((k & 0x30) << 2) }
  function IoBitFields(a: bv16, b: bv16): bv16 { (a << 3) | b }
  function IoRegFields(d: bv16, a: bv16): bv16 { (d << 4) | (a & 0xf) | ((a & 0x30) << 5) }
  function HighRegsFields(d: bv16, r: bv16): bv16 { ((d & 0xf) << 4) | (r & 0xf) }
  function MidRegsFields(d: bv16, r: bv16): bv16 { ((d & 0x7) << 4) | (r & 0x7) }

  /** The first word of an instruction. */
  function Encode(i: Instr): bv16 {
    match i
    case NoOperand(op) => NoOperandBits(op)
    case TwoReg(op, d, r) => TwoRegBits(op) | TwoRegFields(d, r)
    case OneReg(op, d) => OneRegBits(op) | (d << 4)
    case RegConst(op, d, k) => RegConstBits(op) | RegConstFields(d, k)
    case RegBit(op, d, b) => RegBitBits(op) | RegBitFields(d, b)
    case Branch(op, s, k) => BranchBits(op) | BranchFields(s, k)
    case Displ(op, d, q) => DisplBits(op) | DisplFields(d, q)
    case Long(op, k) => LongBits(op) | LongFields(k)
    case SregBit(op, s) => SregBitBits(op) | (s << 4)
    case WordConst(op, d, k) => WordConstBits(op) | WordConstFields(d, k)
    case IoBit(op, a, b) => IoBitBits(op) | IoBitFields(a, b)
    case IoReg(op, d, a) => IoRegBits(op) | IoRegFields(d, a)
    case Relative(op, k) => RelativeBits(op) | k
    case HighRegs(op, d, r) => HighRegsBits(op) | HighRegsFields(d, r)
    case MidRegs(op, d, r) => MidRegsBits(op) | MidRegsFields(d, r)
    case Unknown => 0xffff
  }
}
