/**
 Within an operand shape: each opcode is in its table, and the operand fields are taken out of a word
 exactly where they were put in.
 */
module DecoderFields {
  import opened Decoder
  import opened DecoderShapes
  import opened Wrappers

  lemma NoOperandOpcodeListed(op: NoOperandOp)
    ensures NoOperandTable(NoOperandBits(op)) == Some(op)
  {}

  lemma NoOperandTableHolds(m: bv16)
    ensures NoOperandTable(m).Some? ==> NoOperandBits(NoOperandTable(m).value) == m
  {}

  lemma NoOperandAt(w: bv16)
    requires NoOperandTable(w).Some?
    ensures Decode(w) == NoOperand(NoOperandTable(w).value)
  {
    NoOperandShape(w);
    ShapesExclusive(w);
  }

  lemma TwoRegOpcodeListed(op: TwoRegOp)
    ensures TwoRegTable(TwoRegBits(op)) == Some(op)
    ensures TwoRegBits(op) & (0x01f0 | 0x020f) == 0
  {}

  lemma TwoRegTableHolds(m: bv16)
    ensures TwoRegTable(m).Some? ==> TwoRegBits(TwoRegTable(m).value) == m
  {}

  lemma TwoRegAt(w: bv16)
    requires TwoRegTable(w & !(0x01f0 | 0x020f)).Some?
    ensures Decode(w) == TwoReg(TwoRegTable(w & !(0x01f0 | 0x020f)).value, GetRd5(w), GetRr5(w))
  {
    TwoRegShape(w);
    ShapesExclusive(w);
  }

  lemma TwoRegExtract(base: bv16, d: bv16, r: bv16)
    requires base & (0x01f0 | 0x020f) == 0 && d < 32 && r < 32
    ensures var w := base | TwoRegFields(d, r); w & !(0x01f0 | 0x020f) == base && GetRd5(w) == d && GetRr5(w) == r
  {}

  lemma TwoRegInsert(w: bv16)
    ensures var d, r := GetRd5(w), GetRr5(w); d < 32 && r < 32
    ensures var d, r := GetRd5(w), GetRr5(w); (w & !(0x01f0 | 0x020f)) | TwoRegFields(d, r) == w
  {}

  lemma TwoRegRound(op: TwoRegOp, d: bv16, r: bv16)
    requires d < 32 && r < 32
    ensures Decode(TwoRegBits(op) | TwoRegFields(d, r)) == TwoReg(op, d, r)
  {
    TwoRegOpcodeListed(op);
    TwoRegExtract(TwoRegBits(op), d, r);
    TwoRegAt(TwoRegBits(op) | TwoRegFields(d, r));
  }

  lemma OneRegOpcodeListed(op: OneRegOp)
    ensures OneRegTable(OneRegBits(op)) == Some(op)
    ensures OneRegBits(op) & 0x01f0 == 0
  {}

  lemma StoreTableHolds(m: bv16)
    ensures StoreTable(m).Some? ==> OneRegBits(StoreTable(m).value) == m
  {}

  lemma LoadTableHolds(m: bv16)
    requires StoreTable(m) == None
    ensures LoadTable(m).Some? ==> OneRegBits(LoadTable(m).value) == m
  {}

  lemma OneRegTableHolds(m: bv16)
    ensures OneRegTable(m).Some? ==> OneRegBits(OneRegTable(m).value) == m
  {
    StoreTableHolds(m);
    if StoreTable(m) == None {
      LoadTableHolds(m);
    }
  }

  lemma OneRegAt(w: bv16)
    requires OneRegTable(w & !0x01f0).Some?
    ensures Decode(w) == OneReg(OneRegTable(w & !0x01f0).value, GetRd5(w))
  {
    OneRegShape(w);
    ShapesExclusive(w);
  }

  lemma OneRegExtract(base: bv16, d: bv16)
    requires base & 0x01f0 == 0 && d < 32
    ensures var w := base | (d << 4); w & !0x01f0 == base && GetRd5(w) == d
  {}

  lemma OneRegInsert(w: bv16)
    ensures var d := GetRd5(w); d < 32
    ensures var d := GetRd5(w); (w & !0x01f0) | (d << 4) == w
  {}

  lemma OneRegRound(op: OneRegOp, d: bv16)
    requires d < 32
    ensures Decode(OneRegBits(op) | (d << 4)) == OneReg(op, d)
  {
    OneRegOpcodeListed(op);
    OneRegExtract(OneRegBits(op), d);
    OneRegAt(OneRegBits(op) | (d << 4));
  }

  lemma RegConstOpcodeListed(op: RegConstOp)
    ensures RegConstTable(RegConstBits(op)) == Some(op)
    ensures RegConstBits(op) & (0x00f0 | 0x0f0f) == 0
  {}

  lemma RegConstTableHolds(m: bv16)
    ensures RegConstTable(m).Some? ==> RegConstBits(RegConstTable(m).value) == m
  {}

  lemma RegConstAt(w: bv16)
    requires RegConstTable(w & !(0x00f0 | 0x0f0f)).Some?
    ensures Decode(w) == RegConst(RegConstTable(w & !(0x00f0 | 0x0f0f)).value, GetRd4(w), GetK8(w))
  {
    RegConstShape(w);
    ShapesExclusive(w);
  }

  lemma RegConstExtract(base: bv16, d: bv16, k: bv16)
    requires base & (0x00f0 | 0x0f0f) == 0 && 16 <= d < 32 && k < 256
    ensures var w := base | RegConstFields(d, k); w & !(0x00f0 | 0x0f0f) == base && GetRd4(w) == d && GetK8(w) == k
  {}

  lemma RegConstInsert(w: bv16)
    ensures var d, k := GetRd4(w), GetK8(w); 16 <= d < 32 && k < 256
    ensures var d, k := GetRd4(w), GetK8(w); (w & !(0x00f0 | 0x0f0f)) | RegConstFields(d, k) == w
  {}

  lemma RegConstRound(op: RegConstOp, d: bv16, k: bv16)
    requires 16 <= d < 32 && k < 256
    ensures Decode(RegConstBits(op) | RegConstFields(d, k)) == RegConst(op, d, k)
  {
    RegConstOpcodeListed(op);
    RegConstExtract(RegConstBits(op), d, k);
    RegConstAt(RegConstBits(op) | RegConstFields(d, k));
  }

  lemma RegBitOpcodeListed(op: RegBitOp)
    ensures RegBitTable(RegBitBits(op)) == Some(op)
    ensures RegBitBits(op) & (0x01f0 | 0x0007) == 0
  {}

  lemma RegBitTableHolds(m: bv16)
    ensures RegBitTable(m).Some? ==> RegBitBits(RegBitTable(m).value) == m
  {}

  lemma RegBitAt(w: bv16)
    requires RegBitTable(w & !(0x01f0 | 0x0007)).Some?
    ensures Decode(w) == RegBit(RegBitTable(w & !(0x01f0 | 0x0007)).value, GetRd5(w), GetRegBit(w))
  {
    RegBitShape(w);
    ShapesExclusive(w);
  }

  lemma RegBitExtract(base: bv16, d: bv16, b: bv16)
    requires base & (0x01f0 | 0x0007) == 0 && d < 32 && b < 8
    ensures var w := base | RegBitFields(d, b); w & !(0x01f0 | 0x0007) == base && GetRd5(w) == d && GetRegBit(w) == b
  {}

  lemma RegBitInsert(w: bv16)
    ensures var d, b := GetRd5(w), GetRegBit(w); d < 32 && b < 8
    ensures var d, b := GetRd5(w), GetRegBit(w); (w & !(0x01f0 | 0x0007)) | RegBitFields(d, b) == w
  {}

  lemma RegBitRound(op: RegBitOp, d: bv16, b: bv16)
    requires d < 32 && b < 8
    ensures Decode(RegBitBits(op) | RegBitFields(d, b)) == RegBit(op, d, b)
  {
    RegBitOpcodeListed(op);
    RegBitExtract(RegBitBits(op), d, b);
    RegBitAt(RegBitBits(op) | RegBitFields(d, b));
  }

  lemma BranchOpcodeListed(op: BranchOp)
    ensures BranchTable(BranchBits(op)) == Some(op)
    ensures BranchBits(op) & (0x03f8 | 0x0007) == 0
  {}

  lemma BranchTableHolds(m: bv16)
    ensures BranchTable(m).Some? ==> BranchBits(BranchTable(m).value) == m
  {}

  lemma BranchAt(w: bv16)
    requires BranchTable(w & !(0x03f8 | 0x0007)).Some?
    ensures Decode(w) == Branch(BranchTable(w & !(0x03f8 | 0x0007)).value, GetRegBit(w), GetK7(w))
  {
    BranchShape(w);
    ShapesExclusive(w);
  }

  lemma BranchExtract(base: bv16, s: bv16, k: bv16)
    requires base & (0x03f8 | 0x0007) == 0 && s < 8 && k < 128
    ensures var w := base | BranchFields(s, k); w & !(0x03f8 | 0x0007) == base && GetRegBit(w) == s && GetK7(w) == k
  {}

  lemma BranchInsert(w: bv16)
    ensures var s, k := GetRegBit(w), GetK7(w); s < 8 && k < 128
    ensures var s, k := GetRegBit(w), GetK7(w); (w & !(0x03f8 | 0x0007)) | BranchFields(s, k) == w
  {}

  lemma BranchRound(op: BranchOp, s: bv16, k: bv16)
    requires s < 8 && k < 128
    ensures Decode(BranchBits(op) | BranchFields(s, k)) == Branch(op, s, k)
  {
    BranchOpcodeListed(op);
    BranchExtract(BranchBits(op), s, k);
    BranchAt(BranchBits(op) | BranchFields(s, k));
  }

  lemma DisplOpcodeListed(op: DisplOp)
    ensures DisplTable(DisplBits(op)) == Some(op)
    ensures DisplBits(op) & (0x01f0 | 0x2c07) == 0
  {}

  lemma DisplTableHolds(m: bv16)
    ensures DisplTable(m).Some? ==> DisplBits(DisplTable(m).value) == m
  {}

  lemma DisplAt(w: bv16)
    requires DisplTable(w & !(0x01f0 | 0x2c07)).Some?
    ensures Decode(w) == Displ(DisplTable(w & !(0x01f0 | 0x2c07)).value, GetRd5(w), GetQ(w))
  {
    DisplShape(w);
    ShapesExclusive(w);
  }

  lemma DisplExtract(base: bv16, d: bv16, q: bv16)
    requires base & (0x01f0 | 0x2c07) == 0 && d < 32 && q < 64
    ensures var w := base | DisplFields(d, q); w & !(0x01f0 | 0x2c07) == base && GetRd5(w) == d && GetQ(w) == q
  {}

  lemma DisplInsert(w: bv16)
    ensures var d, q := GetRd5(w), GetQ(w); d < 32 && q < 64
    ensures var d, q := GetRd5(w), GetQ(w); (w & !(0x01f0 | 0x2c07)) | DisplFields(d, q) == w
  {}

  lemma DisplRound(op: DisplOp, d: bv16, q: bv16)
    requires d < 32 && q < 64
    ensures Decode(DisplBits(op) | DisplFields(d, q)) == Displ(op, d, q)
  {
    DisplOpcodeListed(op);
    DisplExtract(DisplBits(op), d, q);
    DisplAt(DisplBits(op) | DisplFields(d, q));
  }

  lemma LongOpcodeListed(op: LongOp)
    ensures LongTable(LongBits(op)) == Some(op)
    ensures LongBits(op) & 0x01f1 == 0
  {}

  lemma LongTableHolds(m: bv16)
    ensures LongTable(m).Some? ==> LongBits(LongTable(m).value) == m
  {}

  lemma LongAt(w: bv16)
    requires LongTable(w & !0x01f1).Some?
    ensures Decode(w) == Long(LongTable(w & !0x01f1).value, GetK22(w))
  {
    LongShape(w);
    ShapesExclusive(w);
  }

  lemma LongExtract(base: bv16, k: bv16)
    requires base & 0x01f1 == 0 && k < 64
    ensures var w := base | LongFields(k); w & !0x01f1 == base && GetK22(w) == k
  {}

  lemma LongInsert(w: bv16)
    ensures var k := GetK22(w); k < 64
    ensures var k := GetK22(w); (w & !0x01f1) | LongFields(k) == w
  {}

  lemma LongRound(op: LongOp, k: bv16)
    requires k < 64
    ensures Decode(LongBits(op) | LongFields(k)) == Long(op, k)
  {
    LongOpcodeListed(op);
    LongExtract(LongBits(op), k);
    LongAt(LongBits(op) | LongFields(k));
  }

  lemma SregBitOpcodeListed(op: SregBitOp)
    ensures SregBitTable(SregBitBits(op)) == Some(op)
    ensures SregBitBits(op) & 0x0070 == 0
  {}

  lemma SregBitTableHolds(m: bv16)
    ensures SregBitTable(m).Some? ==> SregBitBits(SregBitTable(m).value) == m
  {}

  lemma SregBitAt(w: bv16)
    requires SregBitTable(w & !0x0070).Some?
    ensures Decode(w) == SregBit(SregBitTable(w & !0x0070).value, GetSregBit(w))
  {
    SregBitShape(w);
    ShapesExclusive(w);
  }

  lemma SregBitExtract(base: bv16, s: bv16)
    requires base & 0x0070 == 0 && s < 8
    ensures var w := base | (s << 4); w & !0x0070 == base && GetSregBit(w) == s
  {}

  lemma SregBitInsert(w: bv16)
    ensures var s := GetSregBit(w); s < 8
    ensures var s := GetSregBit(w); (w & !0x0070) | (s << 4) == w
  {}

  lemma SregBitRound(op: SregBitOp, s: bv16)
    requires s < 8
    ensures Decode(SregBitBits(op) | (s << 4)) == SregBit(op, s)
  {
    SregBitOpcodeListed(op);
    SregBitExtract(SregBitBits(op), s);
    SregBitAt(SregBitBits(op) | (s << 4));
  }

  lemma WordConstOpcodeListed(op: WordConstOp)
    ensures WordConstTable(WordConstBits(op)) == Some(op)
    ensures WordConstBits(op) & (0x00cf | 0x0030) == 0
  {}

  lemma WordConstTableHolds(m: bv16)
    ensures WordConstTable(m).Some? ==> WordConstBits(WordConstTable(m).value) == m
  {}

  lemma WordConstAt(w: bv16)
    requires WordConstTable(w & !(0x00cf | 0x0030)).Some?
    ensures Decode(w) == WordConst(WordConstTable(w & !(0x00cf | 0x0030)).value, GetRd2(w), GetK6(w))
  {
    WordConstShape(w);
    ShapesExclusive(w);
  }

  lemma WordConstExtract(base: bv16, d: bv16, k: bv16)
    requires base & (0x00cf | 0x0030) == 0 && (d == 24 || d == 26 || d == 28 || d == 30) && k < 64
    ensures var w := base | WordConstFields(d, k); w & !(0x00cf | 0x0030) == base && GetRd2(w) == d && GetK6(w) == k
  {}

  lemma WordConstInsert(w: bv16)
    ensures var d, k := GetRd2(w), GetK6(w); (d == 24 || d == 26 || d == 28 || d == 30) && k < 64
    ensures var d, k := GetRd2(w), GetK6(w); (w & !(0x00cf | 0x0030)) | WordConstFields(d, k) == w
  {}

  lemma WordConstRound(op: WordConstOp, d: bv16, k: bv16)
    requires (d == 24 || d == 26 || d == 28 || d == 30) && k < 64
    ensures Decode(WordConstBits(op) | WordConstFields(d, k)) == WordConst(op, d, k)
  {
    WordConstOpcodeListed(op);
    WordConstExtract(WordConstBits(op), d, k);
    WordConstAt(WordConstBits(op) | WordConstFields(d, k));
  }

  lemma IoBitOpcodeListed(op: IoBitOp)
    ensures IoBitTable(IoBitBits(op)) == Some(op)
    ensures IoBitBits(op) & (0x00f8 | 0x0007) == 0
  {}

  lemma IoBitTableHolds(m: bv16)
    ensures IoBitTable(m).Some? ==> IoBitBits(IoBitTable(m).value) == m
  {}

  lemma IoBitAt(w: bv16)
    requires IoBitTable(w & !(0x00f8 | 0x0007)).Some?
    ensures Decode(w) == IoBit(IoBitTable(w & !(0x00f8 | 0x0007)).value, GetA5(w), GetRegBit(w))
  {
    IoBitShape(w);
    ShapesExclusive(w);
  }

  lemma IoBitExtract(base: bv16, a: bv16, b: bv16)
    requires base & (0x00f8 | 0x0007) == 0 && a < 32 && b < 8
    ensures var w := base | IoBitFields(a, b); w & !(0x00f8 | 0x0007) == base && GetA5(w) == a && GetRegBit(w) == b
  {}

  lemma IoBitInsert(w: bv16)
    ensures var a, b := GetA5(w), GetRegBit(w); a < 32 && b < 8
    ensures var a, b := GetA5(w), GetRegBit(w); (w & !(0x00f8 | 0x0007)) | IoBitFields(a, b) == w
  {}

  lemma IoBitRound(op: IoBitOp, a: bv16, b: bv16)
    requires a < 32 && b < 8
    ensures Decode(IoBitBits(op) | IoBitFields(a, b)) == IoBit(op, a, b)
  {
    IoBitOpcodeListed(op);
    IoBitExtract(IoBitBits(op), a, b);
    IoBitAt(IoBitBits(op) | IoBitFields(a, b));
  }

  lemma IoRegOpcodeListed(op: IoRegOp)
    ensures IoRegTable(IoRegBits(op)) == Some(op)
    ensures IoRegBits(op) & (0x060f | 0x01f0) == 0
  {}

  lemma IoRegTableHolds(m: bv16)
    ensures IoRegTable(m).Some? ==> IoRegBits(IoRegTable(m).value) == m
  {}

  lemma IoRegAt(w: bv16)
    requires IoRegTable(w & !(0x060f | 0x01f0)).Some?
    ensures Decode(w) == IoReg(IoRegTable(w & !(0x060f | 0x01f0)).value, GetRd5(w), GetA6(w))
  {
    IoRegShape(w);
    ShapesExclusive(w);
  }

  lemma IoRegExtract(base: bv16, d: bv16, a: bv16)
    requires base & (0x060f | 0x01f0) == 0 && d < 32 && a < 64
    ensures var w := base | IoRegFields(d, a); w & !(0x060f | 0x01f0) == base && GetRd5(w) == d && GetA6(w) == a
  {}

  lemma IoRegInsert(w: bv16)
    ensures var d, a := GetRd5(w), GetA6(w); d < 32 && a < 64
    ensures var d, a := GetRd5(w), GetA6(w); (w & !(0x060f | 0x01f0)) | IoRegFields(d, a) == w
  {}

  lemma IoRegRound(op: IoRegOp, d: bv16, a: bv16)
    requires d < 32 && a < 64
    ensures Decode(IoRegBits(op) | IoRegFields(d, a)) == IoReg(op, d, a)
  {
    IoRegOpcodeListed(op);
    IoRegExtract(IoRegBits(op), d, a);
    IoRegAt(IoRegBits(op) | IoRegFields(d, a));
  }

  lemma RelativeOpcodeListed(op: RelativeOp)
    ensures RelativeTable(RelativeBits(op)) == Some(op)
    ensures RelativeBits(op) & 0x0fff == 0
  {}

  lemma RelativeTableHolds(m: bv16)
    ensures RelativeTable(m).Some? ==> RelativeBits(RelativeTable(m).value) == m
  {}

  lemma RelativeAt(w: bv16)
    requires RelativeTable(w & !0x0fff).Some?
    ensures Decode(w) == Relative(RelativeTable(w & !0x0fff).value, GetK12(w))
  {
    RelativeShape(w);
    ShapesExclusive(w);
  }

  lemma RelativeExtract(base: bv16, k: bv16)
    requires base & 0x0fff == 0 && k < 0x1000
    ensures var w := base | k; w & !0x0fff == base && GetK12(w) == k
  {}

  lemma RelativeInsert(w: bv16)
    ensures var k := GetK12(w); k < 0x1000
    ensures var k := GetK12(w); (w & !0x0fff) | k == w
  {}

  lemma RelativeRound(op: RelativeOp, k: bv16)
    requires k < 0x1000
    ensures Decode(RelativeBits(op) | k) == Relative(op, k)
  {
    RelativeOpcodeListed(op);
    RelativeExtract(RelativeBits(op), k);
    RelativeAt(RelativeBits(op) | k);
  }

  lemma HighRegsOpcodeListed(op: HighRegsOp)
    ensures HighRegsTable(HighRegsBits(op)) == Some(op)
    ensures HighRegsBits(op) & (0x00f0 | 0x000f) == 0
  {}

  lemma HighRegsTableHolds(m: bv16)
    ensures HighRegsTable(m).Some? ==> HighRegsBits(HighRegsTable(m).value) == m
  {}

  lemma HighRegsAt(w: bv16)
    requires HighRegsTable(w & !(0x00f0 | 0x000f)).Some?
    ensures Decode(w) == HighRegs(HighRegsTable(w & !(0x00f0 | 0x000f)).value, GetRd4(w), GetRr4(w))
  {
    HighRegsShape(w);
    ShapesExclusive(w);
  }

  lemma HighRegsExtract(base: bv16, d: bv16, r: bv16)
    requires base & (0x00f0 | 0x000f) == 0 && 16 <= d < 32 && 16 <= r < 32
    ensures var w := base | HighRegsFields(d, r); w & !(0x00f0 | 0x000f) == base && GetRd4(w) == d && GetRr4(w) == r
  {}

  lemma HighRegsInsert(w: bv16)
    ensures var d, r := GetRd4(w), GetRr4(w); 16 <= d < 32 && 16 <= r < 32
    ensures var d, r := GetRd4(w), GetRr4(w); (w & !(0x00f0 | 0x000f)) | HighRegsFields(d, r) == w
  {}

  lemma HighRegsRound(op: HighRegsOp, d: bv16, r: bv16)
    requires 16 <= d < 32 && 16 <= r < 32
    ensures Decode(HighRegsBits(op) | HighRegsFields(d, r)) == HighRegs(op, d, r)
  {
    HighRegsOpcodeListed(op);
    HighRegsExtract(HighRegsBits(op), d, r);
    HighRegsAt(HighRegsBits(op) | HighRegsFields(d, r));
  }

  lemma MidRegsOpcodeListed(op: MidRegsOp)
    ensures MidRegsTable(MidRegsBits(op)) == Some(op)
    ensures MidRegsBits(op) & (0x0070 | 0x0007) == 0
  {}

  lemma MidRegsTableHolds(m: bv16)
    ensures MidRegsTable(m).Some? ==> MidRegsBits(MidRegsTable(m).value) == m
  {}

  lemma MidRegsAt(w: bv16)
    requires MidRegsTable(w & !(0x0070 | 0x0007)).Some?
    ensures Decode(w) == MidRegs(MidRegsTable(w & !(0x0070 | 0x0007)).value, GetRd3(w), GetRr3(w))
  {
    MidRegsShape(w);
    ShapesExclusive(w);
  }

  lemma MidRegsExtract(base: bv16, d: bv16, r: bv16)
    requires base & (0x0070 | 0x0007) == 0 && 16 <= d < 24 && 16 <= r < 24
    ensures var w := base | MidRegsFields(d, r); w & !(0x0070 | 0x0007) == base && GetRd3(w) == d && GetRr3(w) == r
  {}

  lemma MidRegsInsert(w: bv16)
    ensures var d, r := GetRd3(w), GetRr3(w); 16 <= d < 24 && 16 <= r < 24
    ensures var d, r := GetRd3(w), GetRr3(w); (w & !(0x0070 | 0x0007)) | MidRegsFields(d, r) == w
  {}

  lemma MidRegsRound(op: MidRegsOp, d: bv16, r: bv16)
    requires 16 <= d < 24 && 16 <= r < 24
    ensures Decode(MidRegsBits(op) | MidRegsFields(d, r)) == MidRegs(op, d, r)
  {
    MidRegsOpcodeListed(op);
    MidRegsExtract(MidRegsBits(op), d, r);
    MidRegsAt(MidRegsBits(op) | MidRegsFields(d, r));
  }
}
