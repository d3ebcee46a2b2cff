/**
 Decoding inverts encoding, and encoding inverts decoding, shape by shape and then for every word.
 */
module DecoderInverse {
  import opened Decoder
  import opened DecoderFields

  lemma NoOperandDecodeEncode(i: Instr)
    requires Valid(i) && i.NoOperand?
    ensures Decode(Encode(i)) == i
  {
    NoOperandOpcodeListed(i.op0);
    NoOperandAt(Encode(i));
  }

  lemma NoOperandEncodeDecode(w: bv16)
    requires NoOperandTable(w).Some?
    ensures Valid(Decode(w)) && Encode(Decode(w)) == w
  {
    NoOperandAt(w);
    NoOperandTableHolds(w);
  }

  lemma TwoRegDecodeEncode(i: Instr)
    requires Valid(i) && i.TwoReg?
    ensures Decode(Encode(i)) == i
  {
    TwoRegRound(i.op2, i.d, i.r);
  }

  lemma TwoRegEncodeDecode(w: bv16)
    requires TwoRegTable(w & !(0x01f0 | 0x020f)).Some?
    ensures Valid(Decode(w)) && Encode(Decode(w)) == w
  {
    TwoRegAt(w);
    TwoRegTableHolds(w & !(0x01f0 | 0x020f));
    TwoRegInsert(w);
  }

  lemma OneRegDecodeEncode(i: Instr)
    requires Valid(i) && i.OneReg?
    ensures Decode(Encode(i)) == i
  {
    OneRegRound(i.op1, i.d);
  }

  lemma OneRegEncodeDecode(w: bv16)
    requires OneRegTable(w & !0x01f0).Some?
    ensures Valid(Decode(w)) && Encode(Decode(w)) == w
  {
    OneRegAt(w);
    OneRegTableHolds(w & !0x01f0);
    OneRegInsert(w);
  }

  lemma RegConstDecodeEncode(i: Instr)
    requires Valid(i) && i.RegConst?
    ensures Decode(Encode(i)) == i
  {
    RegConstRound(i.opk, i.d, i.k);
  }

  lemma RegConstEncodeDecode(w: bv16)
    requires RegConstTable(w & !(0x00f0 | 0x0f0f)).Some?
    ensures Valid(Decode(w)) && Encode(Decode(w)) == w
  {
    RegConstAt(w);
    RegConstTableHolds(w & !(0x00f0 | 0x0f0f));
    RegConstInsert(w);
  }

  lemma RegBitDecodeEncode(i: Instr)
    requires Valid(i) && i.RegBit?
    ensures Decode(Encode(i)) == i
  {
    RegBitRound(i.opb, i.d, i.b);
  }

  lemma RegBitEncodeDecode(w: bv16)
    requires RegBitTable(w & !(0x01f0 | 0x0007)).Some?
    ensures Valid(Decode(w)) && Encode(Decode(w)) == w
  {
    RegBitAt(w);
    RegBitTableHolds(w & !(0x01f0 | 0x0007));
    RegBitInsert(w);
  }

  lemma BranchDecodeEncode(i: Instr)
    requires Valid(i) && i.Branch?
    ensures Decode(Encode(i)) == i
  {
    BranchRound(i.opc, i.s, i.k);
  }

  lemma BranchEncodeDecode(w: bv16)
    requires BranchTable(w & !(0x03f8 | 0x0007)).Some?
    ensures Valid(Decode(w)) && Encode(Decode(w)) == w
  {
    BranchAt(w);
    BranchTableHolds(w & !(0x03f8 | 0x0007));
    BranchInsert(w);
  }

  lemma DisplDecodeEncode(i: Instr)
    requires Valid(i) && i.Displ?
    ensures Decode(Encode(i)) == i
  {
    DisplRound(i.opq, i.d, i.q);
  }

  lemma DisplEncodeDecode(w: bv16)
    requires DisplTable(w & !(0x01f0 | 0x2c07)).Some?
    ensures Valid(Decode(w)) && Encode(Decode(w)) == w
  {
    DisplAt(w);
    DisplTableHolds(w & !(0x01f0 | 0x2c07));
    DisplInsert(w);
  }

  lemma LongDecodeEncode(i: Instr)
    requires Valid(i) && i.Long?
    ensures Decode(Encode(i)) == i
  {
    LongRound(i.opl, i.k);
  }

  lemma LongEncodeDecode(w: bv16)
    requires LongTable(w & !0x01f1).Some?
    ensures Valid(Decode(w)) && Encode(Decode(w)) == w
  {
    LongAt(w);
    LongTableHolds(w & !0x01f1);
    LongInsert(w);
  }

  lemma SregBitDecodeEncode(i: Instr)
    requires Valid(i) && i.SregBit?
    ensures Decode(Encode(i)) == i
  {
    SregBitRound(i.ops, i.s);
  }

  lemma SregBitEncodeDecode(w: bv16)
    requires SregBitTable(w & !0x0070).Some?
    ensures Valid(Decode(w)) && Encode(Decode(w)) == w
  {
    SregBitAt(w);
    SregBitTableHolds(w & !0x0070);
    SregBitInsert(w);
  }

  lemma WordConstDecodeEncode(i: Instr)
    requires Valid(i) && i.WordConst?
    ensures Decode(Encode(i)) == i
  {
    WordConstRound(i.opw, i.d, i.k);
  }

  lemma WordConstEncodeDecode(w: bv16)
    requires WordConstTable(w & !(0x00cf | 0x0030)).Some?
    ensures Valid(Decode(w)) && Encode(Decode(w)) == w
  {
    WordConstAt(w);
    WordConstTableHolds(w & !(0x00cf | 0x0030));
    WordConstInsert(w);
  }

  lemma IoBitDecodeEncode(i: Instr)
    requires Valid(i) && i.IoBit?
    ensures Decode(Encode(i)) == i
  {
    IoBitRound(i.opa, i.a, i.b);
  }

  lemma IoBitEncodeDecode(w: bv16)
    requires IoBitTable(w & !(0x00f8 | 0x0007)).Some?
    ensures Valid(Decode(w)) && Encode(Decode(w)) == w
  {
    IoBitAt(w);
    IoBitTableHolds(w & !(0x00f8 | 0x0007));
    IoBitInsert(w);
  }

  lemma IoRegDecodeEncode(i: Instr)
    requires Valid(i) && i.IoReg?
    ensures Decode(Encode(i)) == i
  {
    IoRegRound(i.opi, i.d, i.a);
  }

  lemma IoRegEncodeDecode(w: bv16)
    requires IoRegTable(w & !(0x060f | 0x01f0)).Some?
    ensures Valid(Decode(w)) && Encode(Decode(w)) == w
  {
    IoRegAt(w);
    IoRegTableHolds(w & !(0x060f | 0x01f0));
    IoRegInsert(w);
  }

  lemma RelativeDecodeEncode(i: Instr)
    requires Valid(i) && i.Relative?
    ensures Decode(Encode(i)) == i
  {
    RelativeRound(i.opr, i.k);
  }

  lemma RelativeEncodeDecode(w: bv16)
    requires RelativeTable(w & !0x0fff).Some?
    ensures Valid(Decode(w)) && Encode(Decode(w)) == w
  {
    RelativeAt(w);
    RelativeTableHolds(w & !0x0fff);
    RelativeInsert(w);
  }

  lemma HighRegsDecodeEncode(i: Instr)
    requires Valid(i) && i.HighRegs?
    ensures Decode(Encode(i)) == i
  {
    HighRegsRound(i.oph, i.d, i.r);
  }

  lemma HighRegsEncodeDecode(w: bv16)
    requires HighRegsTable(w & !(0x00f0 | 0x000f)).Some?
    ensures Valid(Decode(w)) && Encode(Decode(w)) == w
  {
    HighRegsAt(w);
    HighRegsTableHolds(w & !(0x00f0 | 0x000f));
    HighRegsInsert(w);
  }

  lemma MidRegsDecodeEncode(i: Instr)
    requires Valid(i) && i.MidRegs?
    ensures Decode(Encode(i)) == i
  {
    MidRegsRound(i.opm, i.d, i.r);
  }

  lemma MidRegsEncodeDecode(w: bv16)
    requires MidRegsTable(w & !(0x0070 | 0x0007)).Some?
    ensures Valid(Decode(w)) && Encode(Decode(w)) == w
  {
    MidRegsAt(w);
    MidRegsTableHolds(w & !(0x0070 | 0x0007));
    MidRegsInsert(w);
  }

  /** Every instruction is recognised from its encoding, with its own operands. */
  lemma DecodeEncode(i: Instr)
    requires Valid(i)
    ensures Decode(Encode(i)) == i
  {
    match i
    case NoOperand(_) => NoOperandDecodeEncode(i);
    case TwoReg(_, _, _) => TwoRegDecodeEncode(i);
    case OneReg(_, _) => OneRegDecodeEncode(i);
    case RegConst(_, _, _) => RegConstDecodeEncode(i);
    case RegBit(_, _, _) => RegBitDecodeEncode(i);
    case Branch(_, _, _) => BranchDecodeEncode(i);
    case Displ(_, _, _) => DisplDecodeEncode(i);
    case Long(_, _) => LongDecodeEncode(i);
    case SregBit(_, _) => SregBitDecodeEncode(i);
    case WordConst(_, _, _) => WordConstDecodeEncode(i);
    case IoBit(_, _, _) => IoBitDecodeEncode(i);
    case IoReg(_, _, _) => IoRegDecodeEncode(i);
    case Relative(_, _) => RelativeDecodeEncode(i);
    case HighRegs(_, _, _) => HighRegsDecodeEncode(i);
    case MidRegs(_, _, _) => MidRegsDecodeEncode(i);
  }

  /** A word that decodes is the encoding of what it decodes to, and of nothing else. */
  lemma EncodeDecode(w: bv16)
    requires Decode(w) != Unknown
    ensures Valid(Decode(w))
    ensures Encode(Decode(w)) == w
  {
    if NoOperandTable(w).Some? {
      NoOperandEncodeDecode(w);
    } else if TwoRegTable(w & !(0x01f0 | 0x020f)).Some? {
      TwoRegEncodeDecode(w);
    } else if OneRegTable(w & !0x01f0).Some? {
      OneRegEncodeDecode(w);
    } else if RegConstTable(w & !(0x00f0 | 0x0f0f)).Some? {
      RegConstEncodeDecode(w);
    } else if RegBitTable(w & !(0x01f0 | 0x0007)).Some? {
      RegBitEncodeDecode(w);
    } else if BranchTable(w & !(0x03f8 | 0x0007)).Some? {
      BranchEncodeDecode(w);
    } else if DisplTable(w & !(0x01f0 | 0x2c07)).Some? {
      DisplEncodeDecode(w);
    } else if LongTable(w & !0x01f1).Some? {
      LongEncodeDecode(w);
    } else if SregBitTable(w & !0x0070).Some? {
      SregBitEncodeDecode(w);
    } else if WordConstTable(w & !(0x00cf | 0x0030)).Some? {
      WordConstEncodeDecode(w);
    } else if IoBitTable(w & !(0x00f8 | 0x0007)).Some? {
      IoBitEncodeDecode(w);
    } else if IoRegTable(w & !(0x060f | 0x01f0)).Some? {
      IoRegEncodeDecode(w);
    } else if RelativeTable(w & !0x0fff).Some? {
      RelativeEncodeDecode(w);
    } else if HighRegsTable(w & !(0x00f0 | 0x000f)).Some? {
      HighRegsEncodeDecode(w);
    } else if MidRegsTable(w & !(0x0070 | 0x0007)).Some? {
      MidRegsEncodeDecode(w);
    }
  }
}
