/**
 The opcode tables of different operand shapes never match the same word, so the order in which the
 lookup tries them does not matter.
 */
module DecoderShapes {
  import opened Decoder

  /** The operand shape of a word, told from its leading bits; 15 where no shape fits. */
  function Shape(w: bv16): nat {
    var top := w >> 12;
    var second := (w >> 8) & 0xf;
    var low := w & 0xf;
    if top == 0 then (if second == 0 then 0 else if second <= 2 then 13 else if second == 3 then 14 else 1)
    else if top <= 2 then 1
    else if top <= 7 then 3
    else if top == 8 || top == 0xa then 6
    else if top == 9 then
      if second <= 3 then 2
      else if second <= 5 then
        (if low >= 0xc then 7 else if low == 9 || (low == 8 && second == 5) then 0 else if low == 8 then 8 else 2)
      else if second <= 7 then 9
      else if second <= 0xb then 10
      else 1
    else if top == 0xb then 11
    else if top <= 0xd then 12
    else if top == 0xe then 3
    else if second >= 8 then 4
    else 5
  }

  // Each lemma says where the opcodes of one shape lie.

  lemma NoOperandShape(w: bv16)
    requires NoOperandTable(w).Some?
    ensures Shape(w) == 0
  {}

  lemma TwoRegShape(w: bv16)
    requires TwoRegTable(w & !(0x01f0 | 0x020f)).Some?
    ensures Shape(w) == 1
  {}

  lemma OneRegShape(w: bv16)
    requires OneRegTable(w & !0x01f0).Some?
    ensures Shape(w) == 2
  {}

  lemma RegConstShape(w: bv16)
    requires RegConstTable(w & !(0x00f0 | 0x0f0f)).Some?
    ensures Shape(w) == 3
  {}

  lemma RegBitShape(w: bv16)
    requires RegBitTable(w & !(0x01f0 | 0x0007)).Some?
    ensures Shape(w) == 4
  {}

  lemma BranchShape(w: bv16)
    requires BranchTable(w & !(0x03f8 | 0x0007)).Some?
    ensures Shape(w) == 5
  {}

  lemma DisplShape(w: bv16)
    requires DisplTable(w & !(0x01f0 | 0x2c07)).Some?
    ensures Shape(w) == 6
  {}

  lemma LongShape(w: bv16)
    requires LongTable(w & !0x01f1).Some?
    ensures Shape(w) == 7
  {}

  lemma SregBitShape(w: bv16)
    requires SregBitTable(w & !0x0070).Some?
    ensures Shape(w) == 8
  {}

  lemma WordConstShape(w: bv16)
    requires WordConstTable(w & !(0x00cf | 0x0030)).Some?
    ensures Shape(w) == 9
  {}

  lemma IoBitShape(w: bv16)
    requires IoBitTable(w & !(0x00f8 | 0x0007)).Some?
    ensures Shape(w) == 10
  {}

  lemma IoRegShape(w: bv16)
    requires IoRegTable(w & !(0x060f | 0x01f0)).Some?
    ensures Shape(w) == 11
  {}

  lemma RelativeShape(w: bv16)
    requires RelativeTable(w & !0x0fff).Some?
    ensures Shape(w) == 12
  {}

  lemma HighRegsShape(w: bv16)
    requires HighRegsTable(w & !(0x00f0 | 0x000f)).Some?
    ensures Shape(w) == 13
  {}

  lemma MidRegsShape(w: bv16)
    requires MidRegsTable(w & !(0x0070 | 0x0007)).Some?
    ensures Shape(w) == 14
  {}

  /** No word matches two operand shapes, so the order in which they are tried does not matter. */
  lemma ShapesExclusive(w: bv16)
    ensures NoOperandTable(w).Some? ==> Shape(w) == 0
    ensures TwoRegTable(w & !(0x01f0 | 0x020f)).Some? ==> Shape(w) == 1
    ensures OneRegTable(w & !0x01f0).Some? ==> Shape(w) == 2
    ensures RegConstTable(w & !(0x00f0 | 0x0f0f)).Some? ==> Shape(w) == 3
    ensures RegBitTable(w & !(0x01f0 | 0x0007)).Some? ==> Shape(w) == 4
    ensures BranchTable(w & !(0x03f8 | 0x0007)).Some? ==> Shape(w) == 5
    ensures DisplTable(w & !(0x01f0 | 0x2c07)).Some? ==> Shape(w) == 6
    ensures LongTable(w & !0x01f1).Some? ==> Shape(w) == 7
    ensures SregBitTable(w & !0x0070).Some? ==> Shape(w) == 8
    ensures WordConstTable(w & !(0x00cf | 0x0030)).Some? ==> Shape(w) == 9
    ensures IoBitTable(w & !(0x00f8 | 0x0007)).Some? ==> Shape(w) == 10
    ensures IoRegTable(w & !(0x060f | 0x01f0)).Some? ==> Shape(w) == 11
    ensures RelativeTable(w & !0x0fff).Some? ==> Shape(w) == 12
    ensures HighRegsTable(w & !(0x00f0 | 0x000f)).Some? ==> Shape(w) == 13
    ensures MidRegsTable(w & !(0x0070 | 0x0007)).Some? ==> Shape(w) == 14
  {
    if NoOperandTable(w).Some? { NoOperandShape(w); }
    if TwoRegTable(w & !(0x01f0 | 0x020f)).Some? { TwoRegShape(w); }
    if OneRegTable(w & !0x01f0).Some? { OneRegShape(w); }
    if RegConstTable(w & !(0x00f0 | 0x0f0f)).Some? { RegConstShape(w); }
    if RegBitTable(w & !(0x01f0 | 0x0007)).Some? { RegBitShape(w); }
    if BranchTable(w & !(0x03f8 | 0x0007)).Some? { BranchShape(w); }
    if DisplTable(w & !(0x01f0 | 0x2c07)).Some? { DisplShape(w); }
    if LongTable(w & !0x01f1).Some? { LongShape(w); }
    if SregBitTable(w & !0x0070).Some? { SregBitShape(w); }
    if WordConstTable(w & !(0x00cf | 0x0030)).Some? { WordConstShape(w); }
    if IoBitTable(w & !(0x00f8 | 0x0007)).Some? { IoBitShape(w); }
    if IoRegTable(w & !(0x060f | 0x01f0)).Some? { IoRegShape(w); }
    if RelativeTable(w & !0x0fff).Some? { RelativeShape(w); }
    if HighRegsTable(w & !(0x00f0 | 0x000f)).Some? { HighRegsShape(w); }
    if MidRegsTable(w & !(0x0070 | 0x0007)).Some? { MidRegsShape(w); }
  }
}
