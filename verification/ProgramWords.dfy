/**
 How long an instruction is and whether it is a skip, read off its first word by masks.
 */
module ProgramWords {
  import opened Decoder
  import opened DecoderFields
  import opened DecoderInverse
  import opened Program
  import opened Wrappers

  predicate TwoWordBits(w: bv16) {
    || w & 0xfe0f == 0x9000 || w & 0xfe0f == 0x9200 // LDS, STS
    || w & 0xfe0e == 0x940e || w & 0xfe0e == 0x940c // CALL, JMP
  }

  predicate SkipBits(w: bv16) {
    || w & 0xfc00 == 0x1000                         // CPSE
    || w & 0xfe08 == 0xfc00 || w & 0xfe08 == 0xfe00 // SBRC, SBRS
    || w & 0xff00 == 0x9900 || w & 0xff00 == 0x9b00 // SBIC, SBIS
  }

  lemma LoadStoreBits(d: bv16)
    requires d < 32
    ensures TwoWordBits(0x9000 | (d << 4)) && TwoWordBits(0x9200 | (d << 4))
  {
  }

  lemma LongBits(k: bv16)
    requires k < 64
    ensures TwoWordBits(0x940e | LongFields(k)) && TwoWordBits(0x940c | LongFields(k))
  {
  }

  lemma TwoWordEncodes(i: Instr)
    requires Valid(i) && IsTwoWord(i)
    ensures TwoWordBits(Encode(i))
  {
    match i
    case OneReg(op, d) => LoadStoreBits(d);
    case Long(op, k) => LongBits(k);
  }

  lemma LoadStoreAt(w: bv16)
    requires w & 0xfe0f == 0x9000 || w & 0xfe0f == 0x9200
    ensures IsTwoWord(Decode(w))
  {
    assert w & !0x01f0 == w & 0xfe0f;
    OneRegAt(w);
  }

  lemma CallJumpAt(w: bv16)
    requires w & 0xfe0e == 0x940e || w & 0xfe0e == 0x940c
    ensures IsTwoWord(Decode(w))
  {
    assert w & !0x01f1 == w & 0xfe0e;
    LongAt(w);
  }

  /** Which words start an instruction of two words. */
  lemma TwoWordIff(w: bv16)
    ensures IsTwoWord(Decode(w)) <==> TwoWordBits(w)
  {
    if IsTwoWord(Decode(w)) {
      EncodeDecode(w);
      TwoWordEncodes(Decode(w));
    } else if w & 0xfe0f == 0x9000 || w & 0xfe0f == 0x9200 {
      LoadStoreAt(w);
    } else if TwoWordBits(w) {
      CallJumpAt(w);
    }
  }

  lemma CompareSkipBits(d: bv16, r: bv16)
    requires d < 32 && r < 32
    ensures SkipBits(0x1000 | TwoRegFields(d, r))
  {
  }

  lemma RegBitSkipBits(d: bv16, b: bv16)
    requires d < 32 && b < 8
    ensures SkipBits(0xfc00 | RegBitFields(d, b)) && SkipBits(0xfe00 | RegBitFields(d, b))
  {
  }

  lemma IoBitSkipBits(a: bv16, b: bv16)
    requires a < 32 && b < 8
    ensures SkipBits(0x9900 | IoBitFields(a, b)) && SkipBits(0x9b00 | IoBitFields(a, b))
  {
  }

  lemma SkipEncodes(i: Instr)
    requires Valid(i) && IsSkip(i)
    ensures SkipBits(Encode(i))
  {
    match i
    case TwoReg(_, d, r) => CompareSkipBits(d, r);
    case RegBit(_, d, b) => RegBitSkipBits(d, b);
    case IoBit(_, a, b) => IoBitSkipBits(a, b);
  }

  lemma CompareSkipAt(w: bv16)
    requires w & 0xfc00 == 0x1000
    ensures IsSkip(Decode(w))
  {
    assert w & !(0x01f0 | 0x020f) == w & 0xfc00;
    TwoRegAt(w);
  }

  lemma RegBitSkipAt(w: bv16)
    requires w & 0xfe08 == 0xfc00 || w & 0xfe08 == 0xfe00
    ensures IsSkip(Decode(w))
  {
    assert w & !(0x01f0 | 0x0007) == w & 0xfe08;
    RegBitAt(w);
  }

  lemma IoBitSkipAt(w: bv16)
    requires w & 0xff00 == 0x9900 || w & 0xff00 == 0x9b00
    ensures IsSkip(Decode(w))
  {
    assert w & !(0x00f8 | 0x0007) == w & 0xff00;
    IoBitAt(w);
  }

  /** Which words are skip instructions. */
  lemma SkipIff(w: bv16)
    ensures IsSkip(Decode(w)) <==> SkipBits(w)
  {
    if IsSkip(Decode(w)) {
      EncodeDecode(w);
      SkipEncodes(Decode(w));
    } else if w & 0xfc00 == 0x1000 {
      CompareSkipAt(w);
    } else if w & 0xfe08 == 0xfc00 || w & 0xfe08 == 0xfe00 {
      RegBitSkipAt(w);
    } else if SkipBits(w) {
      IoBitSkipAt(w);
    }
  }
}
