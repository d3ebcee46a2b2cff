/**
 The register image the debugger reads with 'g' and writes with 'G': the 32 working registers, the
 status register, the stack pointer and the program counter in bytes, lowest byte first.
 */
module GdbRegisters {
  import opened Bytes
  import opened Bitwise
  import opened Alu
  import opened Memory
  import opened Instructions
  import Hex

  const SPL_ADDR := 0x5d
  const SPH_ADDR := 0x5e

  const IMAGE_BYTES := 39

  /** The four bytes of a 32-bit value, lowest first. */
  function Little32(v: nat): (bs: seq<byte>)
    ensures |bs| == 4
  {
    [v % 256, v / 256 % 256, v / 0x1_0000 % 256, v / 0x100_0000 % 256]
  }

  function From32(bs: seq<byte>): nat
    requires |bs| == 4
  {
    Value(bs)
  }

  /** The image as bytes; the counter is doubled, as the debugger counts flash in bytes. */
  function Image(dev: Device, m: Cpu): (bs: seq<byte>)
    requires Wf(dev, m)
    ensures |bs| == IMAGE_BYTES
  {
    m.regs + [SregByte(m.sreg), Read(dev, m, SPL_ADDR), Read(dev, m, SPH_ADDR)] + Little32(ToUint32(m.pc * 2))
  }

  /** The machine after writing an image: registers, status, stack pointer bytes, counter, in this order. */
  function Load(dev: Device, m: Cpu, bs: seq<byte>): (m': Cpu)
    requires Wf(dev, m) && |bs| == IMAGE_BYTES
    ensures Wf(dev, m')
  {
    var m1 := m.(regs := bs[..32], sreg := ByteSreg(bs[32]));
    var m2 := Write(dev, m1, SPL_ADDR, bs[33]);
    var m3 := Write(dev, m2, SPH_ADDR, bs[34]);
    PcSet(dev, m3, From32(bs[35..]) / 2)
  }

  /** Build the reply to 'g', two digits a byte. */
  method ReadRegisters(dev: Device, m: Cpu) returns (buf: string)
    requires Wf(dev, m)
    ensures buf == Hex.Encode(Image(dev, m))
  {
    ghost var image := Image(dev, m);
    buf := AppendWorking(m.regs, image);
    buf := AppendByte(buf, SregByte(m.sreg), image, 32);
    buf := AppendByte(buf, Read(dev, m, SPL_ADDR), image, 33);
    buf := AppendByte(buf, Read(dev, m, SPH_ADDR), image, 34);
    var val := ToUint32(m.pc * 2);
    assert image[35..] == Little32(val);
    buf := AppendCounter(buf, val, image);
  }

  /** The working registers, which come first. */
  method AppendWorking(regs: seq<byte>, ghost image: seq<byte>) returns (buf: string)
    requires |regs| == 32 && |image| == IMAGE_BYTES && image[..32] == regs
    ensures buf == Hex.Encode(image[..32])
  {
    buf := "";
    for i := 0 to 32
      invariant buf == Hex.Encode(image[..i])
    {
      assert image[i] == regs[i];
      buf := AppendByte(buf, regs[i], image, i);
    }
  }

  /** The counter, which comes last. */
  method AppendCounter(buf: string, val: nat, ghost image: seq<byte>) returns (more: string)
    requires |image| == IMAGE_BYTES && buf == Hex.Encode(image[..35]) && image[35..] == Little32(val)
    ensures more == Hex.Encode(image)
  {
    more := AppendByte(buf, val % 256, image, 35);
    more := AppendByte(more, val / 256 % 256, image, 36);
    more := AppendByte(more, val / 0x1_0000 % 256, image, 37);
    more := AppendByte(more, val / 0x100_0000 % 256, image, 38);
    assert image[..39] == image;
  }

  method AppendByte(buf: string, b: byte, ghost image: seq<byte>, ghost i: nat) returns (more: string)
    requires i < |image| && image[i] == b && buf == Hex.Encode(image[..i])
    ensures more == Hex.Encode(image[..i + 1])
  {
    Hex.EncodeAppend(image[..i], b);
    assert image[..i] + [b] == image[..i + 1];
    more := buf + [Hex.Digit(b / 16), Hex.Digit(b % 16)];
  }

  /** Take the next byte of a packet. */
  method ByteAt(pkt: string, i: nat) returns (b: byte)
    requires Hex.AllHex(pkt) && |pkt| == 2 * IMAGE_BYTES && i < IMAGE_BYTES
    ensures b == Hex.Decode(pkt)[i]
  {
    Hex.DecodeAt(pkt, i);
    b := Hex.Nibble(pkt[2 * i]) * 16 + Hex.Nibble(pkt[2 * i + 1]);
  }

  /** Obey 'G'. */
  method WriteRegisters(dev: Device, m: Cpu, pkt: string) returns (m': Cpu)
    requires Wf(dev, m)
    requires Hex.AllHex(pkt) && |pkt| == 2 * IMAGE_BYTES
    ensures Wf(dev, m') && m' == Load(dev, m, Hex.Decode(pkt))
  {
    ghost var bs := Hex.Decode(pkt);
    m' := m;
    for i := 0 to 32
      invariant |m'.regs| == 32 && m' == m.(regs := bs[..i] + m.regs[i..])
    {
      var b := ByteAt(pkt, i);
      m' := m'.(regs := m'.regs[i := b]);
      assert m'.regs == bs[..i + 1] + m.regs[i + 1..];
    }
    assert m'.regs == bs[..32];
    var sreg := ByteAt(pkt, 32);
    m' := m'.(sreg := ByteSreg(sreg));
    var spl := ByteAt(pkt, 33);
    m' := Write(dev, m', SPL_ADDR, spl);
    var sph := ByteAt(pkt, 34);
    m' := Write(dev, m', SPH_ADDR, sph);
    var b0 := ByteAt(pkt, 35);
    var b1 := ByteAt(pkt, 36);
    var b2 := ByteAt(pkt, 37);
    var b3 := ByteAt(pkt, 38);
    var val := b0 as int + 256 * b1 as int + 0x1_0000 * b2 as int + 0x100_0000 * b3 as int;
    FourBytes(bs[35..], b0, b1, b2, b3);
    m' := PcSet(dev, m', val / 2);
  }

  lemma FourBytes(bs: seq<byte>, b0: byte, b1: byte, b2: byte, b3: byte)
    requires bs == [b0, b1, b2, b3]
    ensures Value(bs) == b0 as int + 256 * b1 as int + 0x1_0000 * b2 as int + 0x100_0000 * b3 as int
  {
    var t1, t2, t3 := bs[1..], bs[2..], bs[3..];
    assert t1 == [b1, b2, b3] && t1[1..] == t2 && t2[1..] == t3 && t3[1..] == [];
    assert Value(t3) == b3 as int;
    assert Value(t2) == b2 as int + 256 * Value(t3);
    assert Value(t1) == b1 as int + 256 * Value(t2);
    assert Value(bs) == b0 as int + 256 * Value(t1);
  }

  lemma LittleRoundTrip(v: nat)
    requires v < 0x1_0000_0000
    ensures From32(Little32(v)) == v
  {
    var bs := Little32(v);
    FourBytes(bs, bs[0], bs[1], bs[2], bs[3]);
    DivDiv(v, 256);
    DivDiv(v, 0x1_0000);
    var q1, q2, q3 := v / 256, v / 256 / 256, v / 256 / 256 / 256;
    assert v == 256 * q1 + v % 256;
    assert q1 == 256 * q2 + q1 % 256;
    assert q2 == 256 * q3 + q2 % 256;
  }

  /** Both bytes of the stack pointer are where the debugger looks for them. */
  predicate SphMapped(dev: Device) {
    CellAt(dev, SPH_ADDR) == Cell(SphCell, 255, 255)
  }

  /** The low byte of the stack pointer is where the debugger looks for it; the high byte is too, or is nowhere. */
  predicate SpMapped(dev: Device) {
    CellAt(dev, SPL_ADDR) == Cell(SplCell, 255, 255) && (SphMapped(dev) || CellAt(dev, SPH_ADDR).kind == NoDevice)
  }

  /** The stack pointer sp once the two bytes that can be read of it are written over other. */
  function SpOver(dev: Device, sp: word, other: word): word {
    if SphMapped(dev) then sp else other / 256 * 256 + sp % 256
  }

  lemma ReplaceLow(sp: word, low: byte)
    ensures (sp / 256 * 256 + low) % 256 == low
  {
  }

  lemma SpRead(dev: Device, m: Cpu)
    requires Wf(dev, m) && SpMapped(dev)
    ensures Read(dev, m, SPL_ADDR) == m.sp % 256
    ensures SphMapped(dev) ==> Read(dev, m, SPH_ADDR) == m.sp / 256
  {
    var low, high := m.sp % 256, m.sp / 256;
    AndFull(low, CellAt(dev, SPL_ADDR).rdMask);
    if SphMapped(dev) {
      AndFull(high, CellAt(dev, SPH_ADDR).rdMask);
    }
  }

  lemma SpWritten(dev: Device, m: Cpu, sp: word, high: byte)
    requires Wf(dev, m) && SpMapped(dev) && (SphMapped(dev) ==> high == sp / 256)
    ensures Write(dev, Write(dev, m, SPL_ADDR, sp % 256), SPH_ADDR, high) == m.(sp := SpOver(dev, sp, m.sp))
  {
    var low := sp % 256;
    AndFull(low, CellAt(dev, SPL_ADDR).wrMask);
    ReplaceLow(m.sp, low);
    var m1 := Write(dev, m, SPL_ADDR, low);
    assert m1 == m.(sp := m.sp / 256 * 256 + low);
    if SphMapped(dev) {
      AndFull(high, CellAt(dev, SPH_ADDR).wrMask);
      assert Write(dev, m1, SPH_ADDR, high) == m1.(sp := high * 256 + m1.sp % 256);
    }
  }

  /**
   An image taken of one machine and written to another of the same kind makes its registers,
   status and program counter those of the first, and of its stack pointer the bytes the device maps;
   it changes nothing else. Writing back its own image leaves a machine as it is, whether or not the
   device has a high byte of the stack pointer.
   */
  lemma ImageRoundTrip(dev: Device, m: Cpu, other: Cpu)
    requires Wf(dev, m) && Wf(dev, other) && SpMapped(dev)
    requires 0 <= m.pc < dev.pcMax <= 0x8000_0000
    ensures Load(dev, other, Image(dev, m)) ==
            other.(regs := m.regs, sreg := m.sreg, sp := SpOver(dev, m.sp, other.sp), pc := m.pc)
    ensures Load(dev, m, Image(dev, m)) == m
  {
    LoadImage(dev, m, other);
    LoadImage(dev, m, m);
    assert SpOver(dev, m.sp, m.sp) == m.sp;
  }

  lemma CounterBack(pc: nat)
    requires pc < 0x8000_0000
    ensures From32(Little32(ToUint32(pc * 2))) / 2 == pc
  {
    assert ToUint32(pc * 2) == pc * 2;
    LittleRoundTrip(pc * 2);
  }

  lemma LoadImage(dev: Device, m: Cpu, other: Cpu)
    requires Wf(dev, m) && Wf(dev, other) && SpMapped(dev)
    requires 0 <= m.pc < dev.pcMax <= 0x8000_0000
    ensures Load(dev, other, Image(dev, m)) ==
            other.(regs := m.regs, sreg := m.sreg, sp := SpOver(dev, m.sp, other.sp), pc := m.pc)
  {
    var bs := Image(dev, m);
    assert bs[..32] == m.regs;
    assert bs[35..] == Little32(ToUint32(m.pc * 2));
    ByteOfSregByte(m.sreg);
    CounterBack(m.pc);
    SpRead(dev, m);
    SpWritten(dev, other.(regs := m.regs, sreg := m.sreg), m.sp, Read(dev, m, SPH_ADDR));
  }

  lemma LittleIsSum(v: nat)
    requires v < 0x1_0000_0000
    ensures var bs := Little32(v);
            bs[0] as int + 256 * bs[1] as int + 0x1_0000 * bs[2] as int + 0x100_0000 * bs[3] as int == v
  {
    var bs := Little32(v);
    LittleRoundTrip(v);
    FourBytes(bs, bs[0], bs[1], bs[2], bs[3]);
  }

  /** Where the image has what: registers, status, and the halves of the stack pointer where the device maps them, */
  lemma ImageLayout(dev: Device, m: Cpu)
    requires Wf(dev, m)
    ensures var bs := Image(dev, m);
            && bs[..32] == m.regs && bs[32] == SregByte(m.sreg)
            && (CellAt(dev, 0x5d) == Cell(SplCell, 255, 255) ==> bs[33] == m.sp % 256)
            && (CellAt(dev, 0x5e) == Cell(SphCell, 255, 255) ==> bs[34] == m.sp / 256)
  {
    CellsShow(dev, m, 0x5d);
    CellsShow(dev, m, 0x5e);
  }

  /** and twice the counter, lowest byte first. */
  lemma ImageCounter(dev: Device, m: Cpu) returns (b0: int, b1: int, b2: int, b3: int)
    requires Wf(dev, m) && 0 <= m.pc < 0x8000_0000
    ensures var bs := Image(dev, m); b0 == bs[35] && b1 == bs[36] && b2 == bs[37] && b3 == bs[38]
    ensures b0 + 256 * b1 + 0x1_0000 * b2 + 0x100_0000 * b3 == 2 * m.pc
  {
    var v := m.pc * 2;
    var little := Little32(v);
    LittleIsSum(v);
    b0, b1, b2, b3 := little[0], little[1], little[2], little[3];
    assert Image(dev, m)[35..] == little;
  }
}
