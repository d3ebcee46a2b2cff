/**
 ELPM: loads from program memory through the extended pointer RAMPZ:Z, and the read-back of a page
 that the program wrote itself.
 */
module ExtendedLoad {
  import Bitwise
  import opened Bytes
  import opened Memory
  import opened Instructions
  import opened Spm

  const RAMPZ_ADDR := 0x5b

  /** Halted stands for the errors that end the simulator. */
  datatype Loaded = Loaded(m: Cpu) | Halted

  /** RAMPZ is used where the device maps it, and counts as zero elsewhere. */
  predicate HasRampz(dev: Device) {
    RAMPZ_ADDR < |dev.cells| && dev.cells[RAMPZ_ADDR].kind == RampzCell
  }

  /** RAMPZ:Z, with the six low bits of RAMPZ. */
  function ExtendedZ(dev: Device, m: Cpu): nat
    requires |m.regs| == 32
  {
    (if HasRampz(dev) then m.rampz % 64 else 0) * 0x1_0000 + ZRegister(m)
  }

  /** The number of bytes the pointer can address. */
  function Reach(dev: Device): nat {
    if HasRampz(dev) then 0x40_0000 else 0x1_0000
  }

  lemma ExtendedZBound(dev: Device, m: Cpu)
    requires |m.regs| == 32
    ensures ExtendedZ(dev, m) < Reach(dev)
  {
  }

  /** Byte a of flash: the low byte of a word is at the even address. */
  function FlashByte(words: seq<word>, a: nat): byte
    requires a < 2 * |words|
  {
    if a % 2 == 1 then words[a / 2] / 256 else words[a / 2] % 256
  }

  /** The pointer written back: the low bytes to R30 and R31, six bits above them to RAMPZ. */
  function StoreZ(dev: Device, m: Cpu, z: nat): Cpu
    requires |m.regs| == 32
  {
    var m1 := m.(regs := m.regs[30 := z % 256][31 := z / 256 % 256]);
    if HasRampz(dev) then m1.(rampz := z / 0x1_0000 % 64) else m1
  }

  lemma ZParts(z: nat)
    ensures z / 0x1_0000 % 64 * 0x1_0000 + z / 256 % 256 * 256 + z % 256 == z % 0x40_0000
    ensures z / 256 % 256 * 256 + z % 256 == z % 0x1_0000
  {
    var mid := z / 256;
    assert mid / 256 == z / 0x1_0000;
    Bitwise.DivModUnique(z, 0x1_0000, mid / 256, mid % 256 * 256 + z % 256);
    Bitwise.DivModUnique(z, 0x40_0000, z / 0x1_0000 / 64, z / 0x1_0000 % 64 * 0x1_0000 + z % 0x1_0000);
  }

  lemma StoredZ(dev: Device, m: Cpu, z: nat)
    requires |m.regs| == 32
    ensures ExtendedZ(dev, StoreZ(dev, m, z)) == z % Reach(dev)
  {
    var m1 := StoreZ(dev, m, z);
    assert ZRegister(m1) == z / 256 % 256 * 256 + z % 256;
    ZParts(z);
  }

  /** ELPM Rd,Z and, with incr, ELPM Rd,Z+. */
  function ExecElpm(dev: Device, words: seq<word>, m: Cpu, d: nat, incr: bool): (r: Loaded)
    requires Wf(dev, m) && d < 32
    ensures r.Loaded? ==> Wf(dev, r.m)
  {
    var z := ExtendedZ(dev, m);
    if d == 30 || d == 31 || z / 2 >= |words| then Halted
    else
      var m1 := m.(regs := m.regs[d := FlashByte(words, z)]);
      var m2 := if incr then StoreZ(dev, m1, z + 1) else m1;
      Loaded(PcIncr(dev, m2.(cks := 3), 1))
  }

  /** One ELPM Rd,Z+ delivers the byte the pointer addresses and moves the pointer on. */
  lemma ElpmSteps(dev: Device, words: seq<word>, m: Cpu, d: nat)
    requires Wf(dev, m) && d < 30 && ExtendedZ(dev, m) / 2 < |words|
    ensures var r := ExecElpm(dev, words, m, d, true);
            r.Loaded? && r.m.regs[d] == FlashByte(words, ExtendedZ(dev, m))
            && ExtendedZ(dev, r.m) == (ExtendedZ(dev, m) + 1) % Reach(dev)
            && (ExtendedZ(dev, m) + 1 < Reach(dev) ==> ExtendedZ(dev, r.m) == ExtendedZ(dev, m) + 1)
  {
    var z, reach := ExtendedZ(dev, m), Reach(dev);
    var m1 := m.(regs := m.regs[d := FlashByte(words, z)]);
    StoredZ(dev, m1, z + 1);
    Bitwise.SmallRemainder(z + 1, reach);
    var m2 := StoreZ(dev, m1, z + 1);
    assert m2.regs[d] == m1.regs[d];
    assert forall pc, cks: nat :: ExtendedZ(dev, m2.(pc := pc, cks := cks)) == ExtendedZ(dev, m2);
  }

  /** The load in full: the byte of flash at RAMPZ:Z, low byte of a word first, and with incr the pointer one further. */
  lemma ElpmIs(dev: Device, words: seq<word>, m: Cpu, d: nat, incr: bool)
    requires Wf(dev, m) && d < 30 && 0x5b < |dev.cells| && dev.cells[0x5b].kind == RampzCell
    ensures var z := m.regs[30] as int + 0x100 * m.regs[31] as int + 0x1_0000 * (m.rampz as int % 64);
            var r := ExecElpm(dev, words, m, d, incr);
            if z / 2 >= |words| then r == Halted
            else
              && r.Loaded? && r.m.cks == 3 && r.m.sreg == m.sreg && r.m.sp == m.sp && r.m.ram == m.ram
              && r.m.regs[..30] == m.regs[..30][d := if z % 2 == 0 then words[z / 2] % 256 else words[z / 2] / 256]
              && (!incr ==> r.m.regs[30..] == m.regs[30..] && r.m.rampz == m.rampz)
              && (incr ==> r.m.regs[30] as int + 0x100 * r.m.regs[31] as int + 0x1_0000 * r.m.rampz as int == (z + 1) % 0x40_0000)
  {
    ZParts(ExtendedZ(dev, m) + 1);
  }

  datatype ReadOut = ReadOut(bytes: seq<byte>, m: Cpu) | ReadHalted

  /** Execute ELPM Rd,Z+ n times, noting Rd after each. */
  function ReadRun(dev: Device, words: seq<word>, m: Cpu, d: nat, n: nat): (r: ReadOut)
    requires Wf(dev, m) && d < 32
    ensures r.ReadOut? ==> Wf(dev, r.m)
    decreases n
  {
    if n == 0 then ReadOut([], m)
    else
      match ExecElpm(dev, words, m, d, true)
      case Halted => ReadHalted
      case Loaded(m1) =>
        match ReadRun(dev, words, m1, d, n - 1)
        case ReadHalted => ReadHalted
        case ReadOut(bs, m2) => ReadOut([m1.regs[d]] + bs, m2)
  }

  /** The bytes of flash from address a on. */
  function FlashBytes(words: seq<word>, a: nat, n: nat): (bs: seq<byte>)
    requires a + n <= 2 * |words|
    ensures |bs| == n
  {
    seq<byte>(n, i requires 0 <= i < n => FlashByte(words, a + i))
  }

  /** The run went through, delivered bs and left the pointer at z. */
  ghost predicate ReadsBytes(dev: Device, r: ReadOut, bs: seq<byte>, z: nat)
    requires r.ReadOut? ==> Wf(dev, r.m)
  {
    r.ReadOut? && r.bytes == bs && ExtendedZ(dev, r.m) == z
  }

  lemma ReadRunStep(dev: Device, words: seq<word>, m: Cpu, d: nat, n: nat, m1: Cpu, rest: ReadOut)
    requires Wf(dev, m) && d < 32 && n > 0
    requires ExecElpm(dev, words, m, d, true) == Loaded(m1)
    requires ReadRun(dev, words, m1, d, n - 1) == rest && rest.ReadOut?
    ensures ReadRun(dev, words, m, d, n) == ReadOut([m1.regs[d]] + rest.bytes, rest.m)
  {
  }

  lemma FlashBytesCons(words: seq<word>, a: nat, n: nat)
    requires n > 0 && a + n <= 2 * |words|
    ensures FlashBytes(words, a, n) == [FlashByte(words, a)] + FlashBytes(words, a + 1, n - 1)
  {
    var whole, rest := FlashBytes(words, a, n), FlashBytes(words, a + 1, n - 1);
    forall i | 0 <= i < n ensures whole[i] == ([FlashByte(words, a)] + rest)[i] {
      assert i > 0 ==> a + i == a + 1 + (i - 1);
    }
  }

  /** n loads deliver n consecutive bytes of flash and leave the pointer after them. */
  lemma {:induction false} ReadsConsecutive(dev: Device, words: seq<word>, m: Cpu, d: nat, n: nat, z: nat)
    requires Wf(dev, m) && d < 30 && z == ExtendedZ(dev, m)
    requires n > 0 && z + n <= 2 * |words| && z + n <= Reach(dev)
    ensures ReadsBytes(dev, ReadRun(dev, words, m, d, n), FlashBytes(words, z, n), (z + n) % Reach(dev))
    decreases n
  {
    ElpmSteps(dev, words, m, d);
    var m1 := ExecElpm(dev, words, m, d, true).m;
    FlashBytesCons(words, z, n);
    if n == 1 {
      ReadRunStep(dev, words, m, d, n, m1, ReadOut([], m1));
    } else {
      ReadsConsecutive(dev, words, m1, d, n - 1, z + 1);
      ReadRunStep(dev, words, m, d, n, m1, ReadRun(dev, words, m1, d, n - 1));
    }
  }

  /** The session went through, and n loads into register d then deliver the content. */
  ghost predicate ReadsBack(dev: Device, r: Result, m: Cpu, d: nat, n: nat, content: seq<byte>)
    requires Wf(dev, m) && d < 32
  {
    r.Done? && var out := ReadRun(dev, r.store.words, m, d, n); out.ReadOut? && out.bytes == content
  }

  lemma PageReadsBack(dev: Device, words: seq<word>, r: Result, m: Cpu, d: nat, base: nat, content: seq<byte>, n: nat)
    requires n == PAGE_BYTES == |content| && base + PAGE_WORDS <= |words|
    requires r.Done? && r.store.words == PageReplaced(words, base, content)
    requires Wf(dev, m) && d < 30 && ExtendedZ(dev, m) == 2 * base && base % PAGE_WORDS == 0
    ensures ReadsBack(dev, r, m, d, n, content)
  {
    ExtendedZBound(dev, m);
    assert Reach(dev) % PAGE_BYTES == 0;
    ReadsConsecutive(dev, PageReplaced(words, base, content), m, d, n, 2 * base);
    PageBytes(words, base, content);
  }

  /** A page erased, filled in any order and written. */
  function Session(fills: seq<Step>, z: nat): seq<Step> {
    [Step(ERASE, 0, 0, z)] + fills + [Step(WRITE, 0, 0, z)]
  }

  lemma PageFits(z: nat, base: nat, words: nat)
    requires base == z / 256 * 128 && z / 256 * 256 + PAGE_BYTES <= 2 * words
    ensures 2 * base == z / 256 * 256 && base % PAGE_WORDS == 0 && base + PAGE_WORDS <= words
  {
  }

  lemma Programmed(s: Store, z: nat, fills: seq<Step>, content: seq<byte>) returns (r: Result, base: nat)
    requires |s.buffer| == PAGE_BYTES == |content| && z < 0x2_0000 && z / 256 * 256 + PAGE_BYTES <= 2 * |s.words|
    requires Fills(fills, content) && forall o :: 0 <= o < PAGE_WORDS ==> Filled(fills, 2 * o)
    ensures 2 * base == z / 256 * 256 && base % PAGE_WORDS == 0 && base + PAGE_WORDS <= |s.words|
    ensures r == PerformAll(s, Session(fills, z)) && r.Done? && r.store.words == PageReplaced(s.words, base, content)
  {
    base := z / 256 * 128;
    PageFits(z, base, |s.words|);
    BaseBelow128K(z, base);
    r := PerformAll(s, Session(fills, z));
    SessionPrograms(s, z, base, fills, content);
  }

  lemma SessionPrograms(s: Store, z: nat, base: nat, fills: seq<Step>, content: seq<byte>)
    requires |s.buffer| == PAGE_BYTES == |content| && base == PageBase(z) && base + PAGE_WORDS <= |s.words|
    requires Fills(fills, content) && forall o :: 0 <= o < PAGE_WORDS ==> Filled(fills, 2 * o)
    ensures var r := PerformAll(s, Session(fills, z)); r.Done? && r.store.words == PageReplaced(s.words, base, content)
  {
    ProgramsPage(s, z, base, fills, content);
  }

  /**
   A page erased, filled in any order and written through a pointer below 128 KB is read back by
   n = 256 ELPM Rd,Z+ from its first byte, into any register but the pointer's own.
   */
  lemma ProgrammedPageReadsBack(dev: Device, m: Cpu, d: nat, s: Store, z: nat, fills: seq<Step>, content: seq<byte>, n: nat)
    requires |s.buffer| == PAGE_BYTES == |content| && z < 0x2_0000 && z / 256 * 256 + PAGE_BYTES <= 2 * |s.words|
    requires Fills(fills, content) && forall o :: 0 <= o < PAGE_WORDS ==> Filled(fills, 2 * o)
    requires Wf(dev, m) && d < 30 && ExtendedZ(dev, m) == z / 256 * 256 && n == PAGE_BYTES
    ensures ReadsBack(dev, PerformAll(s, Session(fills, z)), m, d, n, content)
  {
    var r, base := Programmed(s, z, fills, content);
    PageReadsBack(dev, s.words, r, m, d, base, content, n);
  }

  lemma BaseBelow128K(z: nat, base: nat)
    requires z < 0x2_0000 && base == z / 256 * 128
    ensures base == PageBase(z)
  {
    AddressesAre(z);
    assert z / 2 / 128 == z / 256;
  }

  lemma PageBytes(words: seq<word>, base: nat, content: seq<byte>)
    requires |content| == PAGE_BYTES && base + PAGE_WORDS <= |words|
    ensures FlashBytes(PageReplaced(words, base, content), 2 * base, PAGE_BYTES) == content
  {
    var bs := FlashBytes(PageReplaced(words, base, content), 2 * base, PAGE_BYTES);
    forall i | 0 <= i < PAGE_BYTES ensures bs[i] == content[i] {
      PageByte(words, base, content, i);
    }
  }

  lemma PageByte(words: seq<word>, base: nat, content: seq<byte>, i: nat)
    requires |content| == PAGE_BYTES && base + PAGE_WORDS <= |words| && i < PAGE_BYTES
    ensures FlashByte(PageReplaced(words, base, content), 2 * base + i) == content[i]
  {
    var k, a := i / 2, 2 * base + i;
    assert a / 2 == base + k && a % 2 == i % 2;
    assert PageReplaced(words, base, content)[base + k] == BufferWord(content, k);
    assert if i % 2 == 1 then i == 2 * k + 1 else i == 2 * k;
  }
}
