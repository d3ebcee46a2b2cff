/**
 The data memory as a table of cells, and the stack kept in it.

 Each cell names the device behind an address and the bits of it that can be read and written. The
 register file, the status register, the stack pointer and RAMPZ are memory mapped like the SRAM;
 other peripherals are outside this module.
 */
module Memory {
  import opened Bytes
  import opened Bitwise
  import opened Alu

  datatype CellKind = NoDevice | GpwrCell | SregCell | SplCell | SphCell | RampzCell | SramCell

  datatype Cell = Cell(kind: CellKind, rdMask: byte, wrMask: byte)

  /** What a device fixes: flash size in words, bytes of program counter, and its memory cells. */
  datatype Device = Device(pcMax: int, pcSize: nat, cells: seq<Cell>)

  /** The state an instruction can see and change, apart from flash. */
  datatype Cpu = Cpu(regs: seq<byte>, sreg: Sreg, pc: int, sp: word, rampz: byte, ram: seq<byte>, cks: nat)

  ghost predicate Wf(dev: Device, m: Cpu) {
    && |m.regs| == 32
    && |m.ram| == |dev.cells|
    && forall a :: 0 <= a < |dev.cells| && dev.cells[a].kind == GpwrCell ==> a < 32
  }

  /** The cell at addr; there is no device beyond the end of the table. */
  function CellAt(dev: Device, addr: nat): Cell {
    if addr < |dev.cells| then dev.cells[addr] else Cell(NoDevice, 0, 0)
  }

  function DeviceRead(dev: Device, m: Cpu, addr: nat): byte
    requires Wf(dev, m)
  {
    match CellAt(dev, addr).kind
    case NoDevice => 0
    case GpwrCell => m.regs[addr]
    case SregCell => SregByte(m.sreg)
    case SplCell => m.sp % 256
    case SphCell => m.sp / 256
    case RampzCell => m.rampz
    case SramCell => m.ram[addr]
  }

  /** Reading a cell: an address without a device reads as zero. */
  function Read(dev: Device, m: Cpu, addr: nat): byte
    requires Wf(dev, m)
  {
    And(DeviceRead(dev, m, addr), CellAt(dev, addr).rdMask)
  }

  /** Writing a cell: an address without a device ignores the write. */
  function Write(dev: Device, m: Cpu, addr: nat, val: byte): (m': Cpu)
    requires Wf(dev, m)
    ensures Wf(dev, m')
  {
    var cell := CellAt(dev, addr);
    var v: byte := And(val, cell.wrMask);
    match cell.kind
    case NoDevice => m
    case GpwrCell => m.(regs := m.regs[addr := v])
    case SregCell => m.(sreg := ByteSreg(v))
    case SplCell => m.(sp := m.sp / 256 * 256 + v)
    case SphCell => m.(sp := v * 256 + m.sp % 256)
    case RampzCell => m.(rampz := v)
    case SramCell => m.(ram := m.ram[addr := v])
  }

  // ----- reset -----

  function ClearedRegs(): seq<byte> {
    seq(32, _ => 0)
  }

  /** The reset of the device behind a cell; it clears the whole device, and the SRAM keeps its contents. */
  function DeviceReset(m: Cpu, kind: CellKind): Cpu {
    match kind
    case NoDevice => m
    case GpwrCell => m.(regs := ClearedRegs())
    case SregCell => m.(sreg := ByteSreg(0))
    case SplCell => m.(sp := 0)
    case SphCell => m.(sp := 0)
    case RampzCell => m.(rampz := 0)
    case SramCell => m
  }

  /** The devices of the first n cells are reset in turn. */
  function ResetCells(dev: Device, m: Cpu, n: nat): (m': Cpu)
    requires n <= |dev.cells|
    ensures Wf(dev, m) ==> Wf(dev, m')
  {
    if n == 0 then m else DeviceReset(ResetCells(dev, m, n - 1), dev.cells[n - 1].kind)
  }

  /** One of the first n cells leads to such a device. */
  ghost predicate Mapped(dev: Device, kind: CellKind, n: nat)
    requires n <= |dev.cells|
  {
    exists a :: 0 <= a < n && dev.cells[a].kind == kind
  }

  lemma MappedNext(dev: Device, kind: CellKind, n: nat)
    requires 0 < n <= |dev.cells|
    ensures Mapped(dev, kind, n) <==> Mapped(dev, kind, n - 1) || dev.cells[n - 1].kind == kind
  {
  }

  /** A reset clears exactly the devices that are mapped, however many cells lead to them. */
  lemma {:induction false} ResetClearsMapped(dev: Device, m: Cpu, n: nat)
    requires n <= |dev.cells|
    ensures ResetCells(dev, m, n) == m.(
              regs := if Mapped(dev, GpwrCell, n) then ClearedRegs() else m.regs,
              sreg := if Mapped(dev, SregCell, n) then ByteSreg(0) else m.sreg,
              sp := if Mapped(dev, SplCell, n) || Mapped(dev, SphCell, n) then 0 else m.sp,
              rampz := if Mapped(dev, RampzCell, n) then 0 else m.rampz)
  {
    if n > 0 {
      ResetClearsMapped(dev, m, n - 1);
      MappedNext(dev, GpwrCell, n);
      MappedNext(dev, SregCell, n);
      MappedNext(dev, SplCell, n);
      MappedNext(dev, SphCell, n);
      MappedNext(dev, RampzCell, n);
    }
  }

  // ----- plain cells -----

  /** A cell that gives back exactly what was written to it. */
  predicate PlainCell(dev: Device, addr: nat) {
    addr < |dev.cells| && dev.cells[addr] == Cell(SramCell, 255, 255)
  }

  lemma WritePlain(dev: Device, m: Cpu, addr: nat, val: byte)
    requires Wf(dev, m) && PlainCell(dev, addr)
    ensures Write(dev, m, addr, val) == m.(ram := m.ram[addr := val])
  {
    AndFull(val, dev.cells[addr].wrMask);
  }

  lemma ReadPlain(dev: Device, m: Cpu, addr: nat)
    requires Wf(dev, m) && PlainCell(dev, addr)
    ensures Read(dev, m, addr) == m.ram[addr]
  {
    AndFull(m.ram[addr], dev.cells[addr].rdMask);
  }

  /** Two addresses lead to the same byte of the same device. */
  predicate SameByte(dev: Device, addr: nat, other: nat) {
    var kind := CellAt(dev, addr).kind;
    && kind == CellAt(dev, other).kind && kind != NoDevice
    && (kind == GpwrCell || kind == SramCell ==> addr == other)
  }

  lemma DeviceReadAfterWrite(dev: Device, m: Cpu, addr: nat, val: byte, other: nat)
    requires Wf(dev, m)
    ensures DeviceRead(dev, Write(dev, m, addr, val), other) ==
            if SameByte(dev, addr, other) then And(val, CellAt(dev, addr).wrMask) else DeviceRead(dev, m, other)
  {
    var v: byte := And(val, CellAt(dev, addr).wrMask);
    match CellAt(dev, addr).kind {
      case SregCell => SregByteOfByte(v);
      case SplCell => WordHalves(m.sp / 256, v);
      case SphCell => WordHalves(v, m.sp % 256);
      case _ =>
    }
  }

  lemma WordHalves(high: byte, low: byte)
    ensures (high as int * 256 + low) / 256 == high && (high as int * 256 + low) % 256 == low
  {
  }

  /**
   What was written, cut by the write mask of its cell and the read mask of the cell read, is what
   every address of that byte reads as; every other address reads as before.
   */
  lemma ReadAfterWrite(dev: Device, m: Cpu, addr: nat, val: byte, other: nat)
    requires Wf(dev, m)
    ensures Read(dev, Write(dev, m, addr, val), other) ==
            if SameByte(dev, addr, other) then And(And(val, CellAt(dev, addr).wrMask), CellAt(dev, other).rdMask)
            else Read(dev, m, other)
  {
    DeviceReadAfterWrite(dev, m, addr, val, other);
  }

  /** Cells without masked bits show their device: a working register, the flags, a half of the stack pointer, RAMPZ. */
  lemma CellsShow(dev: Device, m: Cpu, a: nat)
    requires Wf(dev, m)
    ensures CellAt(dev, a) == Cell(GpwrCell, 255, 255) ==> a < 32 && Read(dev, m, a) == m.regs[a]
    ensures CellAt(dev, a) == Cell(SregCell, 255, 255) ==> Read(dev, m, a) == SregByte(m.sreg)
    ensures CellAt(dev, a) == Cell(SplCell, 255, 255) ==> Read(dev, m, a) == m.sp % 256
    ensures CellAt(dev, a) == Cell(SphCell, 255, 255) ==> Read(dev, m, a) == m.sp / 256
    ensures CellAt(dev, a) == Cell(RampzCell, 255, 255) ==> Read(dev, m, a) == m.rampz
    ensures a >= |dev.cells| ==> Read(dev, m, a) == 0
  {
    if CellAt(dev, a).rdMask == 255 {
      AndFull(DeviceRead(dev, m, a), CellAt(dev, a).rdMask);
    }
  }

  /** The two halves of the stack pointer, written in either order. */
  lemma HalvesSetPointer(dev: Device, m: Cpu, low: nat, high: nat, l: byte, h: byte)
    requires Wf(dev, m) && CellAt(dev, low) == Cell(SplCell, 255, 255) && CellAt(dev, high) == Cell(SphCell, 255, 255)
    ensures Write(dev, Write(dev, m, low, l), high, h) == m.(sp := 256 * h as int + l)
    ensures Write(dev, Write(dev, m, high, h), low, l) == m.(sp := 256 * h as int + l)
  {
    AndFull(l, 255);
    AndFull(h, 255);
    WordHalves(h, l);
    WordHalves(h, m.sp % 256);
    WordHalves(m.sp / 256, l);
  }

  // ----- the stack -----

  function Down(sp: word): word {
    if sp == 0 then 0xffff else sp - 1
  }

  function Up(sp: word): word {
    if sp == 0xffff then 0 else sp + 1
  }

  /** Bytes are stored lowest first, at descending addresses; the device's own pointer is not yet moved. */
  function PushFrom(dev: Device, m: Cpu, sp: word, bytes: nat, val: nat): (m': Cpu)
    requires Wf(dev, m)
    ensures Wf(dev, m')
    decreases bytes
  {
    if bytes == 0 then m else PushFrom(dev, Write(dev, m, sp, val % 256), Down(sp), bytes - 1, val / 256)
  }

  function Lowered(sp: word, bytes: nat): word
    decreases bytes
  {
    if bytes == 0 then sp else Lowered(Down(sp), bytes - 1)
  }

  function Raised(sp: word, bytes: nat): word
    decreases bytes
  {
    if bytes == 0 then sp else Raised(Up(sp), bytes - 1)
  }

  /** Push the low bytes of val. The caller must keep bytes below the size of the pushed word. */
  function Push(dev: Device, m: Cpu, bytes: nat, val: nat): (m': Cpu)
    requires Wf(dev, m) && bytes < 4
    ensures Wf(dev, m')
  {
    PushFrom(dev, m, m.sp, bytes, val).(sp := Lowered(m.sp, bytes))
  }

  /** Byte b, n places up. */
  function Weighted(b: byte, n: nat): nat {
    Pow256(n) * b
  }

  /** The value of the bytes above sp, highest first. */
  function PopFrom(dev: Device, m: Cpu, sp: word, bytes: nat): nat
    requires Wf(dev, m)
    decreases bytes
  {
    if bytes == 0 then 0
    else Weighted(Read(dev, m, Up(sp)), bytes - 1) + PopFrom(dev, m, Up(sp), bytes - 1)
  }

  function PopValue(dev: Device, m: Cpu, bytes: nat): nat
    requires Wf(dev, m) && bytes < 4
  {
    PopFrom(dev, m, m.sp, bytes)
  }

  function Popped(m: Cpu, bytes: nat): Cpu {
    m.(sp := Raised(m.sp, bytes))
  }

  /** The cells at and below sp, bytes of them, are plain. */
  predicate PlainStack(dev: Device, sp: word, bytes: nat) {
    bytes <= sp && forall a :: sp - bytes < a <= sp ==> PlainCell(dev, a)
  }

  lemma {:induction false} LoweredRaised(sp: word, bytes: nat)
    ensures bytes <= sp ==> Lowered(sp, bytes) == sp - bytes
    ensures sp + bytes <= 0xffff ==> Raised(sp, bytes) == sp + bytes
    decreases bytes
  {
    if bytes > 0 {
      LoweredRaised(Down(sp), bytes - 1);
      LoweredRaised(Up(sp), bytes - 1);
    }
  }

  /** The pointer wraps at both ends of its sixteen bits. */
  lemma {:induction false} PointerWraps(sp: word, bytes: nat)
    requires bytes < 4
    ensures Lowered(sp, bytes) == if bytes <= sp then sp - bytes else sp - bytes + 0x1_0000
    ensures Raised(sp, bytes) == if sp + bytes <= 0xffff then sp + bytes else sp + bytes - 0x1_0000
    decreases bytes
  {
    if bytes > 0 {
      PointerWraps(Down(sp), bytes - 1);
      PointerWraps(Up(sp), bytes - 1);
    }
  }

  /** Byte i of val. */
  function ByteOf(val: nat, i: nat): byte {
    if i == 0 then val % 256 else ByteOf(val / 256, i - 1)
  }

  ghost predicate StoredAt(m: Cpu, top: word, val: nat, a: nat)
    requires a <= top
  {
    a < |m.ram| && m.ram[a] == ByteOf(val, top - a)
  }

  /** The bytes of val lie at and below top, lowest first. */
  ghost predicate Stored(m: Cpu, top: word, bytes: nat, val: nat) {
    forall a: nat :: top - bytes < a <= top ==> StoredAt(m, top, val, a)
  }

  /** A push on plain cells stores the bytes of val there and changes nothing else. */
  lemma {:induction false} PushFromPlain(dev: Device, m: Cpu, sp: word, bytes: nat, val: nat)
    requires Wf(dev, m) && PlainStack(dev, sp, bytes)
    ensures var m' := PushFrom(dev, m, sp, bytes, val);
            && m' == m.(ram := m'.ram)
            && (forall a :: 0 <= a < |m.ram| && !(sp - bytes < a <= sp) ==> m'.ram[a] == m.ram[a])
            && Stored(m', sp, bytes, val)
    decreases bytes
  {
    if bytes > 0 {
      WritePlain(dev, m, sp, val % 256);
      var m1 := Write(dev, m, sp, val % 256);
      PushFromPlain(dev, m1, Down(sp), bytes - 1, val / 256);
      var m' := PushFrom(dev, m, sp, bytes, val);
      forall a: nat | sp - bytes < a <= sp ensures StoredAt(m', sp, val, a) {
        assert a < sp ==> StoredAt(m', Down(sp), val / 256, a);
        assert PlainCell(dev, a);
      }
    }
  }

  /** After n bytes of val are pushed on plain cells: lowest byte at the old stack pointer, the others below. */
  ghost predicate PushedOn(m: Cpu, m': Cpu, n: nat, val: nat) {
    && m'.sp == m.sp - n && |m'.ram| == |m.ram|
    && (forall a: nat :: a < |m.ram| && !(m.sp - n < a <= m.sp) ==> m'.ram[a] == m.ram[a])
    && (n > 0 && m.sp < |m.ram| ==> m'.ram[m.sp] == val % 0x100)
    && (n > 1 && m.sp < |m.ram| ==> m'.ram[m.sp - 1] == val / 0x100 % 0x100)
    && (n > 2 && m.sp < |m.ram| ==> m'.ram[m.sp - 2] == val / 0x1_0000 % 0x100)
  }

  lemma TwiceDivided(val: nat)
    ensures val / 0x100 / 0x100 == val / 0x1_0000
  {
  }

  lemma ThreeBytes(val: nat)
    ensures ByteOf(val, 0) == val % 0x100
    ensures ByteOf(val, 1) == val / 0x100 % 0x100
    ensures ByteOf(val, 2) == val / 0x1_0000 % 0x100
  {
    TwiceDivided(val);
    assert ByteOf(val, 2) == ByteOf(val / 256, 1);
    assert ByteOf(val / 256, 1) == ByteOf(val / 256 / 256, 0);
  }

  /** A push on plain cells changes the stack pointer and those cells alone. */
  lemma PushStores(dev: Device, m: Cpu, n: nat, val: nat)
    requires Wf(dev, m) && n < 4 && PlainStack(dev, m.sp, n)
    ensures var m' := Push(dev, m, n, val); m' == m.(sp := m'.sp, ram := m'.ram) && PushedOn(m, m', n, val)
  {
    LoweredRaised(m.sp, n);
    PushFromPlain(dev, m, m.sp, n, val);
    ThreeBytes(val);
    var m1 := PushFrom(dev, m, m.sp, n, val);
    assert n > 0 && m.sp < |m.ram| ==> StoredAt(m1, m.sp, val, m.sp);
    assert n > 1 && m.sp < |m.ram| ==> StoredAt(m1, m.sp, val, m.sp - 1);
    assert n > 2 && m.sp < |m.ram| ==> StoredAt(m1, m.sp, val, m.sp - 2);
  }

  /** The bytes above sp, read back as an integer. */
  lemma {:induction false} PopFromPlain(dev: Device, m: Cpu, sp: word, top: word, bytes: nat, val: nat)
    requires Wf(dev, m)
    requires top == sp + bytes && PlainStack(dev, top, bytes)
    requires Stored(m, top, bytes, val)
    ensures PopFrom(dev, m, sp, bytes) == LowBytes(val, bytes)
    decreases bytes
  {
    if bytes > 0 {
      ReadPlain(dev, m, sp + 1);
      assert StoredAt(m, top, val, sp + 1);
      PopFromPlain(dev, m, sp + 1, top, bytes - 1, val);
    }
  }

  /** The number made of the lowest n bytes of val. */
  function LowBytes(val: nat, n: nat): nat {
    if n == 0 then 0 else Weighted(ByteOf(val, n - 1), n - 1) + LowBytes(val, n - 1)
  }

  /** Keeping n bytes of a number is taking its remainder modulo 256 to the power n. */
  lemma {:induction false} LowBytesIsRemainder(val: nat, n: nat)
    ensures LowBytes(val, n) == val % Pow256(n)
    decreases n
  {
    if n > 0 {
      LowBytesIsRemainder(val, n - 1);
      ByteOfQuotient(val, n - 1);
      RemainderStep(val, Pow256(n - 1));
      assert Pow256(n) == 256 * Pow256(n - 1);
    }
  }

  lemma RemainderStep(val: nat, p: nat)
    requires p > 0
    ensures val % (256 * p) == p * (val / p % 256) + val % p
  {
    var q := val / p;
    Division(val, p);
    Division(q, 256);
    Distribute(q / 256, q % 256, p);
    AtMost(q % 256, 255, p);
    DivModUnique(val, 256 * p, q / 256, p * (q % 256) + val % p);
  }

  lemma AtMost(a: nat, b: nat, p: nat)
    requires a <= b
    ensures 0 <= p * a <= p * b
  {
  }

  lemma Distribute(a: nat, b: nat, p: nat)
    ensures p * (256 * a + b) == (256 * p) * a + p * b
  {
  }

  lemma {:induction false} ByteOfQuotient(val: nat, n: nat)
    ensures ByteOf(val, n) == val / Pow256(n) % 256
    decreases n
  {
    if n == 0 {
      assert val / 1 == val;
    } else {
      ByteOfQuotient(val / 256, n - 1);
      DivDiv(val, Pow256(n - 1));
    }
  }

  lemma DivDiv(val: nat, p: nat)
    requires p > 0
    ensures val / 256 / p == val / (256 * p)
  {
    var q := val / 256 / p;
    Division(val, 256);
    Division(val / 256, p);
    assert 256 * (p * q) == (256 * p) * q;
    DivModUnique(val, 256 * p, q, 256 * (val / 256 % p) + val % 256);
  }

  lemma PopStored(dev: Device, m: Cpu, top: word, bytes: nat, val: nat)
    requires Wf(dev, m) && bytes < 4 && m.sp + bytes == top
    requires PlainStack(dev, top, bytes) && Stored(m, top, bytes, val)
    ensures PopValue(dev, m, bytes) == val % Pow256(bytes)
    ensures Popped(m, bytes) == m.(sp := top)
  {
    LoweredRaised(m.sp, bytes);
    PopFromPlain(dev, m, m.sp, top, bytes, val);
    LowBytesIsRemainder(val, bytes);
  }

  /**
   Popping after pushing gives back the value, cut to the bytes pushed, and the stack pointer is
   where it was, provided the bytes pushed are still there.
   */
  lemma PopAfterPush(dev: Device, m: Cpu, m1: Cpu, m2: Cpu, bytes: nat, val: nat)
    requires Wf(dev, m) && bytes < 4 && PlainStack(dev, m.sp, bytes)
    requires m1 == Push(dev, m, bytes, val)
    requires Wf(dev, m2) && m2.sp == m1.sp
    requires forall a :: m.sp - bytes < a <= m.sp && a < |m.ram| ==> m2.ram[a] == m1.ram[a]
    ensures m1.sp == m.sp - bytes
    ensures PopValue(dev, m2, bytes) == val % Pow256(bytes)
    ensures Popped(m2, bytes) == m2.(sp := m.sp)
  {
    LoweredRaised(m.sp, bytes);
    PushFromPlain(dev, m, m.sp, bytes, val);
    forall a: nat | m.sp - bytes < a <= m.sp ensures StoredAt(m2, m.sp, val, a) {
      assert PlainCell(dev, a);
      assert StoredAt(PushFrom(dev, m, m.sp, bytes, val), m.sp, val, a);
    }
    PopStored(dev, m2, m.sp, bytes, val);
  }
}
