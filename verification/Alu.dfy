/**
 The arithmetic unit: the flag formulas of the decoder and the instructions whose whole effect
 is on a pair of register bytes and the status register.

 The formulas are kept as the bit-level equations the simulator evaluates. What they mean as
 arithmetic (carry out, borrow, signed overflow) is proved about them.
 */
module Alu {
  import Bitwise
  import opened Bytes

  /** The status register. The simulator overlays a byte with eight one-bit fields, C lowest. */
  datatype Sreg = Sreg(c: bool, z: bool, n: bool, v: bool, s: bool, h: bool, t: bool, i: bool)

  const SREG_C := 0
  const SREG_Z := 1
  const SREG_N := 2
  const SREG_V := 3
  const SREG_S := 4
  const SREG_H := 5
  const SREG_T := 6
  const SREG_I := 7

  function BitValue(b: bool): nat {
    if b then 1 else 0
  }

  /** The integer whose binary digits are bits, lowest first. */
  function FromBits(bits: seq<bool>): nat {
    if bits == [] then 0 else BitValue(bits[0]) + 2 * FromBits(bits[1..])
  }

  /** The n lowest binary digits of x, lowest first. */
  function ToBits(x: nat, n: nat): (bits: seq<bool>)
    ensures |bits| == n
  {
    if n == 0 then [] else [x % 2 == 1] + ToBits(x / 2, n - 1)
  }

  lemma {:induction false} ToBitsFromBits(bits: seq<bool>)
    ensures ToBits(FromBits(bits), |bits|) == bits
  {
    if bits != [] {
      ToBitsFromBits(bits[1..]);
      assert bits == [bits[0]] + bits[1..];
    }
  }

  lemma {:induction false} FromBitsBound(bits: seq<bool>)
    ensures FromBits(bits) < Bitwise.Pow2(|bits|)
  {
    if bits != [] {
      FromBitsBound(bits[1..]);
    }
  }

  lemma {:induction false} FromBitsToBits(x: nat, n: nat)
    requires x < Bitwise.Pow2(n)
    ensures FromBits(ToBits(x, n)) == x
  {
    if n > 0 {
      FromBitsToBits(x / 2, n - 1);
    }
  }

  function SregBits(f: Sreg): (bits: seq<bool>)
    ensures |bits| == 8
  {
    [f.c, f.z, f.n, f.v, f.s, f.h, f.t, f.i]
  }

  function BitsSreg(bits: seq<bool>): Sreg
    requires |bits| == 8
  {
    Sreg(bits[0], bits[1], bits[2], bits[3], bits[4], bits[5], bits[6], bits[7])
  }

  /** The byte view of the status register. */
  function SregByte(f: Sreg): byte {
    FromBitsBound(SregBits(f));
    Bitwise.Pow2Eight();
    FromBits(SregBits(f))
  }

  /** The flags a byte written to the status register sets. */
  function ByteSreg(b: byte): Sreg {
    BitsSreg(ToBits(b, 8))
  }

  /** Reading the register as a byte and writing it back loses nothing. */
  lemma ByteOfSregByte(f: Sreg)
    ensures ByteSreg(SregByte(f)) == f
  {
    ToBitsFromBits(SregBits(f));
  }

  lemma BitsRoundTrip(bits: seq<bool>)
    requires |bits| == 8
    ensures SregBits(BitsSreg(bits)) == bits
  {
  }

  /** Writing the register as a byte and reading it back loses nothing. */
  lemma SregByteOfByte(b: byte)
    ensures SregByte(ByteSreg(b)) == b
  {
    Bitwise.Pow2Eight();
    FromBitsToBits(b, 8);
    BitsRoundTrip(ToBits(b, 8));
  }

  /** Flag number bit of the status register, bits numbered as in the register. */
  predicate Flag(f: Sreg, bit: nat)
    requires bit < 8
  {
    if bit == SREG_C then f.c
    else if bit == SREG_Z then f.z
    else if bit == SREG_N then f.n
    else if bit == SREG_V then f.v
    else if bit == SREG_S then f.s
    else if bit == SREG_H then f.h
    else if bit == SREG_T then f.t
    else f.i
  }

  lemma FlagIsElement(f: Sreg, bit: nat)
    requires bit < 8
    ensures Flag(f, bit) == SregBits(f)[bit]
  {
  }

  function SetFlag(f: Sreg, bit: nat, val: bool): Sreg
    requires bit < 8
  {
    Sreg(if bit == SREG_C then val else f.c, if bit == SREG_Z then val else f.z,
         if bit == SREG_N then val else f.n, if bit == SREG_V then val else f.v,
         if bit == SREG_S then val else f.s, if bit == SREG_H then val else f.h,
         if bit == SREG_T then val else f.t, if bit == SREG_I then val else f.i)
  }

  // ----- flag formulas -----

  /** Bit 3 of a byte: the top bit of its low nibble. */
  predicate Bit3(x: byte) {
    x % 16 >= 8
  }

  predicate Bit7(x: byte) {
    x / 128 % 2 == 1
  }

  /** Carry out of one bit position of an addition, from the result bit and the operand bits. */
  predicate AddCarry(res: bool, rd: bool, rr: bool) {
    (rd && rr) || (rr && !res) || (!res && rd)
  }

  predicate AddOverflow(res: bool, rd: bool, rr: bool) {
    (rd && rr && !res) || (!rd && !rr && res)
  }

  /** Borrow out of one bit position of a subtraction or comparison. */
  predicate SubCarry(res: bool, rd: bool, rr: bool) {
    (!rd && rr) || (rr && res) || (res && !rd)
  }

  predicate SubOverflow(res: bool, rd: bool, rr: bool) {
    (rd && !rr && !res) || (!rd && rr && res)
  }

  // ----- instructions -----

  /** A result byte and the status register after the instruction. */
  datatype AluOut = AluOut(res: byte, sreg: Sreg)

  function AddFlags(rd: byte, rr: byte, res: byte, f: Sreg): Sreg {
    var h := AddCarry(Bit3(res), Bit3(rd), Bit3(rr));
    var v := AddOverflow(Bit7(res), Bit7(rd), Bit7(rr));
    var n := Bit7(res);
    f.(h := h, v := v, n := n, s := n != v, z := res == 0, c := AddCarry(Bit7(res), Bit7(rd), Bit7(rr)))
  }

  /** The flags of SUB and CP. The zero flag is set by the result alone. */
  function SubFlags(rd: byte, rr: byte, res: byte, f: Sreg): Sreg {
    var h := SubCarry(Bit3(res), Bit3(rd), Bit3(rr));
    var v := SubOverflow(Bit7(res), Bit7(rd), Bit7(rr));
    var n := Bit7(res);
    f.(h := h, v := v, n := n, s := n != v, z := res == 0, c := SubCarry(Bit7(res), Bit7(rd), Bit7(rr)))
  }

  function Add(rd: byte, rr: byte, f: Sreg): AluOut {
    var res := (rd + rr) % 256;
    AluOut(res, AddFlags(rd, rr, res, f))
  }

  function Adc(rd: byte, rr: byte, f: Sreg): AluOut {
    var res := (rd + rr + BitValue(f.c)) % 256;
    AluOut(res, AddFlags(rd, rr, res, f))
  }

  function Sub(rd: byte, rr: byte, f: Sreg): AluOut {
    var res := (rd - rr) % 256;
    AluOut(res, SubFlags(rd, rr, res, f))
  }

  /** Subtract with carry: a zero result leaves the zero flag as it was. */
  function Sbc(rd: byte, rr: byte, f: Sreg): AluOut {
    var res := (rd - rr - BitValue(f.c)) % 256;
    AluOut(res, SubFlags(rd, rr, res, f).(z := if res != 0 then false else f.z))
  }

  function Cp(rd: byte, rr: byte, f: Sreg): Sreg {
    SubFlags(rd, rr, (rd - rr) % 256, f)
  }

  function Cpc(rd: byte, rr: byte, f: Sreg): Sreg {
    var res := (rd - rr - BitValue(f.c)) % 256;
    SubFlags(rd, rr, res, f).(z := res == 0 && f.z)
  }

  /** The sixteen-bit product in R1:R0 and the flags. */
  datatype MulOut = MulOut(r0: byte, r1: byte, sreg: Sreg)

  function Mul(rd: byte, rr: byte, f: Sreg): MulOut {
    ProductIsWord(rd, rr);
    var res := rd * rr;
    MulOut(res % 256, res / 256, f.(z := res == 0, c := res / 0x8000 % 2 == 1))
  }

  lemma ProductIsWord(a: byte, b: byte)
    ensures 0 <= a * b <= 255 * 255
  {
    assert a * b <= 255 * b;
    assert 0 <= a * b;
  }

  // ----- what the formulas mean -----

  function SignedByte(x: byte): int {
    if x < 128 then x else x - 256
  }

  /** The comparisons in Bit3 and Bit7 are the shift-and-mask tests of the simulator. */
  lemma BitsAreShifts(x: byte)
    ensures Bit3(x) <==> ((x as bv8) >> 3) & 1 == 1
    ensures Bit7(x) <==> ((x as bv8) >> 7) & 1 == 1
  {
    ShiftedOut(x as bv8);
    NibbleTop(x);
    Digit3(x);
    Digit7(x);
  }

  lemma ShiftedOut(x: bv8)
    ensures (x >> 3) & 1 == 1 <==> x & 8 != 0
    ensures (x >> 7) & 1 == 1 <==> x & 128 != 0
  {
  }

  lemma NibbleTop(x: byte)
    ensures x % 16 >= 8 <==> x / 8 % 2 == 1
  {
  }

  lemma Digit3(x: byte)
    ensures x / 8 % 2 == 1 <==> (x as bv8) & 8 != 0
  {
  }

  lemma Digit7(x: byte)
    ensures x / 128 % 2 == 1 <==> (x as bv8) & 128 != 0
  {
  }

  /** The low nibble of a result depends on the low nibbles of the operands alone. */
  lemma LowNibble(full: int, low: int, high: int)
    requires full == low + 16 * high
    ensures full % 256 % 16 == low % 16
  {
    ModAddMultiple(low, high);
    ModAddMultiple(full % 256, 16 * (full / 256));
  }

  lemma ModAddMultiple(t: int, q: int)
    ensures (t + 16 * q) % 16 == t % 16
  {
    assert t == 16 * (t / 16) + t % 16;
  }

  /** Every flag of an addition with carry-in c, as a statement about integers. */
  lemma FullAdder(rd: byte, rr: byte, c: nat, f: Sreg)
    requires c <= 1
    ensures var res := (rd + rr + c) % 256;
            var g := AddFlags(rd, rr, res, f);
            var signedSum := SignedByte(rd) + SignedByte(rr) + c;
            && res + 256 * BitValue(g.c) == rd + rr + c
            && (g.h <==> rd % 16 + rr % 16 + c >= 16)
            && (g.v <==> !(-128 <= signedSum < 128))
            && (g.n <==> res >= 128)
            && (g.s <==> signedSum < 0)
            && (g.z <==> res == 0)
            && g.t == f.t && g.i == f.i
  {
    var res := (rd + rr + c) % 256;
    HalfAdder(rd, rr, c);
  }

  lemma HalfAdder(rd: byte, rr: byte, c: nat)
    requires c <= 1
    ensures var res := (rd + rr + c) % 256;
            AddCarry(Bit3(res), Bit3(rd), Bit3(rr)) <==> rd % 16 + rr % 16 + c >= 16
  {
    SplitNibbles(rd);
    SplitNibbles(rr);
    LowNibble(rd + rr + c, rd % 16 + rr % 16 + c, rd / 16 + rr / 16);
    NibbleAdder(rd % 16, rr % 16, c);
  }

  lemma SplitNibbles(x: byte)
    ensures x == x % 16 + 16 * (x / 16)
  {
  }

  lemma NibbleAdder(d: nat, r: nat, c: nat)
    requires d < 16 && r < 16 && c <= 1
    ensures AddCarry((d + r + c) % 16 >= 8, d >= 8, r >= 8) <==> d + r + c >= 16
  {
  }

  /** Every flag of a subtraction with borrow-in c, as a statement about integers. */
  lemma FullSubtractor(rd: byte, rr: byte, c: nat, f: Sreg)
    requires c <= 1
    ensures var res := (rd - rr - c) % 256;
            var g := SubFlags(rd, rr, res, f);
            var signedDiff := SignedByte(rd) - SignedByte(rr) - c;
            && res - 256 * BitValue(g.c) == rd - rr - c
            && (g.h <==> rd % 16 < rr % 16 + c)
            && (g.v <==> !(-128 <= signedDiff < 128))
            && (g.n <==> res >= 128)
            && (g.s <==> signedDiff < 0)
            && (g.z <==> res == 0)
            && g.t == f.t && g.i == f.i
  {
    var diff := rd - rr - c;
    assert diff % 256 == if diff < 0 then diff + 256 else diff;
    HalfSubtractor(rd, rr, c);
  }

  lemma HalfSubtractor(rd: byte, rr: byte, c: nat)
    requires c <= 1
    ensures var res := (rd - rr - c) % 256;
            SubCarry(Bit3(res), Bit3(rd), Bit3(rr)) <==> rd % 16 < rr % 16 + c
  {
    SplitNibbles(rd);
    SplitNibbles(rr);
    LowNibble(rd - rr - c, rd % 16 - rr % 16 - c, rd / 16 - rr / 16);
    NibbleSubtractor(rd % 16, rr % 16, c);
  }

  lemma NibbleSubtractor(d: nat, r: nat, c: nat)
    requires d < 16 && r < 16 && c <= 1
    ensures SubCarry((d - r - c) % 16 >= 8, d >= 8, r >= 8) <==> d < r + c
  {
  }
}
