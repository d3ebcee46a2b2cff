/**
 The status register as the byte the handlers update bit by bit: updating flags of the record is
 updating bits of that byte.
 */
module StatusByte {
  import opened Bytes
  import opened Alu
  import Bitwise

  /** The bit update the simulator performs on a byte. */
  function SetBitInByte(src: bv8, bit: bv3, val: bool): bv8 {
    (src & !(1 << bit)) | ((if val then 1 else 0) << bit)
  }

  predicate GetBitInByte(src: bv8, bit: bv3) {
    src & (1 << bit) != 0
  }

  /** Updating a bit of a byte changes that bit and no other. */
  lemma SetBitChangesBit(src: bv8, bit: bv3, val: bool, other: bv3)
    ensures GetBitInByte(SetBitInByte(src, bit, val), other) ==
            if other == bit then val else GetBitInByte(src, other)
  {
  }

  /** Place value of bit k. */
  function Place(k: bv3): nat {
    if k == 0 then 1 else if k == 1 then 2 else if k == 2 then 4 else if k == 3 then 8
    else if k == 4 then 16 else if k == 5 then 32 else if k == 6 then 64 else 128
  }

  function BitNumber(k: bv3): (i: nat)
    ensures i < 8
  {
    k as int
  }

  lemma PlaceIsPower(k: bv3)
    ensures Place(k) == Bitwise.Pow2(BitNumber(k))
  {
    assert Bitwise.Pow2(1) == 2 && Bitwise.Pow2(2) == 4 && Bitwise.Pow2(3) == 8;
    assert Bitwise.Pow2(4) == 16 && Bitwise.Pow2(5) == 32 && Bitwise.Pow2(6) == 64 && Bitwise.Pow2(7) == 128;
  }

  lemma BitIsPlace(b: byte, k: bv3)
    ensures GetBitInByte(b as bv8, k) <==> b / Place(k) % 2 == 1
  {
  }

  lemma {:induction false} ToBitsAt(x: nat, n: nat, k: nat)
    requires k < n
    ensures ToBits(x, n)[k] <==> Bitwise.Bit(x, k)
    decreases n
  {
    if k > 0 {
      ToBitsAt(x / 2, n - 1, k - 1);
    }
  }

  lemma FlagIsDigit(f: Sreg, i: nat)
    requires i < 8
    ensures Flag(f, i) <==> SregByte(f) / Bitwise.Pow2(i) % 2 == 1
  {
    ToBitsFromBits(SregBits(f));
    ToBitsAt(SregByte(f), 8, i);
    Bitwise.BitIsQuotient(SregByte(f), i);
    FlagIsElement(f, i);
  }

  lemma BitIsDigit(b: byte, k: bv3)
    ensures GetBitInByte(b as bv8, k) <==> b / Bitwise.Pow2(BitNumber(k)) % 2 == 1
  {
    PlaceIsPower(k);
    BitIsPlace(b, k);
  }

  /** The bits of a byte are these flags. */
  predicate Shows(b: bv8, f: Sreg) {
    && GetBitInByte(b, 0) == f.c && GetBitInByte(b, 1) == f.z && GetBitInByte(b, 2) == f.n && GetBitInByte(b, 3) == f.v
    && GetBitInByte(b, 4) == f.s && GetBitInByte(b, 5) == f.h && GetBitInByte(b, 6) == f.t && GetBitInByte(b, 7) == f.i
  }

  lemma BothShow(x: bv8, y: bv8, f: Sreg)
    requires Shows(x, f) && Shows(y, f)
    ensures x == y
  {
  }

  lemma ShowsAt(f: Sreg, k: bv3, i: nat, flag: bool)
    requires BitNumber(k) == i && flag == Flag(f, i)
    ensures GetBitInByte(SregByte(f) as bv8, k) == flag
  {
    FlagIsDigit(f, i);
    BitIsDigit(SregByte(f), k);
  }

  lemma RegisterShows(f: Sreg)
    ensures Shows(SregByte(f) as bv8, f)
  {
    ShowsAt(f, 0, SREG_C, f.c);
    ShowsAt(f, 1, SREG_Z, f.z);
    ShowsAt(f, 2, SREG_N, f.n);
    ShowsAt(f, 3, SREG_V, f.v);
    ShowsAt(f, 4, SREG_S, f.s);
    ShowsAt(f, 5, SREG_H, f.h);
    ShowsAt(f, 6, SREG_T, f.t);
    ShowsAt(f, 7, SREG_I, f.i);
  }

  lemma NumberIs(k: bv3)
    ensures BitNumber(k) == 0 <==> k == 0
    ensures BitNumber(k) == 1 <==> k == 1
    ensures BitNumber(k) == 2 <==> k == 2
    ensures BitNumber(k) == 3 <==> k == 3
    ensures BitNumber(k) == 4 <==> k == 4
    ensures BitNumber(k) == 5 <==> k == 5
    ensures BitNumber(k) == 6 <==> k == 6
    ensures BitNumber(k) == 7 <==> k == 7
  {
  }

  lemma UpdateShows(b: bv8, f: Sreg, bit: bv3, val: bool)
    requires Shows(b, f)
    ensures Shows(SetBitInByte(b, bit, val), SetFlag(f, BitNumber(bit), val))
  {
    NumberIs(bit);
  }

  /** Updating a flag of the register record is updating its bit of the register byte. */
  lemma SetBitInByteIsFlagUpdate(f: Sreg, bit: bv3, val: bool)
    ensures SregByte(SetFlag(f, BitNumber(bit), val)) as bv8 == SetBitInByte(SregByte(f) as bv8, bit, val)
  {
    var g := SetFlag(f, BitNumber(bit), val);
    RegisterShows(f);
    RegisterShows(g);
    UpdateShows(SregByte(f) as bv8, f, bit, val);
    BothShow(SregByte(g) as bv8, SetBitInByte(SregByte(f) as bv8, bit, val), g);
  }

  // ----- the handlers' byte updates -----

  /** What a handler does to the register byte: H, V, N, S, Z and C in this order, S being N xor V. */
  function UpdateByte(b: bv8, h: bool, v: bool, n: bool, z: bool, c: bool): bv8 {
    UpdateLow(UpdateHigh(b, h, v, n), n != v, z, c)
  }

  function UpdateHigh(b: bv8, h: bool, v: bool, n: bool): bv8 {
    SetBitInByte(SetBitInByte(SetBitInByte(b, 5, h), 3, v), 2, n)
  }

  function UpdateLow(b: bv8, s: bool, z: bool, c: bool): bv8 {
    SetBitInByte(SetBitInByte(SetBitInByte(b, 4, s), 1, z), 0, c)
  }

  lemma UpdatesShow(b: bv8, f: Sreg, h: bool, v: bool, n: bool, z: bool, c: bool)
    requires Shows(b, f)
    ensures Shows(UpdateByte(b, h, v, n, z, c), f.(h := h, v := v, n := n, s := n != v, z := z, c := c))
  {
    assert Shows(UpdateHigh(b, h, v, n), f.(h := h, v := v, n := n));
  }

  /** Setting six flags of the record is the handlers' sequence of bit updates of the register byte. */
  lemma FlagsUpdateByte(f: Sreg, h: bool, v: bool, n: bool, z: bool, c: bool)
    ensures SregByte(f.(h := h, v := v, n := n, s := n != v, z := z, c := c)) as bv8
            == UpdateByte(SregByte(f) as bv8, h, v, n, z, c)
  {
    var g := f.(h := h, v := v, n := n, s := n != v, z := z, c := c);
    RegisterShows(f);
    RegisterShows(g);
    UpdatesShow(SregByte(f) as bv8, f, h, v, n, z, c);
    BothShow(SregByte(g) as bv8, UpdateByte(SregByte(f) as bv8, h, v, n, z, c), g);
  }

  /** So an addition's flags, set in the record, are what its handler does to the register byte, */
  lemma AddFlagsUpdateByte(rd: byte, rr: byte, res: byte, f: Sreg)
    ensures var g := AddFlags(rd, rr, res, f);
            SregByte(g) as bv8 == UpdateByte(SregByte(f) as bv8, g.h, g.v, g.n, g.z, g.c)
  {
    var g := AddFlags(rd, rr, res, f);
    assert g == f.(h := g.h, v := g.v, n := g.n, s := g.n != g.v, z := g.z, c := g.c);
    FlagsUpdateByte(f, g.h, g.v, g.n, g.z, g.c);
  }

  /** and so are those of a subtraction or comparison, whatever becomes of Z. */
  lemma SubFlagsUpdateByte(rd: byte, rr: byte, res: byte, f: Sreg, z: bool)
    ensures var g := SubFlags(rd, rr, res, f).(z := z);
            SregByte(g) as bv8 == UpdateByte(SregByte(f) as bv8, g.h, g.v, g.n, z, g.c)
  {
    var g := SubFlags(rd, rr, res, f).(z := z);
    assert g == f.(h := g.h, v := g.v, n := g.n, s := g.n != g.v, z := z, c := g.c);
    FlagsUpdateByte(f, g.h, g.v, g.n, z, g.c);
  }

  // ----- the layout of the byte -----

  lemma FromBitsCons(b: bool, bits: seq<bool>)
    ensures FromBits([b] + bits) == BitValue(b) + 2 * FromBits(bits)
  {
    assert ([b] + bits)[1..] == bits;
  }

  lemma FourBits(a: bool, b: bool, c: bool, d: bool, rest: seq<bool>)
    ensures FromBits([a, b, c, d] + rest) ==
            BitValue(a) + 2 * BitValue(b) + 4 * BitValue(c) + 8 * BitValue(d) + 16 * FromBits(rest)
  {
    FromBitsCons(d, rest);
    FromBitsCons(c, [d] + rest);
    FromBitsCons(b, [c] + ([d] + rest));
    FromBitsCons(a, [b] + ([c] + ([d] + rest)));
    assert [a, b, c, d] + rest == [a] + ([b] + ([c] + ([d] + rest)));
  }

  /** C is the lowest bit, then Z, N, V, S, H, T, and I. */
  lemma SregByteIs(f: Sreg)
    ensures SregByte(f) ==
            BitValue(f.c) + 2 * BitValue(f.z) + 4 * BitValue(f.n) + 8 * BitValue(f.v)
            + 16 * BitValue(f.s) + 32 * BitValue(f.h) + 64 * BitValue(f.t) + 128 * BitValue(f.i)
  {
    FourBits(f.c, f.z, f.n, f.v, [f.s, f.h, f.t, f.i]);
    FourBits(f.s, f.h, f.t, f.i, []);
    assert SregBits(f) == [f.c, f.z, f.n, f.v] + [f.s, f.h, f.t, f.i];
    assert [f.s, f.h, f.t, f.i] + [] == [f.s, f.h, f.t, f.i];
  }
}
