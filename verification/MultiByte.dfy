/**
 Arithmetic on integers of any number of bytes, carried out by chains of one-byte instructions.

 The status register is what links the instructions of a chain: the carry flag hands the carry
 (or borrow) to the next byte, and the zero flag of SBC and CPC remembers whether every byte so
 far was zero.
 */
module MultiByte {
  import opened Bytes
  import opened Alu

  datatype ChainOut = ChainOut(res: seq<byte>, sreg: Sreg)

  // ----- the chains -----

  /** ADC on each pair of bytes, lowest first. */
  function AdcChain(a: seq<byte>, b: seq<byte>, f: Sreg): (out: ChainOut)
    requires |a| == |b|
    ensures |out.res| == |a|
  {
    if a == [] then ChainOut([], f) else
      var low := Adc(a[0], b[0], f);
      var rest := AdcChain(a[1..], b[1..], low.sreg);
      ChainOut([low.res] + rest.res, rest.sreg)
  }

  /** ADD on the lowest bytes, then ADC on the others. */
  function AddChain(a: seq<byte>, b: seq<byte>, f: Sreg): (out: ChainOut)
    requires |a| == |b| > 0
    ensures |out.res| == |a|
  {
    var low := Add(a[0], b[0], f);
    var rest := AdcChain(a[1..], b[1..], low.sreg);
    ChainOut([low.res] + rest.res, rest.sreg)
  }

  function SbcChain(a: seq<byte>, b: seq<byte>, f: Sreg): (out: ChainOut)
    requires |a| == |b|
    ensures |out.res| == |a|
  {
    if a == [] then ChainOut([], f) else
      var low := Sbc(a[0], b[0], f);
      var rest := SbcChain(a[1..], b[1..], low.sreg);
      ChainOut([low.res] + rest.res, rest.sreg)
  }

  /** SUB on the lowest bytes, then SBC on the others. */
  function SubChain(a: seq<byte>, b: seq<byte>, f: Sreg): (out: ChainOut)
    requires |a| == |b| > 0
    ensures |out.res| == |a|
  {
    var low := Sub(a[0], b[0], f);
    var rest := SbcChain(a[1..], b[1..], low.sreg);
    ChainOut([low.res] + rest.res, rest.sreg)
  }

  function CpcChain(a: seq<byte>, b: seq<byte>, f: Sreg): Sreg
    requires |a| == |b|
  {
    if a == [] then f else CpcChain(a[1..], b[1..], Cpc(a[0], b[0], f))
  }

  /** CP on the lowest bytes, then CPC on the others. */
  function CpChain(a: seq<byte>, b: seq<byte>, f: Sreg): Sreg
    requires |a| == |b| > 0
  {
    CpcChain(a[1..], b[1..], Cp(a[0], b[0], f))
  }

  // ----- addition -----

  /** n-byte two's complement integers lie in [-HalfRange(n), HalfRange(n)). */
  function HalfRange(n: nat): int
    requires n > 0
  {
    128 * Pow256(n - 1)
  }

  /** What the flags and result bytes of a sum mean for the n-byte integers. */
  ghost predicate IsSum(a: seq<byte>, b: seq<byte>, carry: nat, f: Sreg, out: ChainOut)
    requires |a| == |b| == |out.res| > 0
  {
    var n := |a|;
    var sum := Signed(a) + Signed(b) + carry;
    && Value(out.res) + Pow256(n) * BitValue(out.sreg.c) == Value(a) + Value(b) + carry
    && (out.sreg.v <==> !(-HalfRange(n) <= sum < HalfRange(n)))
    && (out.sreg.s <==> sum < 0)
    && (out.sreg.n <==> Signed(out.res) < 0)
    && (out.sreg.z <==> out.res[n - 1] == 0)
    && out.sreg.t == f.t && out.sreg.i == f.i
  }

  lemma SignedOne(x: byte)
    ensures Signed([x]) == SignedByte(x)
    ensures Value([x]) == x
  {
    assert Value([x]) == x + 256 * Value([]);
    assert Pow256(1) == 256 * Pow256(0);
  }

  lemma {:induction false} AdcChainSums(a: seq<byte>, b: seq<byte>, f: Sreg)
    requires |a| == |b| > 0
    ensures IsSum(a, b, BitValue(f.c), f, AdcChain(a, b, f))
  {
    var out := AdcChain(a, b, f);
    var low := Adc(a[0], b[0], f);
    FullAdder(a[0], b[0], BitValue(f.c), f);
    if |a| == 1 {
      assert out == ChainOut([low.res], low.sreg);
      SumOne(a[0], b[0], f, low);
      assert a == [a[0]] && b == [b[0]];
    } else {
      AdcChainSums(a[1..], b[1..], low.sreg);
      SumCons(a, b, BitValue(f.c), f, low, AdcChain(a[1..], b[1..], low.sreg), out);
    }
  }

  lemma SumOne(x: byte, y: byte, f: Sreg, low: AluOut)
    requires low == Adc(x, y, f)
    ensures IsSum([x], [y], BitValue(f.c), f, ChainOut([low.res], low.sreg))
  {
    FullAdder(x, y, BitValue(f.c), f);
    SignedOne(x);
    SignedOne(y);
    SignedOne(low.res);
    assert Pow256(1) == 256 * Pow256(0);
  }

  /** One full adder below a correct sum makes a correct sum one byte longer. */
  lemma SumCons(a: seq<byte>, b: seq<byte>, carry: nat, f: Sreg, low: AluOut, rest: ChainOut, out: ChainOut)
    requires |a| == |b| == |out.res| > 1 && carry <= 1
    requires low.res + 256 * BitValue(low.sreg.c) == a[0] + b[0] + carry
    requires low.sreg.t == f.t && low.sreg.i == f.i
    requires out == ChainOut([low.res] + rest.res, rest.sreg)
    requires IsSum(a[1..], b[1..], BitValue(low.sreg.c), low.sreg, rest)
    ensures IsSum(a, b, carry, f, out)
  {
    SignedCons(a);
    SignedCons(b);
    SignedCons(out.res);
    assert out.res[1..] == rest.res;
    MulAssoc(256, Pow256(|a| - 1), BitValue(out.sreg.c));
    assert HalfRange(|a|) == 256 * HalfRange(|a| - 1);
  }

  /** ADD followed by n - 1 ADC adds n-byte integers; the carry flag is the true carry out. */
  lemma AddChainSums(a: seq<byte>, b: seq<byte>, f: Sreg)
    requires |a| == |b| > 0
    ensures IsSum(a, b, 0, f, AddChain(a, b, f))
  {
    assert Add(a[0], b[0], f) == Adc(a[0], b[0], f.(c := false));
    AdcChainSums(a, b, f.(c := false));
  }

  /** The result is the sum modulo the range of the operands, and C says whether it wrapped. */
  lemma AddChainModulo(a: seq<byte>, b: seq<byte>, f: Sreg)
    requires |a| == |b| > 0
    ensures var out := AddChain(a, b, f);
            var sum := Value(a) + Value(b);
            && (out.sreg.c <==> sum >= Pow256(|a|))
            && Value(out.res) == if sum >= Pow256(|a|) then sum - Pow256(|a|) else sum
  {
    AddChainSums(a, b, f);
    ValueBound(AddChain(a, b, f).res);
    ValueBound(a);
    ValueBound(b);
  }

  // ----- subtraction and comparison -----

  /** What the flags and result bytes of a difference mean; z is the incoming zero flag. */
  ghost predicate IsDifference(a: seq<byte>, b: seq<byte>, borrow: nat, z: bool, f: Sreg, out: ChainOut)
    requires |a| == |b| == |out.res| > 0
  {
    var n := |a|;
    var g := out.sreg;
    var diff := Signed(a) - Signed(b) - borrow;
    && Value(out.res) == Value(a) - Value(b) - borrow + Pow256(n) * BitValue(g.c)
    && (g.v <==> !(-HalfRange(n) <= diff < HalfRange(n)))
    && (g.s <==> diff < 0)
    && (g.n <==> Signed(out.res) < 0)
    && (g.z <==> z && Value(out.res) == 0)
    && g.t == f.t && g.i == f.i
  }

  lemma {:induction false} SbcChainSubtracts(a: seq<byte>, b: seq<byte>, f: Sreg)
    requires |a| == |b| > 0
    ensures IsDifference(a, b, BitValue(f.c), f.z, f, SbcChain(a, b, f))
  {
    var out := SbcChain(a, b, f);
    var low := Sbc(a[0], b[0], f);
    FullSubtractor(a[0], b[0], BitValue(f.c), f);
    if |a| == 1 {
      assert out == ChainOut([low.res], low.sreg);
      DifferenceOne(a[0], b[0], f, low);
      assert a == [a[0]] && b == [b[0]];
    } else {
      SbcChainSubtracts(a[1..], b[1..], low.sreg);
      DifferenceCons(a, b, BitValue(f.c), f, low, SbcChain(a[1..], b[1..], low.sreg), out);
    }
  }

  lemma DifferenceOne(x: byte, y: byte, f: Sreg, low: AluOut)
    requires low == Sbc(x, y, f)
    ensures IsDifference([x], [y], BitValue(f.c), f.z, f, ChainOut([low.res], low.sreg))
  {
    FullSubtractor(x, y, BitValue(f.c), f);
    SignedOne(x);
    SignedOne(y);
    SignedOne(low.res);
    assert Pow256(1) == 256 * Pow256(0);
  }

  /** One full subtractor below a correct difference makes a correct difference one byte longer. */
  lemma DifferenceCons(a: seq<byte>, b: seq<byte>, borrow: nat, f: Sreg, low: AluOut, rest: ChainOut, out: ChainOut)
    requires |a| == |b| == |out.res| > 1 && borrow <= 1
    requires low.res - 256 * BitValue(low.sreg.c) == a[0] - b[0] - borrow
    requires low.sreg.z <==> f.z && low.res == 0
    requires low.sreg.t == f.t && low.sreg.i == f.i
    requires out == ChainOut([low.res] + rest.res, rest.sreg)
    requires IsDifference(a[1..], b[1..], BitValue(low.sreg.c), low.sreg.z, low.sreg, rest)
    ensures IsDifference(a, b, borrow, f.z, f, out)
  {
    SignedCons(a);
    SignedCons(b);
    SignedCons(out.res);
    assert out.res[1..] == rest.res;
    MulAssoc(256, Pow256(|a| - 1), BitValue(out.sreg.c));
    assert HalfRange(|a|) == 256 * HalfRange(|a| - 1);
  }

  /** Without a borrow coming in, C decides the unsigned order and Z decides equality. */
  lemma DifferenceDecides(a: seq<byte>, b: seq<byte>, f: Sreg, out: ChainOut)
    requires |a| == |b| == |out.res| > 0
    requires IsDifference(a, b, 0, true, f, out)
    ensures out.sreg.c <==> Value(a) < Value(b)
    ensures out.sreg.z <==> a == b
  {
    ValueBound(a);
    ValueBound(b);
    ValueBound(out.res);
    if out.sreg.c {
      assert Pow256(|a|) * BitValue(out.sreg.c) == Pow256(|a|);
    } else {
      assert Pow256(|a|) * BitValue(out.sreg.c) == 0;
    }
    if Value(a) == Value(b) {
      ValueInjective(a, b);
    }
  }

  lemma SubChainIsSbcChain(a: seq<byte>, b: seq<byte>, f: Sreg)
    requires |a| == |b| > 0
    ensures SubChain(a, b, f) == SbcChain(a, b, f.(c := false, z := true))
  {
    SubIsSbc(a[0], b[0], f);
  }

  lemma SubIsSbc(x: byte, y: byte, f: Sreg)
    ensures Sub(x, y, f) == Sbc(x, y, f.(c := false, z := true))
  {
    var g := f.(c := false, z := true);
    assert x - y == x - y - BitValue(g.c);
    var res := (x - y) % 256;
    assert SubFlags(x, y, res, f) == SubFlags(x, y, res, g);
  }

  /** SUB followed by n - 1 SBC subtracts n-byte integers; C is the borrow, Z whole-number zero. */
  lemma SubChainSubtracts(a: seq<byte>, b: seq<byte>, f: Sreg)
    requires |a| == |b| > 0
    ensures var out := SubChain(a, b, f);
            && IsDifference(a, b, 0, true, f, out)
            && (out.sreg.c <==> Value(a) < Value(b))
            && (out.sreg.z <==> a == b)
  {
    SubChainIsSbcChain(a, b, f);
    SbcChainSubtracts(a, b, f.(c := false, z := true));
    DifferenceDecides(a, b, f, SubChain(a, b, f));
  }

  /** Subtracting what was added gives back the original bytes. */
  lemma SubUndoesAdd(a: seq<byte>, b: seq<byte>, f: Sreg, g: Sreg)
    requires |a| == |b| > 0
    ensures SubChain(AddChain(a, b, f).res, b, g).res == a
  {
    var sum := AddChain(a, b, f).res;
    AddChainModulo(a, b, f);
    var back := SubChain(sum, b, g);
    SubChainSubtracts(sum, b, g);
    ValueBound(a);
    ValueBound(b);
    ValueBound(back.res);
    ValueInjective(back.res, a);
  }

  /** Adding what was subtracted gives back the original bytes. */
  lemma AddUndoesSub(a: seq<byte>, b: seq<byte>, f: Sreg, g: Sreg)
    requires |a| == |b| > 0
    ensures AddChain(SubChain(a, b, f).res, b, g).res == a
  {
    var diff := SubChain(a, b, f);
    SubChainSubtracts(a, b, f);
    AddChainModulo(diff.res, b, g);
    ValueBound(a);
    ValueBound(b);
    ValueInjective(AddChain(diff.res, b, g).res, a);
  }

  /** A compare chain leaves the flags the subtract chain would. */
  lemma {:induction false} CpcChainIsSbcChain(a: seq<byte>, b: seq<byte>, f: Sreg)
    requires |a| == |b|
    ensures CpcChain(a, b, f) == SbcChain(a, b, f).sreg
  {
    if a != [] {
      assert Cpc(a[0], b[0], f) == Sbc(a[0], b[0], f).sreg;
      CpcChainIsSbcChain(a[1..], b[1..], Cpc(a[0], b[0], f));
    }
  }

  /**
   After CP and n - 1 CPC: C is unsigned less-than, Z is equality and S is signed less-than of the
   whole n-byte integers.
   */
  lemma CpChainCompares(a: seq<byte>, b: seq<byte>, f: Sreg)
    requires |a| == |b| > 0
    ensures var g := CpChain(a, b, f);
            && (g.c <==> Value(a) < Value(b))
            && (g.z <==> a == b)
            && (g.s <==> Signed(a) < Signed(b))
            && g.t == f.t && g.i == f.i
  {
    CpcChainIsSbcChain(a[1..], b[1..], Sub(a[0], b[0], f).sreg);
    SubChainSubtracts(a, b, f);
  }
}
