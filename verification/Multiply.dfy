/**
 Multiplication of integers of any number of bytes by rows of MUL, ADD and ADC.
 */
module Multiply {
  import opened Bytes
  import opened Alu
  import opened MultiByte

  datatype RowStepOut = RowStepOut(low: byte, carry: byte, sreg: Sreg)

  /** MUL a,b; ADD R0,carry; ADC R1,zero: R0 is a result byte and R1 the carry to the next one. */
  function RowStep(a: byte, b: byte, carry: byte, f: Sreg): RowStepOut {
    var product := Mul(a, b, f);
    var low := Add(product.r0, carry, product.sreg);
    var high := Adc(product.r1, 0, low.sreg);
    RowStepOut(low.res, high.res, high.sreg)
  }

  /** The bytes a row leaves: one for each byte of a, and the last carry. */
  function Row(a: seq<byte>, b: byte, carry: byte, f: Sreg): (r: seq<byte>)
    ensures |r| == |a| + 1
  {
    if a == [] then [carry] else
      var step := RowStep(a[0], b, carry, f);
      [step.low] + Row(a[1..], b, step.carry, step.sreg)
  }

  lemma MulExact(a: byte, b: byte, f: Sreg)
    ensures var p := Mul(a, b, f); p.r0 + 256 * p.r1 == a * b
    ensures a * b <= 255 * 255
  {
    ProductIsWord(a, b);
  }

  /** A byte product plus a byte fits the two result registers, so the last ADC never carries out. */
  lemma RowStepExact(a: byte, b: byte, carry: byte, f: Sreg)
    ensures var out := RowStep(a, b, carry, f);
            && out.low + 256 * out.carry == a * b + carry <= 65280
            && !out.sreg.c
  {
    var p := Mul(a, b, f);
    MulExact(a, b, f);
    FullAdder(p.r0, carry, 0, p.sreg);
    var low := Add(p.r0, carry, p.sreg);
    FullAdder(p.r1, 0, BitValue(low.sreg.c), low.sreg);
    CarryDoesNotOverflow(p.r0, p.r1, carry, low.res, BitValue(low.sreg.c), a * b);
  }

  lemma CarryDoesNotOverflow(r0: byte, r1: byte, carry: byte, low: byte, c: nat, product: nat)
    requires r0 + 256 * r1 == product <= 255 * 255 && c <= 1
    requires low + 256 * c == r0 + carry
    ensures r1 + c < 256
  {
  }

  /** A row multiplies an integer of any length by one byte, exactly. */
  lemma {:induction false} RowProduct(a: seq<byte>, b: byte, carry: byte, f: Sreg)
    ensures Value(Row(a, b, carry, f)) == Value(a) * b + carry
  {
    if a == [] {
      assert Value([carry]) == carry + 256 * Value([]);
    } else {
      var step := RowStep(a[0], b, carry, f);
      RowStepExact(a[0], b, carry, f);
      RowProduct(a[1..], b, step.carry, step.sreg);
      assert Row(a, b, carry, f)[1..] == Row(a[1..], b, step.carry, step.sreg);
      RowDistributes(a[0], Value(a[1..]), b);
    }
  }

  lemma RowDistributes(x: nat, v: nat, b: nat)
    ensures (x + 256 * v) * b == x * b + 256 * (v * b)
  {
  }

  /** Row by row: each row is added one byte above the previous one. */
  function Product(a: seq<byte>, b: seq<byte>, f: Sreg): (r: seq<byte>)
    requires a != []
    ensures |r| == |a| + |b|
  {
    if b == [] then Zeros(|a|) else
      var row := Row(a, b[0], 0, f);
      var high := Product(a, b[1..], f);
      [row[0]] + AddChain(row[1..] + Zeros(|b| - 1), high, f).res
  }

  lemma {:induction false} PowAdd(m: nat, n: nat)
    ensures Pow256(m + n) == Pow256(m) * Pow256(n)
  {
    if m > 0 {
      PowAdd(m - 1, n);
      MulAssoc(256, Pow256(m - 1), Pow256(n));
    }
  }

  lemma ProductBound(x: nat, y: nat, m: nat, n: nat)
    requires x < Pow256(m) && y < Pow256(n)
    ensures x * y < Pow256(m + n)
  {
    PowAdd(m, n);
    StrictProduct(x, y, Pow256(m), Pow256(n));
  }

  lemma StrictProduct(x: nat, y: nat, p: nat, q: nat)
    requires x < p && y < q
    ensures x * y < p * q
  {
    MulMonotone(x, p - 1, y);
    MulMonotone(y, q - 1, p);
    MulSuccessor(p - 1, y);
    MulSuccessor(q - 1, p);
  }

  lemma MulSuccessor(k: nat, y: nat)
    ensures (k + 1) * y == k * y + y
  {
  }

  lemma MulMonotone(x: nat, y: nat, z: nat)
    requires x <= y
    ensures x * z <= y * z && z * x <= z * y
  {
  }

  lemma ValuePadded(bs: seq<byte>, n: nat)
    ensures Value(bs + Zeros(n)) == Value(bs)
  {
    ValueAppend(bs, Zeros(n));
    ValueZeros(n);
  }

  lemma AddFits(a: seq<byte>, b: seq<byte>, f: Sreg)
    requires |a| == |b| > 0 && Value(a) + Value(b) < Pow256(|a|)
    ensures Value(AddChain(a, b, f).res) == Value(a) + Value(b)
  {
    AddChainModulo(a, b, f);
  }

  lemma ValueCons(x: byte, bs: seq<byte>)
    ensures Value([x] + bs) == x + 256 * Value(bs)
  {
    assert ([x] + bs)[1..] == bs;
  }

  /** Adding a row to the rows above it: the sum fits, so no carry is lost. */
  lemma RowsAdd(row: seq<byte>, high: seq<byte>, f: Sreg, total: nat)
    requires 1 < |row| <= |high| + 1
    requires Value(row) + 256 * Value(high) == total < Pow256(|high| + 1)
    ensures Value([row[0]] + AddChain(row[1..] + Zeros(|high| + 1 - |row|), high, f).res) == total
  {
    var upper := row[1..] + Zeros(|high| + 1 - |row|);
    ValuePadded(row[1..], |high| + 1 - |row|);
    assert Pow256(|high| + 1) == 256 * Pow256(|high|);
    AddFits(upper, high, f);
    ValueCons(row[0], AddChain(upper, high, f).res);
  }

  /** The rows together are the product of the two integers, for any lengths. */
  lemma {:induction false} ProductExact(a: seq<byte>, b: seq<byte>, f: Sreg)
    requires a != []
    ensures Value(Product(a, b, f)) == Value(a) * Value(b)
  {
    if b == [] {
      ValueZeros(|a|);
    } else {
      var row, high := Row(a, b[0], 0, f), Product(a, b[1..], f);
      ProductExact(a, b[1..], f);
      RowProduct(a, b[0], 0, f);
      ColumnsAdd(a, b, Value(row), Value(high));
      RowsAdd(row, high, f, Value(a) * Value(b));
    }
  }

  lemma ColumnsAdd(a: seq<byte>, b: seq<byte>, low: nat, high: nat)
    requires b != [] && low == Value(a) * b[0] && high == Value(a) * Value(b[1..])
    ensures low + 256 * high == Value(a) * Value(b) < Pow256(|a| + |b|)
  {
    ValueBound(a);
    ValueBound(b);
    ProductBound(Value(a), Value(b), |a|, |b|);
    ColumnSum(Value(a), b[0], Value(b[1..]));
  }

  lemma ColumnSum(a: nat, b0: nat, rest: nat)
    ensures a * b0 + 256 * (a * rest) == a * (b0 + 256 * rest)
  {
  }
}
