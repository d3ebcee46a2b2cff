/**
 Bytes, the little-endian integers they make up, and their bits.

 The simulator keeps every register and memory cell in a `uint8_t`; programs for it keep wider
 integers as runs of bytes, least significant byte first.
 */
module Bytes {

  type byte = x: int | 0 <= x < 256

  type word = x: int | 0 <= x < 0x1_0000

  /** 256 to the power n: the number of values n bytes can hold. */
  function Pow256(n: nat): (p: nat)
    ensures p > 0
    ensures n > 0 ==> p % 256 == 0
  {
    if n == 0 then 1 else 256 * Pow256(n - 1)
  }

  /** The unsigned integer stored in bs, least significant byte first. */
  function Value(bs: seq<byte>): nat {
    if bs == [] then 0 else bs[0] + 256 * Value(bs[1..])
  }

  /** The two's complement reading of bs. */
  function Signed(bs: seq<byte>): int
    requires |bs| > 0
  {
    if 2 * Value(bs) >= Pow256(|bs|) then Value(bs) - Pow256(|bs|) else Value(bs)
  }

  lemma {:induction false} ValueBound(bs: seq<byte>)
    ensures Value(bs) < Pow256(|bs|)
  {
    if bs != [] {
      ValueBound(bs[1..]);
    }
  }

  /** Equally long runs of bytes with the same value are the same run. */
  lemma {:induction false} ValueInjective(a: seq<byte>, b: seq<byte>)
    requires |a| == |b| && Value(a) == Value(b)
    ensures a == b
  {
    if a != [] {
      ValueInjective(a[1..], b[1..]);
      assert a == [a[0]] + a[1..] && b == [b[0]] + b[1..];
    }
  }

  lemma MulAssoc(a: int, b: int, c: int)
    ensures a * (b * c) == (a * b) * c
  {
  }

  lemma {:induction false} ValueAppend(low: seq<byte>, high: seq<byte>)
    ensures Value(low + high) == Value(low) + Pow256(|low|) * Value(high)
  {
    if low == [] {
      assert low + high == high;
    } else {
      ValueAppend(low[1..], high);
      assert (low + high)[1..] == low[1..] + high;
      MulAssoc(256, Pow256(|low| - 1), Value(high));
    }
  }

  /** The low byte of a signed integer adds in unchanged; the sign sits in the high bytes. */
  lemma SignedCons(bs: seq<byte>)
    requires |bs| > 1
    ensures Signed(bs) == bs[0] + 256 * Signed(bs[1..])
  {
    var p, v, half := Pow256(|bs| - 1), Value(bs[1..]), 128 * Pow256(|bs| - 2);
    assert p == 2 * half;
    assert Value(bs) == bs[0] + 256 * v;
    assert Pow256(|bs|) == 256 * p;
    if v >= half {
      assert 2 * Value(bs) >= Pow256(|bs|);
    } else {
      assert v <= half - 1;
    }
  }

  /** n zero bytes. */
  function Zeros(n: nat): (z: seq<byte>)
    ensures |z| == n
  {
    seq(n, _ => 0)
  }

  lemma {:induction false} ValueZeros(n: nat)
    ensures Value(Zeros(n)) == 0
  {
    if n > 0 {
      ValueZeros(n - 1);
      assert Zeros(n)[1..] == Zeros(n - 1);
    }
  }
}
