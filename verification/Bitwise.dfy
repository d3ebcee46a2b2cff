/**
 Bitwise AND of unsigned integers of any width, by recursion on their binary digits.
 */
module Bitwise {
  import opened Bytes

  function Pow2(n: nat): (p: nat)
    ensures p > 0
  {
    if n == 0 then 1 else 2 * Pow2(n - 1)
  }

  function And(a: nat, b: nat): (r: nat)
    ensures r <= a && r <= b
    decreases a
  {
    if a == 0 then 0 else 2 * And(a / 2, b / 2) + (if a % 2 == 1 && b % 2 == 1 then 1 else 0)
  }

  /** Binary digit i of x. */
  predicate Bit(x: nat, i: nat) {
    if i == 0 then x % 2 == 1 else Bit(x / 2, i - 1)
  }

  /** And is the operation it is named after: digit by digit, both. */
  lemma {:induction false} AndBit(a: nat, b: nat, i: nat)
    ensures Bit(And(a, b), i) <==> Bit(a, i) && Bit(b, i)
    decreases i
  {
    var r := And(a, b);
    AndDigit(a, b);
    if i > 0 {
      AndBit(a / 2, b / 2, i - 1);
    }
  }

  lemma AndDigit(a: nat, b: nat)
    ensures And(a, b) % 2 == if a % 2 == 1 && b % 2 == 1 then 1 else 0
    ensures And(a, b) / 2 == And(a / 2, b / 2)
  {
    var h := And(a / 2, b / 2);
    if a == 0 {
      assert h == 0 && And(a, b) == 0;
    } else {
      LastDigit(h, if a % 2 == 1 && b % 2 == 1 then 1 else 0);
    }
  }

  lemma LastDigit(h: nat, d: nat)
    requires d <= 1
    ensures (2 * h + d) / 2 == h && (2 * h + d) % 2 == d
  {
  }

  lemma {:induction false} AndIdempotent(a: nat, b: nat)
    ensures And(And(a, b), b) == And(a, b)
    decreases a
  {
    if a > 0 {
      AndDigit(a, b);
      AndIdempotent(a / 2, b / 2);
    }
  }

  lemma {:induction false} AndSame(a: nat)
    ensures And(a, a) == a
    decreases a
  {
    if a > 0 {
      AndSame(a / 2);
    }
  }

  lemma Division(x: nat, m: nat)
    requires m > 0
    ensures x == m * (x / m) + x % m
  {
  }

  /** Quotient and remainder are unique. */
  lemma DivModUnique(x: nat, m: nat, q: nat, r: nat)
    requires r < m && x == m * q + r
    ensures x / m == q && x % m == r
  {
    Division(x, m);
    assert m * (x / m - q) == r - x % m;
    NonzeroMultiple(m, x / m - q);
  }

  lemma SmallRemainder(x: nat, p: nat)
    requires p > 0 && x < 2 * p
    ensures x % p == if x < p then x else x - p
  {
    if x < p {
      DivModUnique(x, p, 0, x);
    } else {
      DivModUnique(x, p, 1, x - p);
    }
  }

  lemma NonzeroMultiple(m: int, d: int)
    requires m > 0
    ensures d == 0 || m * d >= m || m * d <= -m
  {
    if d >= 1 {
      assert m * d == m + m * (d - 1);
    } else if d <= -1 {
      assert m * d == -m + m * (d + 1);
    }
  }

  /** A mask of k ones keeps the remainder modulo 2 to the power k. */
  lemma {:induction false} AndLowMask(a: nat, k: nat)
    ensures And(a, Pow2(k) - 1) == a % Pow2(k)
    decreases k
  {
    if k == 0 {
      AndZero(a);
    } else {
      var p := Pow2(k - 1);
      AndLowMask(a / 2, k - 1);
      AndDigit(a, 2 * p - 1);
      LastDigit(p - 1, 1);
      assert 2 * p - 1 == 2 * (p - 1) + 1;
      LowDigits(a, p);
    }
  }

  /** Taking one more binary digit of the remainder. */
  lemma LowDigits(a: nat, p: nat)
    requires p > 0
    ensures a % (2 * p) == 2 * (a / 2 % p) + a % 2
  {
    var q := a / 2 / p;
    Division(a / 2, p);
    assert a == 2 * (p * q + a / 2 % p) + a % 2;
    assert 2 * (p * q) == (2 * p) * q;
    DivModUnique(a, 2 * p, q, 2 * (a / 2 % p) + a % 2);
  }

  lemma HalfThenQuotient(x: nat, p: nat)
    requires p > 0
    ensures x / 2 / p == x / (2 * p)
  {
    LowDigits(x, p);
    var q, r := x / 2 / p, x / 2 % p;
    Division(x / 2, p);
    assert x == 2 * (p * q + r) + x % 2;
    assert 2 * (p * q) == (2 * p) * q;
    DivModUnique(x, 2 * p, q, 2 * r + x % 2);
  }

  /** Digit i is the parity of the quotient by its place value. */
  lemma {:induction false} BitIsQuotient(x: nat, i: nat)
    ensures Bit(x, i) <==> x / Pow2(i) % 2 == 1
    decreases i
  {
    if i > 0 {
      BitIsQuotient(x / 2, i - 1);
      HalfThenQuotient(x, Pow2(i - 1));
    }
  }

  lemma {:induction false} AndZero(a: nat)
    ensures And(a, 0) == 0
    decreases a
  {
    if a > 0 {
      AndZero(a / 2);
    }
  }

  /** A mask of k ones keeps a number of at most k digits. */
  lemma {:induction false} AndMaskFits(a: nat, k: nat)
    requires a < Pow2(k)
    ensures And(a, Pow2(k) - 1) == a
    decreases k
  {
    if a > 0 {
      AndMaskFits(a / 2, k - 1);
      var m := Pow2(k - 1);
      assert (2 * m - 1) / 2 == m - 1 && (2 * m - 1) % 2 == 1;
    }
  }

  lemma Pow2Eight()
    ensures Pow2(8) == 256
  {
    assert Pow2(4) == 16;
  }

  /** A full byte mask changes nothing. */
  lemma AndFull(a: byte, mask: byte)
    requires mask == 255
    ensures And(a, mask) == a
  {
    Pow2Eight();
    AndMaskFits(a, 8);
  }

  lemma {:induction false} AndCommutes(a: nat, b: nat)
    ensures And(a, b) == And(b, a)
    decreases a
  {
    if a == 0 {
      AndZero(b);
    } else if b == 0 {
      AndZero(a);
    } else {
      AndCommutes(a / 2, b / 2);
    }
  }

  lemma Pow2Values()
    ensures Pow2(0) == 1 && Pow2(3) == 8 && Pow2(6) == 64 && Pow2(8) == 256 && Pow2(10) == 1024
  {
    assert Pow2(2) == 4 && Pow2(3) == 8;
    assert Pow2(5) == 32 && Pow2(6) == 64;
    assert Pow2(8) == 256 && Pow2(9) == 512;
  }
}
