/**
 Hexadecimal digits, bytes and numbers as the debugger protocol writes them.
 */
module Hex {
  import opened Bytes

  type nibble = n: nat | n < 16

  const HEX_DIGITS := "0123456789abcdef"

  function Digit(n: nibble): char {
    HEX_DIGITS[n]
  }

  predicate IsHex(c: char) {
    'A' <= c <= 'F' || 'a' <= c <= 'f' || '0' <= c <= '9'
  }

  /** The value of a digit, upper or lower case. Any other character stops the simulator. */
  function Nibble(c: char): nibble
    requires IsHex(c)
  {
    if 'A' <= c <= 'F' then 10 + (c as int - 'A' as int)
    else if 'a' <= c <= 'f' then 10 + (c as int - 'a' as int)
    else c as int - '0' as int
  }

  lemma NibbleOfDigit(n: nibble)
    ensures IsHex(Digit(n)) && Nibble(Digit(n)) == n
  {
  }

  /** Digits are written in lower case. */
  function Lower(c: char): char {
    if 'A' <= c <= 'F' then (c as int - 'A' as int + 'a' as int) as char else c
  }

  lemma DigitOfNibble(c: char)
    requires IsHex(c)
    ensures Digit(Nibble(c)) == Lower(c)
  {
  }

  /** The digits, and nothing else, in order and in both cases. */
  lemma DigitTable(n: nibble, c: char)
    ensures Digit(n) == "0123456789abcdef"[n]
    ensures IsHex("0123456789abcdef"[n]) && Nibble("0123456789abcdef"[n]) == n
    ensures IsHex("0123456789ABCDEF"[n]) && Nibble("0123456789ABCDEF"[n]) == n
    ensures IsHex(c) ==> c == "0123456789abcdef"[Nibble(c)] || c == "0123456789ABCDEF"[Nibble(c)]
  {
    if IsHex(c) {
      DigitOfNibble(c);
    }
  }

  function LowerAll(s: string): (t: string)
    ensures |t| == |s|
  {
    seq(|s|, i requires 0 <= i < |s| => Lower(s[i]))
  }

  predicate AllHex(s: string) {
    forall i :: 0 <= i < |s| ==> IsHex(s[i])
  }

  // ----- bytes -----

  function Pair(high: char, low: char): byte
    requires IsHex(high) && IsHex(low)
  {
    Nibble(high) * 16 + Nibble(low)
  }

  /** Two digits for each byte, high nibble first. */
  function Encode(bs: seq<byte>): (s: string)
    ensures |s| == 2 * |bs|
  {
    if bs == [] then "" else [Digit(bs[0] / 16), Digit(bs[0] % 16)] + Encode(bs[1..])
  }

  /** The bytes that a string of digits stands for, two digits each. */
  function Decode(s: string): (bs: seq<byte>)
    requires AllHex(s) && |s| % 2 == 0
    ensures |bs| == |s| / 2
  {
    if s == "" then [] else [Pair(s[0], s[1])] + Decode(s[2..])
  }

  lemma {:induction false} EncodeIsHex(bs: seq<byte>)
    ensures AllHex(Encode(bs))
  {
    if bs != [] {
      NibbleOfDigit(bs[0] / 16);
      NibbleOfDigit(bs[0] % 16);
      EncodeIsHex(bs[1..]);
    }
  }

  lemma {:induction false} DecodeEncode(bs: seq<byte>)
    ensures AllHex(Encode(bs)) && Decode(Encode(bs)) == bs
  {
    EncodeIsHex(bs);
    if bs != [] {
      NibbleOfDigit(bs[0] / 16);
      NibbleOfDigit(bs[0] % 16);
      DecodeEncode(bs[1..]);
      assert Encode(bs)[2..] == Encode(bs[1..]);
    }
  }

  /** Writing out again what was read gives the same digits, in lower case. */
  lemma {:induction false} EncodeDecode(s: string)
    requires AllHex(s) && |s| % 2 == 0
    ensures Encode(Decode(s)) == LowerAll(s)
  {
    if s != "" {
      DigitOfNibble(s[0]);
      DigitOfNibble(s[1]);
      EncodeDecode(s[2..]);
      var b: byte := Pair(s[0], s[1]);
      assert b / 16 == Nibble(s[0]) && b % 16 == Nibble(s[1]);
      assert LowerAll(s) == [Lower(s[0]), Lower(s[1])] + LowerAll(s[2..]);
    }
  }

  lemma {:induction false} DecodeAt(s: string, i: nat)
    requires AllHex(s) && |s| % 2 == 0 && 2 * i + 1 < |s|
    ensures Decode(s)[i] == Pair(s[2 * i], s[2 * i + 1])
  {
    if i > 0 {
      DecodeAt(s[2..], i - 1);
    }
  }

  lemma {:induction false} EncodeAppend(a: seq<byte>, b: byte)
    ensures Encode(a + [b]) == Encode(a) + [Digit(b / 16), Digit(b % 16)]
  {
    if a == [] {
      assert [b][1..] == [] && [] + [b] == [b];
    } else {
      EncodeAppend(a[1..], b);
      assert (a + [b])[1..] == a[1..] + [b];
    }
  }

  /** A byte is written high digit first, and read so. */
  lemma ByteAsDigits(b: byte)
    ensures Encode([b]) == ["0123456789abcdef"[b / 16], "0123456789abcdef"[b % 16]]
    ensures Pair("0123456789abcdef"[b / 16], "0123456789abcdef"[b % 16]) == b
  {
    DigitTable(b / 16, '0');
    DigitTable(b % 16, '0');
    assert [b][1..] == [];
    assert Encode([b]) == [Digit(b / 16), Digit(b % 16)] + Encode([]);
  }

  // ----- numbers -----

  /** The number that acc becomes when more digits are read after it. */
  function NumberFrom(acc: nat, s: string): nat
    requires AllHex(s)
    decreases |s|
  {
    if s == "" then acc else NumberFrom(acc * 16 + Nibble(s[0]), s[1..])
  }

  /** The number a string of digits stands for, highest digit first. */
  function Number(s: string): nat
    requires AllHex(s)
  {
    NumberFrom(0, s)
  }

  /** A number without leading zeros, as the debugger sends it. */
  function Numeral(n: nat): (s: string)
    ensures |s| > 0
  {
    if n < 16 then [Digit(n)] else Numeral(n / 16) + [Digit(n % 16)]
  }

  function Pow16(d: nat): nat {
    if d == 0 then 1 else 16 * Pow16(d - 1)
  }

  /** A number below 16 to the power d takes at most d digits. */
  lemma {:induction false} NumeralLength(n: nat, d: nat)
    requires d > 0 && n < Pow16(d)
    ensures |Numeral(n)| <= d
    decreases d
  {
    if n >= 16 {
      NumeralLength(n / 16, d - 1);
    }
  }

  lemma {:induction false} NumberAppend(acc: nat, s: string, c: char)
    requires AllHex(s) && IsHex(c)
    ensures NumberFrom(acc, s + [c]) == NumberFrom(acc, s) * 16 + Nibble(c)
    decreases |s|
  {
    if s == "" {
      assert (s + [c])[1..] == "";
    } else {
      NumberAppend(acc * 16 + Nibble(s[0]), s[1..], c);
      assert (s + [c])[1..] == s[1..] + [c];
    }
  }

  lemma {:induction false} NumberOfNumeral(n: nat)
    ensures AllHex(Numeral(n)) && Number(Numeral(n)) == n
  {
    NibbleOfDigit(n % 16);
    if n < 16 {
      assert Numeral(n) == [Digit(n)] && [Digit(n)][1..] == "";
      assert NumberFrom(0, [Digit(n)]) == NumberFrom(Nibble(Digit(n)), "");
    } else {
      NumberOfNumeral(n / 16);
      NumberAppend(0, Numeral(n / 16), Digit(n % 16));
    }
  }
}
