/**
 The debugger's commands to read and write flash memory.

 The debugger addresses bytes, low byte of a word first; the flash stores the high byte first and is
 written a word at a time where a command covers whole words.
 */
module GdbMemory {
  import opened Bytes
  import opened FlashMemory
  import Hex
  import opened Wrappers

  // ----- the packet: "addr,len:payload" to write and "addr,len" to read -----

  /** Packets end in a null character. */
  function CharAt(pkt: string, i: nat): char {
    if i < |pkt| then pkt[i] else '\0'
  }

  /** A scanned number and the position after its end character; None stops the simulator. */
  type Scanned = Option<(nat, nat)>

  /** The number from position i up to stop, acc being the number scanned before it. */
  function Scan(pkt: string, i: nat, stop: char, acc: nat): Scanned
    decreases |pkt| - i
  {
    var c := CharAt(pkt, i);
    if c == stop then Some((acc, i + 1))
    else if !Hex.IsHex(c) then None
    else Scan(pkt, i + 1, stop, acc * 16 + Hex.Nibble(c))
  }

  method ScanNumber(pkt: string, start: nat, stop: char) returns (r: Scanned)
    ensures r == Scan(pkt, start, stop, 0)
  {
    var i: nat, num: nat := start, 0;
    while CharAt(pkt, i) != stop
      invariant Scan(pkt, i, stop, num) == Scan(pkt, start, stop, 0)
      decreases |pkt| - i
    {
      if !Hex.IsHex(CharAt(pkt, i)) {
        return None;
      }
      num := num * 16 + Hex.Nibble(CharAt(pkt, i));
      i := i + 1;
    }
    return Some((num, i + 1));
  }

  /** The address, the length, and where the payload begins. */
  datatype AddrLen = AddrLen(addr: nat, len: nat, next: nat)

  function ParseAddrLen(pkt: string, aEnd: char, lEnd: char): Option<AddrLen> {
    match Scan(pkt, 0, aEnd, 0)
    case None => None
    case Some((addr, i)) =>
      match Scan(pkt, i, lEnd, 0)
      case None => None
      case Some((len, j)) => Some(AddrLen(addr, len, j))
  }

  method GetAddrLen(pkt: string, aEnd: char, lEnd: char) returns (r: Option<AddrLen>)
    ensures r == ParseAddrLen(pkt, aEnd, lEnd)
  {
    var addr := ScanNumber(pkt, 0, aEnd);
    if addr.None? {
      return None;
    }
    var len := ScanNumber(pkt, addr.value.1, lEnd);
    if len.None? {
      return None;
    }
    return Some(AddrLen(addr.value.0, len.value.0, len.value.1));
  }

  lemma {:induction false} ScanDigits(pkt: string, i: nat, end: nat, stop: char, acc: nat)
    requires i <= end <= |pkt| && Hex.AllHex(pkt[i..end])
    requires CharAt(pkt, end) == stop && !Hex.IsHex(stop)
    ensures Scan(pkt, i, stop, acc) == Some((Hex.NumberFrom(acc, pkt[i..end]), end + 1))
    decreases end - i
  {
    if i < end {
      assert pkt[i] == pkt[i..end][0] && pkt[i..end][1..] == pkt[i + 1..end];
      ScanDigits(pkt, i + 1, end, stop, acc * 16 + Hex.Nibble(pkt[i]));
    }
  }

  /** A packet that begins with two numbers and their end characters parses to them. */
  lemma ParseParts(pkt: string, a: string, l: string, lEnd: char)
    requires Hex.AllHex(a) && Hex.AllHex(l) && !Hex.IsHex(lEnd)
    requires a + "," + l <= pkt && CharAt(pkt, |a| + 1 + |l|) == lEnd
    ensures ParseAddrLen(pkt, ',', lEnd) == Some(AddrLen(Hex.Number(a), Hex.Number(l), |a| + |l| + 2))
  {
    var i := |a| + 1;
    assert pkt[0..|a|] == a;
    assert pkt[|a|] == ',';
    assert pkt[i..i + |l|] == l;
    ScanDigits(pkt, 0, |a|, ',', 0);
    ScanDigits(pkt, i, i + |l|, lEnd, 0);
  }

  function Header(addr: nat, len: nat): string {
    Hex.Numeral(addr) + "," + Hex.Numeral(len)
  }

  /** A write packet built the way the debugger builds it parses to its own parts. */
  lemma ParseWritePacket(addr: nat, len: nat, payload: string)
    ensures ParseAddrLen(Header(addr, len) + ":" + payload, ',', ':') ==
            Some(AddrLen(addr, len, |Header(addr, len)| + 1))
  {
    Hex.NumberOfNumeral(addr);
    Hex.NumberOfNumeral(len);
    var h := Header(addr, len);
    var pkt := h + ":" + payload;
    assert h <= pkt && pkt[|h|] == ':';
    ParseParts(pkt, Hex.Numeral(addr), Hex.Numeral(len), ':');
  }

  /** So does a read packet. */
  lemma ParseReadPacket(addr: nat, len: nat)
    ensures ParseAddrLen(Header(addr, len), ',', '\0') == Some(AddrLen(addr, len, |Header(addr, len)| + 1))
  {
    Hex.NumberOfNumeral(addr);
    Hex.NumberOfNumeral(len);
    ParseParts(Header(addr, len), Hex.Numeral(addr), Hex.Numeral(len), '\0');
  }

  // ----- the byte view of flash -----

  /** Where the byte the debugger calls a is stored. */
  function Stored(a: nat): nat {
    if a % 2 == 0 then a + 1 else a - 1
  }

  /** The flash as the debugger sees it: byte 2k is the low and byte 2k + 1 the high byte of word k. */
  function View(d: seq<byte>): (v: seq<byte>)
    requires |d| % 2 == 0
    ensures |v| == |d|
  {
    seq(|d|, i requires 0 <= i < |d| => d[Stored(i)])
  }

  lemma ViewOfWords(d: seq<byte>, k: nat)
    requires |d| % 2 == 0 && 2 * k + 1 < |d|
    ensures View(d)[2 * k] == WordAt(d, k) % 256
    ensures View(d)[2 * k + 1] == WordAt(d, k) / 256
  {
  }

  /** v with bs in place of the bytes from addr on. */
  function Splice(v: seq<byte>, addr: nat, bs: seq<byte>): (v': seq<byte>)
    requires addr + |bs| <= |v|
    ensures |v'| == |v|
  {
    v[..addr] + bs + v[addr + |bs|..]
  }

  /** A command for no bytes at an odd address still covers one byte; reading so is undefined, as no room is left for it. */
  function Covered(addr: nat, len: nat): nat {
    if addr % 2 == 1 && len == 0 then 1 else len
  }

  lemma SetOneByte(d: seq<byte>, a: nat, b: byte)
    requires |d| % 2 == 0 && a < |d|
    ensures View(d[Stored(a) := b]) == View(d)[a := b]
  {
  }

  lemma SetTwoBytes(d: seq<byte>, k: nat, w: word)
    requires |d| % 2 == 0 && 2 * k + 1 < |d|
    ensures View(SetWord(d, k, w)) == View(d)[2 * k := w % 256][2 * k + 1 := w / 256]
  {
  }

  /** now is v with the first n of bs written from addr on. */
  ghost predicate Written(v: seq<byte>, now: seq<byte>, addr: nat, bs: seq<byte>, n: nat)
    requires n <= |bs| && addr + |bs| <= |v|
  {
    |now| == |v| && forall j :: 0 <= j < |v| ==> now[j] == if addr <= j < addr + n then bs[j - addr] else v[j]
  }

  lemma WrittenMore(v: seq<byte>, now: seq<byte>, addr: nat, bs: seq<byte>, n: nat)
    requires n < |bs| && addr + |bs| <= |v| && Written(v, now, addr, bs, n)
    ensures Written(v, now[addr + n := bs[n]], addr, bs, n + 1)
  {
  }

  lemma WrittenTwoMore(v: seq<byte>, now: seq<byte>, addr: nat, bs: seq<byte>, n: nat, a: nat)
    requires n + 1 < |bs| && addr + |bs| <= |v| && Written(v, now, addr, bs, n) && a == addr + n
    ensures Written(v, now[a := bs[n]][a + 1 := bs[n + 1]], addr, bs, n + 2)
  {
  }

  lemma WrittenAll(v: seq<byte>, now: seq<byte>, addr: nat, bs: seq<byte>)
    requires addr + |bs| <= |v| && Written(v, now, addr, bs, |bs|)
    ensures now == Splice(v, addr, bs)
  {
  }

  /** The bytes of the first n digit pairs of the payload. */
  function PayloadBytes(payload: string, n: nat): (bs: seq<byte>)
    requires Hex.AllHex(payload) && 2 * n <= |payload|
    ensures |bs| == n
  {
    Hex.Decode(payload[..2 * n])
  }

  lemma PayloadByte(payload: string, n: nat, i: nat)
    requires Hex.AllHex(payload) && i < n && 2 * n <= |payload|
    ensures PayloadBytes(payload, n)[i] == Hex.Pair(payload[2 * i], payload[2 * i + 1])
  {
    Hex.DecodeAt(payload[..2 * n], i);
  }

  // ----- single steps of the commands -----

  ghost predicate EvenFlash(flash: Flash) {
    flash.data.Length % 2 == 0
  }

  ghost function FlashView(flash: Flash): (v: seq<byte>)
    requires EvenFlash(flash)
    reads flash.data
    ensures |v| == flash.data.Length
  {
    View(flash.data[..])
  }

  /** Write the high byte of word k. */
  method WriteHigh(flash: Flash, k: nat, b: byte)
    requires EvenFlash(flash) && 2 * k + 1 < flash.data.Length
    modifies flash.data
    ensures FlashView(flash) == old(FlashView(flash))[2 * k + 1 := b]
  {
    SetOneByte(flash.data[..], 2 * k + 1, b);
    flash.WriteHi8(k, b);
  }

  /** Write the low byte of word k. */
  method WriteLow(flash: Flash, k: nat, b: byte)
    requires EvenFlash(flash) && 2 * k + 1 < flash.data.Length
    modifies flash.data
    ensures FlashView(flash) == old(FlashView(flash))[2 * k := b]
  {
    SetOneByte(flash.data[..], 2 * k, b);
    flash.WriteLo8(k, b);
  }

  method WriteBoth(flash: Flash, k: nat, low: byte, high: byte)
    requires EvenFlash(flash) && 2 * k + 1 < flash.data.Length
    modifies flash.data
    ensures FlashView(flash) == old(FlashView(flash))[2 * k := low][2 * k + 1 := high]
  {
    var w: word := low + (high as int) * 256;
    SetTwoBytes(flash.data[..], k, w);
    flash.Write(k, w);
  }

  /** The next byte of the payload. */
  method PayloadAt(payload: string, ghost n: nat, i: nat) returns (b: byte)
    requires Hex.AllHex(payload) && i < n && 2 * n <= |payload|
    ensures b == PayloadBytes(payload, n)[i]
  {
    PayloadByte(payload, n, i);
    b := Hex.Nibble(payload[2 * i]) * 16 + Hex.Nibble(payload[2 * i + 1]);
  }

  /** Digits 2i and 2i + 1 of buf are those of byte addr + i of v. */
  ghost predicate DigitsAt(buf: string, v: seq<byte>, addr: nat, i: nat)
    requires addr + i < |v|
  {
    2 * i + 1 < |buf| && buf[2 * i] == Hex.Digit(v[addr + i] / 16) && buf[2 * i + 1] == Hex.Digit(v[addr + i] % 16)
  }

  /** buf holds the digits of n bytes of v from addr on. */
  ghost predicate ReadSoFar(buf: string, v: seq<byte>, addr: nat, n: nat)
    requires addr + n <= |v|
  {
    |buf| == 2 * n && forall i: nat :: i < n ==> DigitsAt(buf, v, addr, i)
  }

  lemma ReadMore(buf: string, v: seq<byte>, addr: nat, n: nat, b: byte)
    requires addr + n < |v| && ReadSoFar(buf, v, addr, n) && b == v[addr + n]
    ensures ReadSoFar(buf + [Hex.Digit(b / 16), Hex.Digit(b % 16)], v, addr, n + 1)
  {
    var more := buf + [Hex.Digit(b / 16), Hex.Digit(b % 16)];
    forall i: nat | i < n + 1 ensures DigitsAt(more, v, addr, i) {
      if i < n {
        assert DigitsAt(buf, v, addr, i);
      }
    }
  }

  lemma {:induction false} ReadAll(buf: string, v: seq<byte>, addr: nat, n: nat)
    requires addr + n <= |v| && ReadSoFar(buf, v, addr, n)
    ensures buf == Hex.Encode(v[addr..addr + n])
    decreases n
  {
    if n > 0 {
      assert DigitsAt(buf, v, addr, 0);
      var rest, next := buf[2..], addr + 1;
      forall i: nat | i < n - 1 ensures DigitsAt(rest, v, next, i) {
        assert DigitsAt(buf, v, addr, i + 1);
      }
      ReadAll(rest, v, next, n - 1);
      assert v[addr..addr + n][1..] == v[next..addr + n];
      assert buf == [buf[0], buf[1]] + rest;
    }
  }

  /** Read the low byte of word k and append its digits. */
  method AppendLow(flash: Flash, k: nat, buf: string, ghost addr: nat, ghost n: nat) returns (more: string)
    requires EvenFlash(flash) && 2 * k + 1 < flash.data.Length && 2 * k == addr + n
    requires ReadSoFar(buf, FlashView(flash), addr, n)
    ensures ReadSoFar(more, FlashView(flash), addr, n + 1)
  {
    var w := flash.Read(k);
    var b: byte := w % 256;
    ViewOfWords(flash.data[..], k);
    ReadMore(buf, FlashView(flash), addr, n, b);
    more := buf + [Hex.Digit(b / 16), Hex.Digit(b % 16)];
  }

  /** Read the high byte of word k and append its digits. */
  method AppendHigh(flash: Flash, k: nat, buf: string, ghost addr: nat, ghost n: nat) returns (more: string)
    requires EvenFlash(flash) && 2 * k + 1 < flash.data.Length && 2 * k + 1 == addr + n
    requires ReadSoFar(buf, FlashView(flash), addr, n)
    ensures ReadSoFar(more, FlashView(flash), addr, n + 1)
  {
    var w := flash.Read(k);
    var b: byte := w / 256;
    ViewOfWords(flash.data[..], k);
    ReadMore(buf, FlashView(flash), addr, n, b);
    more := buf + [Hex.Digit(b / 16), Hex.Digit(b % 16)];
  }

  // ----- the commands -----

  /** Write the payload: an odd first byte, then whole words, then an odd last byte. */
  method WriteFlash(flash: Flash, addr: nat, len: nat, payload: string)
    requires EvenFlash(flash) && addr + Covered(addr, len) <= flash.data.Length
    requires Hex.AllHex(payload) && 2 * Covered(addr, len) <= |payload|
    modifies flash.data
    ensures FlashView(flash) == Splice(old(FlashView(flash)), addr, PayloadBytes(payload, Covered(addr, len)))
  {
    ghost var v, bs := FlashView(flash), PayloadBytes(payload, Covered(addr, len));
    var k, n: nat, rest: int := addr / 2, 0, len; // word to write next, bytes written so far, bytes left
    if addr % 2 == 1 {
      var b := PayloadAt(payload, |bs|, 0);
      WrittenMore(v, v, addr, bs, 0);
      WriteHigh(flash, k, b);
      k, n, rest := k + 1, 1, rest - 1;
    }
    while rest > 1
      invariant 2 * k == addr + n && n + rest == len && n <= |bs|
      invariant rest >= -1 && (rest < 0 ==> n == |bs|)
      invariant Written(v, FlashView(flash), addr, bs, n)
    {
      var low := PayloadAt(payload, |bs|, n);
      var high := PayloadAt(payload, |bs|, n + 1);
      WrittenTwoMore(v, FlashView(flash), addr, bs, n, 2 * k);
      WriteBoth(flash, k, low, high);
      k, n, rest := k + 1, n + 2, rest - 2;
    }
    if rest == 1 {
      var last := PayloadAt(payload, |bs|, n);
      WrittenMore(v, FlashView(flash), addr, bs, n);
      WriteLow(flash, k, last);
      n := n + 1;
    }
    WrittenAll(v, FlashView(flash), addr, bs);
  }

  /** Read the bytes as hex digits: an odd first byte, then whole words, then an odd last byte. */
  method ReadFlash(flash: Flash, addr: nat, len: nat) returns (buf: string)
    requires EvenFlash(flash) && addr + len <= flash.data.Length && Covered(addr, len) == len
    ensures buf == Hex.Encode(FlashView(flash)[addr..addr + len])
  {
    var k, rest: int := addr / 2, len; // word to read next, bytes left
    ghost var total, n: nat := len, 0;
    buf := "";
    if addr % 2 == 1 {
      buf := AppendHigh(flash, k, buf, addr, n);
      k, n, rest := k + 1, 1, rest - 1;
    }
    while rest > 1
      invariant 2 * k == addr + n && n + rest == len && n <= total
      invariant rest >= -1 && (rest < 0 ==> n == total) && (rest >= 0 ==> total == len)
      invariant ReadSoFar(buf, FlashView(flash), addr, n)
    {
      buf := AppendLow(flash, k, buf, addr, n);
      buf := AppendHigh(flash, k, buf, addr, n + 1);
      k, n, rest := k + 1, n + 2, rest - 2;
    }
    if rest == 1 {
      buf := AppendLow(flash, k, buf, addr, n);
      n := n + 1;
    }
    ReadAll(buf, FlashView(flash), addr, n);
  }

  // ----- what the debugger can rely on -----

  /** A write is a slice update: the bytes addressed become the payload, all others stay. */
  lemma WriteIsSliceUpdate(v: seq<byte>, addr: nat, len: nat, payload: string, a: nat)
    requires len >= 1 && addr + len <= |v| && a < |v|
    requires Hex.AllHex(payload) && |payload| == 2 * len
    ensures Splice(v, addr, PayloadBytes(payload, Covered(addr, len)))[a] ==
            if addr <= a < addr + len then Hex.Pair(payload[2 * (a - addr)], payload[2 * (a - addr) + 1]) else v[a]
  {
    if addr <= a < addr + len {
      Hex.DecodeAt(payload[..2 * len], a - addr);
    }
  }

  /** Reading back a range just written gives the digits of the payload, in lower case. */
  lemma ReadBack(v: seq<byte>, addr: nat, payload: string, n: nat)
    requires addr + n <= |v| && Hex.AllHex(payload) && 2 * n <= |payload|
    ensures Hex.Encode(Splice(v, addr, PayloadBytes(payload, n))[addr..addr + n]) == Hex.LowerAll(payload[..2 * n])
  {
    assert Splice(v, addr, PayloadBytes(payload, n))[addr..addr + n] == PayloadBytes(payload, n);
    Hex.EncodeDecode(payload[..2 * n]);
  }
}
