/**
 The memory commands as the debugger gives them: packets in, flash read or written, a packet out.
 */
module GdbSession {
  import opened Bytes
  import opened FlashMemory
  import opened GdbMemory
  import opened GdbPacket
  import Hex
  import opened Wrappers

  /** Addresses from here on are not flash; their commands are not part of this model. */
  const SRAM_OFFSET := 0x80_0000

  /** The flash a write command leaves, its packet without the letter; None where the simulator stops. */
  function WriteOutcome(v: seq<byte>, pkt: string): (r: Option<seq<byte>>)
    ensures r.Some? ==> |r.value| == |v|
  {
    match ParseAddrLen(pkt, ',', ':')
    case None => None
    case Some(p) =>
      var n := Covered(p.addr, p.len);
      if p.next + 2 * n > |pkt| || !Hex.AllHex(pkt[p.next..p.next + 2 * n]) || p.addr + n > |v| then None
      else Some(Splice(v, p.addr, PayloadBytes(pkt[p.next..p.next + 2 * n], n)))
  }

  /** The reply to a read command, its packet without the letter. Reading no bytes at an odd address is undefined. */
  function ReadOutcome(v: seq<byte>, pkt: string): Option<string> {
    match ParseAddrLen(pkt, ',', '\0')
    case None => None
    case Some(p) =>
      if Covered(p.addr, p.len) != p.len || p.addr + p.len > |v| then None
      else Some(Hex.Encode(v[p.addr..p.addr + p.len]))
  }

  /** The view of flash, the reply packet, and what is left of the input. */
  datatype Answered = Answered(v: seq<byte>, sent: string, rest: string)

  predicate IsMemoryCommand(pkt: string) {
    pkt != "" && (pkt[0] == 'm' || pkt[0] == 'M')
  }

  /** Obey a received memory command and reply. */
  function Obey(v: seq<byte>, pkt: string, rest: string): (r: Option<Answered>)
    requires IsMemoryCommand(pkt)
    ensures r.Some? ==> |r.value.v| == |v|
  {
    var v' := if pkt[0] == 'M' then WriteOutcome(v, pkt[1..]) else Some(v);
    var reply := if pkt[0] == 'M' then Some("OK") else ReadOutcome(v, pkt[1..]);
    if v'.None? || reply.None? || Packet(reply.value).None? then None
    else Some(Answered(v'.value, Packet(reply.value).value, rest))
  }

  /** Read a packet from the input, which follows its "$", obey it and reply. Other commands are not modelled. */
  function Answer(v: seq<byte>, stream: string): (r: Option<Answered>)
    ensures r.Some? ==> |r.value.v| == |v|
  {
    match Receive(stream)
    case None => None
    case Some((pkt, rest)) => if IsMemoryCommand(pkt) then Obey(v, pkt, rest) else None
  }

  // ----- the simulator's own form -----

  method WriteMemory(flash: Flash, pkt: string) returns (ok: bool)
    requires EvenFlash(flash) && flash.data.Length <= SRAM_OFFSET
    modifies flash.data
    ensures ok == WriteOutcome(old(FlashView(flash)), pkt).Some?
    ensures ok ==> FlashView(flash) == WriteOutcome(old(FlashView(flash)), pkt).value
  {
    var p := GetAddrLen(pkt, ',', ':');
    if p.None? {
      return false;
    }
    var AddrLen(addr, len, next) := p.value;
    var n := Covered(addr, len);
    if next + 2 * n > |pkt| || !Hex.AllHex(pkt[next..next + 2 * n]) || addr + n > flash.data.Length {
      return false;
    }
    WriteFlash(flash, addr, len, pkt[next..next + 2 * n]);
    ok := true;
  }

  method ReadMemory(flash: Flash, pkt: string) returns (reply: Option<string>)
    requires EvenFlash(flash) && flash.data.Length <= SRAM_OFFSET
    ensures reply == ReadOutcome(FlashView(flash), pkt)
  {
    var p := GetAddrLen(pkt, ',', '\0');
    if p.None? {
      return None;
    }
    var AddrLen(addr, len, next) := p.value;
    if Covered(addr, len) != len || addr + len > flash.data.Length {
      return None;
    }
    var buf := ReadFlash(flash, addr, len);
    reply := Some(buf);
  }

  /** Read one packet, obey it, and send the reply; None where the simulator stops. */
  method Serve(flash: Flash, stream: string) returns (r: Option<(string, string)>)
    requires EvenFlash(flash) && flash.data.Length <= SRAM_OFFSET
    modifies flash.data
    ensures r.Some? == Answer(old(FlashView(flash)), stream).Some?
    ensures r.Some? ==> Answered(FlashView(flash), r.value.0, r.value.1) == Answer(old(FlashView(flash)), stream).value
  {
    var got := ReadPacket(stream);
    if got.None? || !IsMemoryCommand(got.value.0) {
      return None;
    }
    var (pkt, rest) := got.value;
    var reply := Some("OK");
    if pkt[0] == 'M' {
      var ok := WriteMemory(flash, pkt[1..]);
      if !ok {
        return None;
      }
    } else {
      reply := ReadMemory(flash, pkt[1..]);
      if reply.None? {
        return None;
      }
    }
    var sent := SendReply(reply.value);
    r := if sent.Some? then Some((sent.value, rest)) else None;
  }

  // ----- what the debugger can rely on -----

  function WritePacket(addr: nat, len: nat, payload: string): string {
    "M" + (Header(addr, len) + ":" + payload)
  }

  function ReadPacketFor(addr: nat, len: nat): string {
    "m" + Header(addr, len)
  }

  lemma DigitsAreText(s: string)
    requires Hex.AllHex(s)
    ensures '#' !in s && '\0' !in s && ',' !in s && ':' !in s
  {
  }

  lemma HeaderIsText(addr: nat, len: nat)
    ensures '#' !in Header(addr, len) && '\0' !in Header(addr, len)
  {
    Hex.NumberOfNumeral(addr);
    Hex.NumberOfNumeral(len);
    DigitsAreText(Hex.Numeral(addr));
    DigitsAreText(Hex.Numeral(len));
  }

  /** The reply to a read of n bytes is sent exactly if n is at most 197. */
  lemma ReadReplySentIff(bs: seq<byte>)
    ensures Packet(Hex.Encode(bs)).Some? <==> |bs| <= 197
  {
    var reply := Hex.Encode(bs);
    Hex.EncodeIsHex(bs);
    DigitsAreText(reply);
    SentIff(reply);
  }

  /** An address and a length in flash take few digits. */
  lemma HeaderLength(addr: nat, len: nat)
    requires addr <= SRAM_OFFSET && len <= SRAM_OFFSET
    ensures 3 <= |Header(addr, len)| <= 13
  {
    assert Hex.Pow16(3) == 0x1000 && Hex.Pow16(6) == 0x100_0000;
    Hex.NumeralLength(addr, 6);
    Hex.NumeralLength(len, 6);
  }

  lemma ReadsParsed(v: seq<byte>, pkt: string, p: AddrLen)
    requires ParseAddrLen(pkt, ',', '\0') == Some(p) && p.len >= 1 && p.addr + p.len <= |v|
    ensures ReadOutcome(v, pkt) == Some(Hex.Encode(v[p.addr..p.addr + p.len]))
  {
  }

  lemma WritesParsed(v: seq<byte>, pkt: string, p: AddrLen, payload: string)
    requires ParseAddrLen(pkt, ',', ':') == Some(p) && p.len >= 1 && p.addr + p.len <= |v|
    requires Hex.AllHex(payload) && |payload| == 2 * p.len && p.next + |payload| == |pkt| && pkt[p.next..] == payload
    ensures WriteOutcome(v, pkt) == Some(Splice(v, p.addr, Hex.Decode(payload)))
  {
    assert pkt[p.next..p.next + 2 * p.len] == payload;
    assert payload[..2 * p.len] == payload;
  }

  /**
   A read command for bytes in flash is answered, with the digits of those bytes, exactly if it is for
   at most 197 of them; for more the simulator stops.
   */
  lemma ReadAnsweredIff(v: seq<byte>, addr: nat, len: nat, more: string)
    requires len >= 1 && addr + len <= |v| <= SRAM_OFFSET
    ensures var r := Answer(v, OnWire(ReadPacketFor(addr, len), more));
            && (r.Some? <==> len <= 197)
            && (r.Some? ==> r.value == Answered(v, Packet(Hex.Encode(v[addr..addr + len])).value, more))
  {
    var pkt, reply := ReadPacketFor(addr, len), Hex.Encode(v[addr..addr + len]);
    ReadReceived(addr, len, more);
    ReadReplySentIff(v[addr..addr + len]);
    ParseReadPacket(addr, len);
    ReadsParsed(v, Header(addr, len), AddrLen(addr, len, |Header(addr, len)| + 1));
    AnswersReceived(v, OnWire(pkt, more), pkt, more);
    ObeysRead(v, pkt, more, reply);
  }

  lemma ReadReceived(addr: nat, len: nat, more: string)
    requires addr <= SRAM_OFFSET && len <= SRAM_OFFSET
    ensures var pkt := ReadPacketFor(addr, len);
            Receive(OnWire(pkt, more)) == Some((pkt, more)) && IsMemoryCommand(pkt) && pkt[0] == 'm' && pkt[1..] == Header(addr, len)
  {
    HeaderIsText(addr, len);
    HeaderLength(addr, len);
    ReceivedIff(ReadPacketFor(addr, len), more);
  }

  lemma AnswersReceived(v: seq<byte>, stream: string, pkt: string, rest: string)
    requires Receive(stream) == Some((pkt, rest)) && IsMemoryCommand(pkt)
    ensures Answer(v, stream) == Obey(v, pkt, rest)
  {
  }

  lemma ObeysRead(v: seq<byte>, pkt: string, rest: string, reply: string)
    requires IsMemoryCommand(pkt) && pkt[0] == 'm' && ReadOutcome(v, pkt[1..]) == Some(reply)
    ensures Obey(v, pkt, rest) == if Packet(reply).Some? then Some(Answered(v, Packet(reply).value, rest)) else None
  {
  }

  lemma ObeysWrite(v: seq<byte>, pkt: string, rest: string)
    requires IsMemoryCommand(pkt) && pkt[0] == 'M'
    ensures var r, out := Obey(v, pkt, rest), WriteOutcome(v, pkt[1..]);
            && (r.Some? <==> out.Some?)
            && (r.Some? ==> r.value.v == out.value && r.value.rest == rest && r.value.sent == "$OK#9a")
  {
    ShortPackets("");
  }

  /** 198 bytes are one too many. */
  lemma OneTooMany(v: seq<byte>, addr: nat, more: string)
    requires addr + 198 <= |v| <= SRAM_OFFSET
    ensures Answer(v, OnWire(ReadPacketFor(addr, 198), more)).None?
  {
    ReadAnsweredIff(v, addr, 198, more);
  }

  // ----- write commands -----

  lemma {:induction false} ScanRunsOut(pkt: string, i: nat, stop: char, acc: nat)
    requires i <= |pkt| && Hex.AllHex(pkt[i..]) && stop != '\0' && !Hex.IsHex(stop)
    ensures Scan(pkt, i, stop, acc) == None
    decreases |pkt| - i
  {
    if i < |pkt| {
      assert pkt[i] == pkt[i..][0] && pkt[i..][1..] == pkt[i + 1..];
      ScanRunsOut(pkt, i + 1, stop, acc * 16 + Hex.Nibble(pkt[i]));
    }
  }

  /** A header cut short does not parse as that of a write command. */
  lemma CutHeaderStops(a: string, l: string, n: nat)
    requires Hex.AllHex(a) && Hex.AllHex(l) && n <= |a| + 1 + |l|
    ensures ParseAddrLen((a + "," + l)[..n], ',', ':') == None
  {
    var pkt := (a + "," + l)[..n];
    if n <= |a| {
      assert pkt[0..] == a[..n];
      ScanRunsOut(pkt, 0, ',', 0);
    } else {
      var i := |a| + 1;
      assert pkt[0..|a|] == a && pkt[|a|] == ',';
      ScanDigits(pkt, 0, |a|, ',', 0);
      assert pkt[i..] == l[..n - i];
      ScanRunsOut(pkt, i, ':', 0);
    }
  }

  /** A write command cut anywhere stops the simulator. */
  lemma CutWriteStops(v: seq<byte>, addr: nat, len: nat, payload: string, n: nat)
    requires len >= 1 && |payload| == 2 * len && n < |Header(addr, len)| + 1 + |payload|
    ensures WriteOutcome(v, (Header(addr, len) + ":" + payload)[..n]) == None
  {
    var h := Header(addr, len);
    var pkt := (h + ":" + payload)[..n];
    if n <= |h| {
      Hex.NumberOfNumeral(addr);
      Hex.NumberOfNumeral(len);
      assert pkt == h[..n];
      CutHeaderStops(Hex.Numeral(addr), Hex.Numeral(len), n);
    } else {
      var rest := payload[..n - |h| - 1];
      assert pkt == h + ":" + rest;
      ParseWritePacket(addr, len, rest);
    }
  }

  lemma WholeWrite(v: seq<byte>, addr: nat, len: nat, payload: string)
    requires len >= 1 && addr + len <= |v| && Hex.AllHex(payload) && |payload| == 2 * len
    ensures WriteOutcome(v, Header(addr, len) + ":" + payload) == Some(Splice(v, addr, Hex.Decode(payload)))
  {
    var h := Header(addr, len);
    var pkt := h + ":" + payload;
    ParseWritePacket(addr, len, payload);
    WritesParsed(v, pkt, AddrLen(addr, len, |h| + 1), payload);
  }

  /**
   A write command for bytes in flash is obeyed, the bytes addressed becoming the payload and all others
   staying, exactly if its packet has at most 400 characters; else the simulator stops.
   */
  lemma WriteAnsweredIff(v: seq<byte>, addr: nat, len: nat, payload: string, more: string)
    requires len >= 1 && addr + len <= |v| <= SRAM_OFFSET && Hex.AllHex(payload) && |payload| == 2 * len
    ensures var r := Answer(v, OnWire(WritePacket(addr, len, payload), more));
            && (r.Some? <==> |WritePacket(addr, len, payload)| <= MAX_BUF)
            && (r.Some? ==> r.value.v == Splice(v, addr, Hex.Decode(payload)) && r.value.rest == more && r.value.sent == "$OK#9a")
  {
    var pkt, stream := WritePacket(addr, len, payload), OnWire(WritePacket(addr, len, payload), more);
    HeaderIsText(addr, len);
    DigitsAreText(payload);
    assert pkt[1..] == Header(addr, len) + ":" + payload;
    if |pkt| <= MAX_BUF {
      ReceivedIff(pkt, more);
      WholeWrite(v, addr, len, payload);
      AnswersReceived(v, stream, pkt, more);
      ObeysWrite(v, pkt, more);
    } else if Receive(stream).Some? {
      var cut, rest := pkt[..MAX_BUF], Receive(stream).value.1;
      WireParts(pkt, more);
      FilledBuffer(stream, pkt);
      assert cut[1..] == (Header(addr, len) + ":" + payload)[..MAX_BUF - 1];
      CutWriteStops(v, addr, len, payload, MAX_BUF - 1);
      AnswersReceived(v, stream, cut, rest);
      ObeysWrite(v, cut, rest);
    }
  }

  /** What is received of a longer payload is the part that fits. */
  lemma FilledBuffer(stream: string, payload: string)
    requires '#' !in payload && |payload| > MAX_BUF && payload <= stream && Receive(stream).Some?
    ensures Receive(stream).value.0 == payload[..MAX_BUF]
  {
    assert forall j :: 0 <= j < MAX_BUF ==> stream[j] == payload[j];
    EndReaches(stream, 0, MAX_BUF);
  }

  /**
   A write command and then a read command for the same range return the digits written, in lower case,
   exactly if the write packet has at most 400 characters. The reply to the read then always fits.
   */
  lemma WriteThenReadIff(v: seq<byte>, addr: nat, len: nat, payload: string, more: string)
    requires len >= 1 && addr + len <= |v| <= SRAM_OFFSET && Hex.AllHex(payload) && |payload| == 2 * len
    ensures var written := Answer(v, OnWire(WritePacket(addr, len, payload), more));
            && (written.Some? <==> |WritePacket(addr, len, payload)| <= MAX_BUF)
            && (written.Some? ==>
                  var read := Answer(written.value.v, OnWire(ReadPacketFor(addr, len), more));
                  read.Some? && Packet(Hex.LowerAll(payload)).Some?
                  && read.value == Answered(written.value.v, Packet(Hex.LowerAll(payload)).value, more))
  {
    WriteAnsweredIff(v, addr, len, payload, more);
    if |WritePacket(addr, len, payload)| <= MAX_BUF {
      HeaderLength(addr, len);
      ReadsWritten(v, Splice(v, addr, Hex.Decode(payload)), addr, len, payload, more);
    }
  }

  lemma ReadsDigits(v: seq<byte>, addr: nat, len: nat, digits: string, more: string)
    requires 1 <= len <= 197 && addr + len <= |v| <= SRAM_OFFSET && Hex.Encode(v[addr..addr + len]) == digits
    ensures Packet(digits).Some?
    ensures Answer(v, OnWire(ReadPacketFor(addr, len), more)) == Some(Answered(v, Packet(digits).value, more))
  {
    ReadAnsweredIff(v, addr, len, more);
    ReadReplySentIff(v[addr..addr + len]);
  }

  lemma ReadsWritten(v: seq<byte>, v': seq<byte>, addr: nat, len: nat, payload: string, more: string)
    requires 1 <= len <= 197 && addr + len <= |v| <= SRAM_OFFSET && Hex.AllHex(payload) && |payload| == 2 * len
    requires v' == Splice(v, addr, Hex.Decode(payload))
    ensures Packet(Hex.LowerAll(payload)).Some?
    ensures Answer(v', OnWire(ReadPacketFor(addr, len), more)) == Some(Answered(v', Packet(Hex.LowerAll(payload)).value, more))
  {
    ReadBack(v, addr, payload, len);
    assert payload[..2 * len] == payload;
    ReadsDigits(v', addr, len, Hex.LowerAll(payload), more);
  }

  // ----- two commands on the wire -----

  lemma NumeralsAre()
    ensures Header(4, 2) == "4,2" && Header(0x1a, 1) == "1a,1"
  {
    assert Hex.Numeral(4) == "4" && Hex.Numeral(2) == "2" && Hex.Numeral(1) == "1";
    assert Hex.Numeral(0x1a) == Hex.Numeral(1) + [Hex.Digit(10)];
    assert Hex.Numeral(0x1a) == "1a";
    assert "4" + "," + "2" == "4,2" && "1a" + "," + "1" == "1a,1";
  }

  /** The bytes 4 and 5 of the view, asked for. */
  lemma ReadsTwo(v: seq<byte>, more: string)
    requires 6 <= |v| <= SRAM_OFFSET
    ensures var r := Answer(v, "m4,2#ff" + more);
            r.Some? && r.value.v == v && r.value.rest == more
            && Receive(r.value.sent[1..] + "") == Some((Hex.Encode([v[4], v[5]]), ""))
  {
    NumeralsAre();
    assert ReadPacketFor(4, 2) == "m4,2";
    assert Sum("m4,2", 0) == 0xff;
    SumIs("m4,2");
    assert ChecksumDigits(0xff) == "ff";
    assert OnWire("m4,2", more) == "m4,2#ff" + more;
    ReadAnsweredIff(v, 4, 2, more);
    assert v[4..6] == [v[4], v[5]];
    Hex.EncodeIsHex([v[4], v[5]]);
    DigitsAreText(Hex.Encode([v[4], v[5]]));
    RoundTrip(Hex.Encode([v[4], v[5]]), "");
  }

  /** The byte 0x1a of the view, set. */
  lemma WritesOne(v: seq<byte>, more: string)
    requires 0x1b <= |v| <= SRAM_OFFSET
    ensures Answer(v, "M1a,1:fE#21" + more) == Some(Answered(v[0x1a := 0xfe], "$OK#9a", more))
  {
    NumeralsAre();
    var pkt := "M1a,1:fE";
    assert WritePacket(0x1a, 1, "fE") == pkt;
    assert Sum(pkt, 0) == 0x221;
    SumIs(pkt);
    assert ChecksumDigits(0x221) == "21";
    assert OnWire(pkt, more) == "M1a,1:fE#21" + more;
    WriteAnsweredIff(v, 0x1a, 1, "fE", more);
    assert Hex.Decode("fE") == [Hex.Pair('f', 'E')] + Hex.Decode("fE"[2..]);
    assert Hex.Decode("fE") == [0xfe];
    assert Splice(v, 0x1a, [0xfe]) == v[0x1a := 0xfe];
  }
}
