/**
 The register commands as the debugger gives them: packets in, registers read or written, a packet out.
 */
module GdbRegisterSession {
  import opened Memory
  import opened GdbPacket
  import opened GdbRegisters
  import GdbSession
  import Hex
  import opened Wrappers

  /** Two digits for each byte of the image. */
  const IMAGE_DIGITS := 2 * IMAGE_BYTES

  /**
   The machine a 'G' command leaves, its packet without the letter; None where the simulator stops.
   What follows the digits of the image is not looked at.
   */
  function LoadOutcome(dev: Device, m: Cpu, pkt: string): (r: Option<Cpu>)
    requires Wf(dev, m)
    ensures r.Some? ==> Wf(dev, r.value)
  {
    if |pkt| < IMAGE_DIGITS || !Hex.AllHex(pkt[..IMAGE_DIGITS]) then None
    else Some(Load(dev, m, Hex.Decode(pkt[..IMAGE_DIGITS])))
  }

  /** The machine, the reply packet, and what is left of the input. */
  datatype Answered = Answered(m: Cpu, sent: string, rest: string)

  predicate IsRegisterCommand(pkt: string) {
    pkt != "" && (pkt[0] == 'g' || pkt[0] == 'G')
  }

  /** Obey a received register command and reply. */
  function Obey(dev: Device, m: Cpu, pkt: string, rest: string): (r: Option<Answered>)
    requires Wf(dev, m) && IsRegisterCommand(pkt)
    ensures r.Some? ==> Wf(dev, r.value.m)
  {
    var m' := if pkt[0] == 'G' then LoadOutcome(dev, m, pkt[1..]) else Some(m);
    var reply := if pkt[0] == 'G' then "OK" else Hex.Encode(Image(dev, m));
    if m'.None? || Packet(reply).None? then None else Some(Answered(m'.value, Packet(reply).value, rest))
  }

  /** Read a packet from the input, which follows its "$", obey it and reply. Other commands are not modelled. */
  function Answer(dev: Device, m: Cpu, stream: string): (r: Option<Answered>)
    requires Wf(dev, m)
    ensures r.Some? ==> Wf(dev, r.value.m)
  {
    match Receive(stream)
    case None => None
    case Some((pkt, rest)) => if IsRegisterCommand(pkt) then Obey(dev, m, pkt, rest) else None
  }

  /** Read one packet, obey it, and send the reply; None where the simulator stops. */
  method Serve(dev: Device, m: Cpu, stream: string) returns (r: Option<Answered>)
    requires Wf(dev, m)
    ensures r == Answer(dev, m, stream)
  {
    var got := ReadPacket(stream);
    if got.None? || !IsRegisterCommand(got.value.0) {
      return None;
    }
    var (pkt, rest) := got.value;
    var m', reply := m, "OK";
    if pkt[0] == 'G' {
      var digits := pkt[1..];
      if |digits| < IMAGE_DIGITS || !Hex.AllHex(digits[..IMAGE_DIGITS]) {
        return None;
      }
      m' := WriteRegisters(dev, m, digits[..IMAGE_DIGITS]);
    } else {
      reply := ReadRegisters(dev, m);
    }
    var sent := SendReply(reply);
    r := if sent.Some? then Some(Answered(m', sent.value, rest)) else None;
  }

  // ----- what the debugger can rely on -----

  lemma ImageDigits(dev: Device, m: Cpu) returns (digits: string)
    requires Wf(dev, m)
    ensures digits == Hex.Encode(Image(dev, m)) && |digits| == IMAGE_DIGITS && Hex.AllHex(digits)
    ensures '#' !in digits && '\0' !in digits && Hex.Decode(digits) == Image(dev, m)
  {
    var image := Image(dev, m);
    digits := Hex.Encode(image);
    Hex.EncodeIsHex(image);
    Hex.DecodeEncode(image);
    GdbSession.DigitsAreText(digits);
  }

  lemma AnswersReceived(dev: Device, m: Cpu, stream: string, pkt: string, rest: string)
    requires Wf(dev, m) && Receive(stream) == Some((pkt, rest)) && IsRegisterCommand(pkt)
    ensures Answer(dev, m, stream) == Obey(dev, m, pkt, rest)
  {
  }

  /** A read command is always answered, and what is sent is received as the digits of the image. */
  lemma ReadAnswered(dev: Device, m: Cpu, more: string, later: string)
    requires Wf(dev, m)
    ensures var r := Answer(dev, m, OnWire("g", more));
            && r.Some? && r.value.m == m && r.value.rest == more
            && Receive(r.value.sent[1..] + later) == Some((Hex.Encode(Image(dev, m)), later))
  {
    var digits := ImageDigits(dev, m);
    ReceivedIff("g", more);
    AnswersReceived(dev, m, OnWire("g", more), "g", more);
    RoundTrip(digits, later);
  }

  /**
   A write command is answered exactly if it begins with as many digits as an image has; the machine is
   then loaded with their bytes.
   */
  lemma WriteAnsweredIff(dev: Device, m: Cpu, payload: string, more: string)
    requires Wf(dev, m) && '#' !in payload && |payload| < MAX_BUF
    ensures var r := Answer(dev, m, OnWire("G" + payload, more));
            && (r.Some? <==> |payload| >= IMAGE_DIGITS && Hex.AllHex(payload[..IMAGE_DIGITS]))
            && (r.Some? ==> r.value.m == Load(dev, m, Hex.Decode(payload[..IMAGE_DIGITS])) && r.value.rest == more && r.value.sent == "$OK#9a")
  {
    var pkt := "G" + payload;
    assert pkt[1..] == payload;
    ReceivedIff(pkt, more);
    AnswersReceived(dev, m, OnWire(pkt, more), pkt, more);
    ShortPackets("");
  }

  /**
   Reading one machine's registers and writing what was received to another, each through the packet
   layer, makes registers, status and program counter equal, and of the stack pointer what the device
   maps, and changes nothing else.
   */
  lemma RegistersRoundTrip(dev: Device, m: Cpu, other: Cpu, more: string)
    requires Wf(dev, m) && Wf(dev, other) && SpMapped(dev) && 0 <= m.pc < dev.pcMax <= 0x8000_0000
    ensures var read := Answer(dev, m, OnWire("g", more));
            && read.Some? && Receive(read.value.sent[1..]).Some?
            && var digits := Receive(read.value.sent[1..]).value.0;
            var written := Answer(dev, other, OnWire("G" + digits, more));
            && written.Some?
            && written.value.m == other.(regs := m.regs, sreg := m.sreg, sp := SpOver(dev, m.sp, other.sp), pc := m.pc)
  {
    ReadAnswered(dev, m, more, "");
    var sent := Answer(dev, m, OnWire("g", more)).value.sent;
    assert sent[1..] + "" == sent[1..];
    ImageWritten(dev, m, other, Hex.Encode(Image(dev, m)), more);
  }

  lemma ImageWritten(dev: Device, m: Cpu, other: Cpu, digits: string, more: string)
    requires Wf(dev, m) && Wf(dev, other) && SpMapped(dev) && 0 <= m.pc < dev.pcMax <= 0x8000_0000
    requires digits == Hex.Encode(Image(dev, m))
    ensures var written := Answer(dev, other, OnWire("G" + digits, more));
            && written.Some?
            && written.value.m == other.(regs := m.regs, sreg := m.sreg, sp := SpOver(dev, m.sp, other.sp), pc := m.pc)
  {
    var same := ImageDigits(dev, m);
    WriteAnsweredIff(dev, other, digits, more);
    assert digits[..IMAGE_DIGITS] == digits;
    ImageRoundTrip(dev, m, other);
  }
}
