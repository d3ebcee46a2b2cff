/**
 Packets of the GDB remote serial protocol: "$", the payload, "#" and a two-digit checksum.
 */
module GdbPacket {
  import Hex
  import opened Wrappers

  const MAX_BUF := 400

  /** The sum of the characters; only its low byte is sent and compared. */
  function Checksum(s: string): nat {
    if s == "" then 0 else Checksum(s[..|s| - 1]) + s[|s| - 1] as nat
  }

  function ChecksumDigits(sum: nat): (s: string)
    ensures |s| == 2
  {
    [Hex.Digit(sum / 16 % 16), Hex.Digit(sum % 16)]
  }

  /** The first NUL at or after e, or the end: where a C string ends. */
  function TextEnd(s: string, e: nat): (n: nat)
    requires e <= |s|
    ensures e <= n <= |s|
    ensures forall j :: e <= j < n ==> s[j] != '\0'
    ensures n < |s| ==> s[n] == '\0'
    decreases |s| - e
  {
    if e < |s| && s[e] != '\0' then TextEnd(s, e + 1) else e
  }

  function CString(s: string): string {
    s[..TextEnd(s, 0)]
  }

  /** What is sent for a reply. A reply that would not leave room for "#cc" in the buffer stops the simulator. */
  function Packet(reply: string): (sent: Option<string>)
    ensures sent.Some? ==> |sent.value| >= 4
  {
    var s := CString(reply);
    if s == "" then Some("$#00")
    else if |s| + 1 >= MAX_BUF - 3 then None
    else Some("$" + s + "#" + ChecksumDigits(Checksum(s)))
  }

  method SendReply(reply: string) returns (sent: Option<string>)
    ensures sent == Packet(reply)
  {
    if reply == "" || reply[0] == '\0' {
      return Some("$#00");
    }
    var buf, sum, i := "$", 0, 0;
    while i < |reply| && reply[i] != '\0'
      invariant 0 <= i <= |reply| && i <= MAX_BUF - 5 && TextEnd(reply, i) == TextEnd(reply, 0)
      invariant buf == "$" + reply[..i] && sum == Checksum(reply[..i])
    {
      assert reply[..i + 1][..i] == reply[..i];
      sum := sum + reply[i] as nat;
      buf := buf + [reply[i]];
      i := i + 1;
      if |buf| == MAX_BUF - 3 {
        return None;
      }
    }
    return Some(buf + "#" + [Hex.Digit(sum / 16 % 16), Hex.Digit(sum % 16)]);
  }

  // ----- reading -----

  /** Where the payload ends: at the first "#", or where the buffer is full. */
  function End(stream: string, e: nat): nat
    decreases |stream| - e
  {
    if e < |stream| && e < MAX_BUF && stream[e] != '#' then End(stream, e + 1) else e
  }

  /** A payload and the characters after its packet; None stops the simulator or waits for more input. */
  type Received = Option<(string, string)>

  /** Reading a packet whose "$" has been read. */
  function Receive(stream: string): Received {
    var e := End(stream, 0);
    if e + 2 >= |stream| || !Hex.IsHex(stream[e + 1]) || !Hex.IsHex(stream[e + 2]) then None
    else if Checksum(stream[..e]) % 256 != Hex.Pair(stream[e + 1], stream[e + 2]) then None
    else Some((stream[..e], stream[e + 3..]))
  }

  method ReadPacket(stream: string) returns (r: Received)
    ensures r == Receive(stream)
  {
    var i, sum, buf := 0, 0, "";
    while i < |stream| && stream[i] != '#' && i < MAX_BUF
      invariant 0 <= i <= |stream| && i <= MAX_BUF && End(stream, i) == End(stream, 0)
      invariant buf == stream[..i] && sum == Checksum(stream[..i])
    {
      assert stream[..i + 1][..i] == stream[..i];
      buf := buf + [stream[i]];
      sum := sum + stream[i] as nat;
      i := i + 1;
    }
    if i + 2 >= |stream| || !Hex.IsHex(stream[i + 1]) || !Hex.IsHex(stream[i + 2]) {
      return None;
    }
    var sent := Hex.Nibble(stream[i + 1]) * 16 + Hex.Nibble(stream[i + 2]);
    if sum % 256 != sent {
      return None;
    }
    return Some((buf, stream[i + 3..]));
  }

  // ----- what the checksum is -----

  lemma {:induction false} ChecksumAdds(a: string, b: string)
    ensures Checksum(a + b) == Checksum(a) + Checksum(b)
    decreases |b|
  {
    if b == "" {
      assert a + b == a;
    } else {
      var n := |b| - 1;
      assert (a + b)[..|a + b| - 1] == a + b[..n];
      ChecksumAdds(a, b[..n]);
    }
  }

  lemma ChecksumOfOne(c: char)
    ensures Checksum([c]) == c as nat && Checksum("") == 0
  {
    assert [c][..0] == "";
  }

  /** The characters from k on added up. */
  function Sum(s: string, k: nat): nat
    requires k <= |s|
    decreases |s| - k
  {
    if k == |s| then 0 else s[k] as nat + Sum(s, k + 1)
  }

  lemma {:induction false} ChecksumIsSum(s: string, k: nat)
    requires k <= |s|
    ensures Checksum(s) == Checksum(s[..k]) + Sum(s, k)
    decreases |s| - k
  {
    if k == |s| {
      assert s[..k] == s;
    } else {
      ChecksumIsSum(s, k + 1);
      assert s[..k + 1] == s[..k] + [s[k]];
      ChecksumAdds(s[..k], [s[k]]);
      ChecksumOfOne(s[k]);
    }
  }

  lemma SumIs(s: string)
    ensures Checksum(s) == Sum(s, 0)
  {
    ChecksumIsSum(s, 0);
    assert s[..0] == "";
  }

  lemma PacketParts(payload: string, high: char, low: char, more: string)
    ensures var w, n := payload + "#" + [high, low] + more, |payload|;
            && |w| == n + 3 + |more| && w[..n] == payload && w[n] == '#'
            && w[n + 1] == high && w[n + 2] == low && w[n + 3..] == more
  {
  }

  predicate CarriesSum(high: char, low: char, sum: nat) {
    Hex.IsHex(high) && Hex.IsHex(low) && 16 * Hex.Nibble(high) + Hex.Nibble(low) == sum % 256
  }

  lemma ReceivesIff(stream: string, n: nat)
    requires End(stream, 0) == n && n + 2 < |stream|
    ensures Receive(stream) ==
            if CarriesSum(stream[n + 1], stream[n + 2], Checksum(stream[..n])) then Some((stream[..n], stream[n + 3..])) else None
  {
  }

  /**
   A payload of up to 400 characters with two characters after its "#" is accepted exactly if these
   are the digits of the sum of its characters modulo 256.
   */
  lemma AcceptedIff(payload: string, high: char, low: char, more: string)
    requires '#' !in payload && |payload| <= 400
    ensures Receive(payload + "#" + [high, low] + more) ==
            if CarriesSum(high, low, Sum(payload, 0)) then Some((payload, more)) else None
  {
    var w, n := payload + "#" + [high, low] + more, |payload|;
    PacketParts(payload, high, low, more);
    assert forall j :: 0 <= j < n ==> w[j] == w[..n][j];
    EndReaches(w, 0, n);
    ReceivesIff(w, n);
    SumIs(payload);
  }

  lemma SentText(reply: string, sum: nat)
    requires '\0' !in reply && 0 < |reply| <= 395 && sum == Checksum(reply)
    ensures Packet(reply) == Some("$" + reply + "#" + ChecksumDigits(sum))
  {
    assert CString(reply) == reply;
  }

  lemma SentEmpty()
    ensures Packet("") == Some("$" + "" + "#" + ChecksumDigits(0))
  {
    assert CString("") == "" && ChecksumDigits(0) == "00";
    assert "$" + "" + "#" + "00" == "$#00";
  }

  /** What is sent ends with the digits of the sum. */
  lemma SentCarriesSum(reply: string, sum: nat)
    requires '\0' !in reply && |reply| <= 395 && sum == Sum(reply, 0)
    ensures Packet(reply) == Some("$" + reply + "#" + ChecksumDigits(sum))
  {
    SumIs(reply);
    if reply == "" {
      SentEmpty();
    } else {
      SentText(reply, sum);
    }
  }

  /** The answer to a command that was obeyed, and the command that asks for the registers. */
  lemma ShortPackets(more: string)
    ensures Packet("OK") == Some("$OK#9a")
    ensures Receive("g#67" + more) == Some(("g", more))
    ensures Receive("g#68" + more) == None
  {
    assert Sum("OK", 0) == 0x9a && Sum("g", 0) == 0x67;
    SentCarriesSum("OK", 0x9a);
    assert ChecksumDigits(0x9a) == "9a";
    assert "$" + "OK" + "#" + "9a" == "$OK#9a";
    AcceptedIff("g", '6', '7', more);
    AcceptedIff("g", '6', '8', more);
    assert "g" + "#" + "67" == "g#67" && "g" + "#" + "68" == "g#68";
    assert Hex.Nibble('6') == 6 && Hex.Nibble('7') == 7 && Hex.Nibble('8') == 8;
  }

  // ----- the round trip -----

  lemma ChecksumPair(sum: nat)
    ensures var d := ChecksumDigits(sum);
            Hex.IsHex(d[0]) && Hex.IsHex(d[1]) && Hex.Pair(d[0], d[1]) == sum % 256
  {
    Hex.NibbleOfDigit(sum / 16 % 16);
    Hex.NibbleOfDigit(sum % 16);
    assert sum == 16 * (sum / 16) + sum % 16;
    assert sum / 16 == 16 * (sum / 16 / 16) + sum / 16 % 16;
  }

  lemma {:induction false} EndAtMost(stream: string, e: nat, n: nat)
    requires e <= n < |stream| && stream[n] == '#'
    ensures End(stream, e) <= n
    decreases n - e
  {
    if e < n {
      EndAtMost(stream, e + 1, n);
    }
  }

  /** A payload on the wire after its "$", with more input behind it. */
  function OnWire(payload: string, more: string): string {
    payload + "#" + ChecksumDigits(Checksum(payload)) + more
  }

  lemma WireParts(payload: string, more: string)
    ensures var w, n := OnWire(payload, more), |payload|;
            && |w| == n + 3 + |more| && w[..n] == payload && w[n] == '#'
            && w[n + 1..n + 3] == ChecksumDigits(Checksum(payload)) && w[n + 3..] == more
  {
  }

  lemma ReceivedAt(stream: string, payload: string, more: string)
    requires |stream| == |payload| + 3 + |more| && stream[..|payload|] == payload
    requires stream[|payload| + 1..|payload| + 3] == ChecksumDigits(Checksum(payload)) && stream[|payload| + 3..] == more
    requires End(stream, 0) == |payload|
    ensures Receive(stream) == Some((payload, more))
  {
    var n, d := |payload|, stream[|payload| + 1..|payload| + 3];
    ChecksumPair(Checksum(payload));
    assert stream[n + 1] == d[0] && stream[n + 2] == d[1];
  }

  /** The reader recovers a payload without "#", and leaves what follows unread, exactly if the payload fits its buffer. */
  lemma ReceivedIff(payload: string, more: string)
    requires '#' !in payload
    ensures Receive(OnWire(payload, more)) == Some((payload, more)) <==> |payload| <= MAX_BUF
  {
    var w, n := OnWire(payload, more), |payload|;
    WireParts(payload, more);
    EndBefore(w, 0);
    if n <= MAX_BUF {
      assert forall j :: 0 <= j < n ==> w[j] == w[..n][j];
      EndReaches(w, 0, n);
      ReceivedAt(w, payload, more);
    }
  }

  lemma {:induction false} EndReaches(stream: string, e: nat, n: nat)
    requires e <= n < |stream| && n <= MAX_BUF && (n == MAX_BUF || stream[n] == '#')
    requires forall j :: e <= j < n ==> stream[j] != '#'
    ensures End(stream, e) == n
    decreases n - e
  {
    if e < n {
      EndReaches(stream, e + 1, n);
    }
  }

  /** A payload that fills the buffer is accepted whatever character stands where its "#" belongs. */
  lemma FullBufferNeedsNoTerminator(payload: string, c: char, more: string)
    requires |payload| == MAX_BUF && '#' !in payload
    ensures Receive(payload + [c] + ChecksumDigits(Checksum(payload)) + more) == Some((payload, more))
  {
    var w := payload + [c] + ChecksumDigits(Checksum(payload)) + more;
    assert w[..MAX_BUF] == payload;
    assert forall j :: 0 <= j < MAX_BUF ==> w[j] == w[..MAX_BUF][j];
    EndReaches(w, 0, MAX_BUF);
    ReceivedAt(w, payload, more);
  }

  /** A reply without NUL is sent exactly if it has at most 395 characters. */
  lemma SentIff(reply: string)
    requires '\0' !in reply
    ensures Packet(reply).Some? <==> |reply| <= 395
  {
    assert CString(reply) == reply;
  }

  lemma SentIsOnWire(payload: string, more: string)
    requires |payload| <= 395 && '\0' !in payload
    ensures Packet(payload).Some? && Packet(payload).value[1..] + more == OnWire(payload, more)
  {
    assert CString(payload) == payload;
    if payload == "" {
      assert ChecksumDigits(0) == "00";
      assert "$#00"[1..] == "#00";
    } else {
      assert Packet(payload).value[1..] == payload + "#" + ChecksumDigits(Checksum(payload));
    }
  }

  /**
   The reader recovers a reply from the packet sent for it, and leaves what follows unread, exactly
   when the reply has at most 395 characters and neither "#" nor NUL among them.
   */
  lemma RoundTrip(payload: string, more: string)
    ensures Packet(payload).Some? && Receive(Packet(payload).value[1..] + more) == Some((payload, more)) <==>
            |payload| <= 395 && '#' !in payload && '\0' !in payload
  {
    if '\0' !in payload {
      assert CString(payload) == payload;
      if |payload| <= 395 {
        SentIsOnWire(payload, more);
        if '#' !in payload {
          ReceivedIff(payload, more);
        } else {
          CutAtHash(payload, more);
        }
      }
    } else if Packet(payload).Some? {
      CutAtNul(payload, more);
    }
  }

  lemma CutAtHash(payload: string, more: string)
    requires '#' in payload
    ensures Receive(OnWire(payload, more)) != Some((payload, more))
  {
    var w, n := OnWire(payload, more), |payload|;
    WireParts(payload, more);
    var k :| 0 <= k < n && payload[k] == '#';
    assert w[k] == w[..n][k];
    EndAtMost(w, 0, k);
  }

  /** What is sent for a reply with a NUL is what is sent for the text before it. */
  lemma CutAtNul(payload: string, more: string)
    requires '\0' in payload && Packet(payload).Some?
    ensures Receive(Packet(payload).value[1..] + more) != Some((payload, more))
  {
    var s := CString(payload);
    var k :| 0 <= k < |payload| && payload[k] == '\0';
    assert |s| < |payload|;
    assert CString(s) == s && Packet(s) == Packet(payload) && '\0' !in s;
    SentIsOnWire(s, more);
    WireParts(s, more);
    EndAtMost(OnWire(s, more), 0, |s|);
  }

  /**
   Whatever is accepted carries the checksum of its payload, has no "#" in it, and has its "#" after
   it unless it fills the buffer.
   */
  lemma AcceptedIsChecked(stream: string)
    requires Receive(stream).Some?
    ensures var (payload, more) := Receive(stream).value;
            && |payload| + 3 + |more| == |stream| && |payload| <= MAX_BUF && '#' !in payload
            && (|payload| < MAX_BUF ==> stream[|payload|] == '#')
            && Hex.IsHex(stream[|payload| + 1]) && Hex.IsHex(stream[|payload| + 2])
            && Hex.Pair(stream[|payload| + 1], stream[|payload| + 2]) == Checksum(payload) % 256
  {
    EndBefore(stream, 0);
  }

  lemma {:induction false} EndBefore(stream: string, e: nat)
    requires e <= |stream| && e <= MAX_BUF
    ensures e <= End(stream, e) <= |stream| && End(stream, e) <= MAX_BUF
    ensures forall j :: e <= j < End(stream, e) ==> stream[j] != '#'
    ensures End(stream, e) < |stream| && End(stream, e) < MAX_BUF ==> stream[End(stream, e)] == '#'
    decreases |stream| - e
  {
    if e < |stream| && e < MAX_BUF && stream[e] != '#' {
      EndBefore(stream, e + 1);
    }
  }
}
