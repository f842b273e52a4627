/** The network, transport and session layer of src/layer/LayerNTS.cpp: addressed packets with a CRC, and two sequence
    numbers that step together with every exchange of an on-line session. */
module Nts {
  import opened Control
  import opened Crc
  import opened Hex
  import opened Wrappers

  datatype Session = OffLine | Start | OnLine

  const StartSessionMi: bv8 := 0x02

  // ----- Sequence numbers -----

  /** The successor of a sequence number: 255 wraps to 1, so 0 is only ever the first. */
  function IncN(n: bv8): bv8 {
    if n + 1 == 0 then 1 else n + 1
  }

  datatype Counters = Counters(ns: bv8, nr: bv8)

  /** A field that does not parse is -1, which is 255 once it is stored in a byte. */
  function AsByte(field: Option<bv8>): bv8 {
    if field.Some? then field.value else 0xFF
  }

  /** What an on-line session does with the numbers of a command, `None` when it answers NAK: the next command
      advances N(R); a repeated one, whose reply was lost, takes N(S) back to the number of that reply. */
  function OnCommand(c: Counters, ns: Option<bv8>, nr: Option<bv8>): Option<Counters> {
    if ns == Some(c.nr) then Some(c.(nr := IncN(AsByte(ns))))
    else if IncN(AsByte(ns)) == c.nr && IncN(AsByte(nr)) == c.ns then Some(c.(ns := AsByte(nr)))
    else None
  }

  /** A reply carries the current numbers; on-line, the next reply will carry the next N(S). */
  function AfterReply(c: Counters, session: Session): Counters {
    if session.OnLine? then c.(ns := IncN(c.ns)) else c
  }

  /** A reply uses up an N(S) in a session only, and never an N(R); 0 comes once. */
  lemma OnlySessionsCount(c: Counters, s: Session)
    ensures AfterReply(c, s) == Counters(if s != OnLine then c.ns else if c.ns == 0xFF then 1 else c.ns + 1, c.nr)
  {}

  // ----- Packets -----

  function Close(head: seq<bv8>): (packet: seq<bv8>)
    ensures |packet| == |head| + DATA_PACKET_EOB_SIZE
  {
    head + Encode16(Crc1021(head)) + [ETX]
  }

  function NonDataPacket(kind: bv8, nr: bv8, device: bv8): (packet: seq<bv8>)
    ensures |packet| == NON_DATA_PACKET_SIZE
  {
    Close([kind] + Pair(nr) + Pair(device))
  }

  function Header(c: Counters, device: bv8): (head: seq<bv8>)
    ensures |head| == DATA_PACKET_HEADER_SIZE
  {
    [SOH] + Pair(c.ns) + Pair(c.nr) + Pair(device) + [STX]
  }

  function DataPacket(c: Counters, device: bv8, data: seq<bv8>): (packet: seq<bv8>)
    ensures |packet| == DATA_PACKET_HEADER_SIZE + |data| + DATA_PACKET_EOB_SIZE
  {
    Close(Header(c, device) + data)
  }

  /** What goes down for a reply: an acknowledgement and the reply itself in one piece. */
  function Reply(c: Counters, device: bv8, data: seq<bv8>): seq<bv8> {
    NonDataPacket(ACK, c.nr, device) + DataPacket(c, device, data)
  }

  // ----- Reading a packet -----

  function Field(buf: seq<bv8>, at: nat): Option<bv8>
    requires at + 1 < |buf|
  {
    ParsePair(buf[at], buf[at + 1])
  }

  predicate CrcMatches(buf: seq<bv8>, len: nat)
    requires 5 <= len <= |buf|
  {
    var field := Parse16(buf[len - 5..len - 1]);
    Crc1021(buf[..len - 5]) == if field.Some? then field.value else 0xFFFF
  }

  /** The outcome of `Rx`: dropped, answered at once with these bytes, or handed to the presentation layer. */
  datatype Verdict = Ignored | Answered(wire: seq<bv8>) | Delivered(data: seq<bv8>)

  /** What `Rx` does with one packet, given the numbers, the session and the address of the last packet. */
  datatype Judgement = Judgement(verdict: Verdict, numbers: Counters, session: Session)

  /** The configured ids. */
  datatype Ids = Ids(device: bv8, broadcast: bv8)

  function Judged(ids: Ids, c: Counters, s: Session, last: bv8, buf: seq<bv8>, len: nat, expired: bool, stray: bv8)
    : Judgement
    requires len <= |buf| && |buf| >= 10
  {
    if Field(buf, 5) != Some(ids.device) || ids.device == ids.broadcast || buf[7] != STX then Judgement(Ignored, c, s)
    else if len < 15 || len % 2 == 0 then
      if last == ids.broadcast then Judgement(Ignored, c, s)
      else Judgement(Answered(Reply(c, ids.device, Pair(0) + Pair(stray) + Pair(3))), AfterReply(c, s), s)
    else if !CrcMatches(buf, len) then Judgement(Answered(NonDataPacket(NAK, c.nr, ids.device)), c, s)
    else
      var ended := (Field(buf, 8) == Some(StartSessionMi) && len == 15) || (expired && s.OnLine?);
      var c1, s1 := if ended then Counters(0, 0) else c, if ended then OffLine else s;
      if !s1.OnLine? then Judgement(Delivered(buf[8..len - 5]), c1, s1)
      else
        match OnCommand(c1, Field(buf, 1), Field(buf, 3))
        case Some(c2) => Judgement(Delivered(buf[8..len - 5]), c2, s1)
        case None => Judgement(Answered(NonDataPacket(NAK, c1.nr, ids.device)), c1, s1)
  }

  // ----- Where the numbers stand -----

  lemma PairAt(before: seq<bv8>, b: bv8, after: seq<bv8>)
    ensures PrintedAt(before + Pair(b) + after, |before|, b)
  {
    hide Pair, UpperDigit;
    BytePrinted(b);
  }

  lemma CloseAt(head: seq<bv8>)
    ensures Close(head)[..|head|] == head && NumberPrintedAt(Close(head), |head|, Crc1021(head))
    ensures Close(head)[|head| + 4] == 0x03
  {
    hide Encode16, UpperDigit, Crc1021;
    NumberPrinted(Crc1021(head));
  }

  /** An acknowledgement or a refusal on the wire: its code, N(R), the device, the checksum of these, ETX. */
  lemma NonDataLayout(kind: bv8, nr: bv8, device: bv8)
    ensures var w := NonDataPacket(kind, nr, device);
            && |w| == 10 && w[0] == kind && PrintedAt(w, 1, nr) && PrintedAt(w, 3, device)
            && NumberPrintedAt(w, 5, Crc1021(w[..5])) && w[9] == 0x03
  {
    hide Pair, Close, PrintedAt, NumberPrintedAt, Crc1021;
    var head := [kind] + Pair(nr) + Pair(device);
    var w := Close(head);
    CloseAt(head);
    PairAt([kind], nr, Pair(device) + w[5..]);
    PairAt([kind] + Pair(nr), device, w[5..]);
    assert w == head + w[5..];
    assert w == [kind] + Pair(nr) + (Pair(device) + w[5..]);
  }

  lemma HeaderAt(c: Counters, device: bv8, tail: seq<bv8>)
    ensures var w := Header(c, device) + tail;
            w[0] == 0x01 && PrintedAt(w, 1, c.ns) && PrintedAt(w, 3, c.nr) && PrintedAt(w, 5, device) && w[7] == 0x02
  {
    hide Pair, PrintedAt;
    var w := Header(c, device) + tail;
    PairAt([SOH], c.ns, Pair(c.nr) + Pair(device) + [STX] + tail);
    assert w == [SOH] + Pair(c.ns) + (Pair(c.nr) + Pair(device) + [STX] + tail);
    PairAt([SOH] + Pair(c.ns), c.nr, Pair(device) + [STX] + tail);
    assert w == [SOH] + Pair(c.ns) + Pair(c.nr) + (Pair(device) + [STX] + tail);
    PairAt([SOH] + Pair(c.ns) + Pair(c.nr), device, [STX] + tail);
    assert w == [SOH] + Pair(c.ns) + Pair(c.nr) + Pair(device) + ([STX] + tail);
  }

  /** A data packet on the wire: SOH, N(S), N(R), the device, STX, the text, the checksum of all these, ETX. */
  lemma DataLayout(c: Counters, device: bv8, data: seq<bv8>)
    ensures var w := DataPacket(c, device, data); var n := 8 + |data|;
            && |w| == n + 5 && w[0] == 0x01 && PrintedAt(w, 1, c.ns) && PrintedAt(w, 3, c.nr) && PrintedAt(w, 5, device)
            && w[7] == 0x02 && w[8..n] == data && NumberPrintedAt(w, n, Crc1021(w[..n])) && w[n + 4] == 0x03
  {
    hide Header, Close, PrintedAt, NumberPrintedAt, Crc1021;
    var header := Header(c, device);
    var head := header + data;
    var w := Close(head);
    CloseAt(head);
    assert w == head + w[|head|..] == header + (data + w[|head|..]);
    HeaderAt(c, device, data + w[|head|..]);
    assert w[8..8 + |data|] == head[8..] == data;
  }

  /** A reply on the wire is the acknowledgement, with code 6, and the data packet right behind it. */
  lemma ReplyLayout(c: Counters, device: bv8, data: seq<bv8>)
    ensures var w := Reply(c, device, data);
            |w| == 10 + 8 + |data| + 5 && w[..10] == NonDataPacket(0x06, c.nr, device)
            && w[10..] == DataPacket(c, device, data)
  {
    hide NonDataPacket, DataPacket;
  }

  lemma FieldRead(buf: seq<bv8>, at: nat, b: bv8)
    requires at + 2 <= |buf|
    ensures Field(buf, at) == Some(b) <==> SpelledAt(buf, at, b)
  {
    hide ParsePair, Spells;
    PairSpelled(buf[at], buf[at + 1], b);
  }

  /** A checksum field matches when it spells the checksum of what is in front of it, or is no number while that checksum
      is 65535. */
  lemma ChecksumRead(buf: seq<bv8>, len: nat)
    requires 5 <= len <= |buf|
    ensures var crc := Crc1021(buf[..len - 5]);
            CrcMatches(buf, len) <==> NumberSpelledAt(buf, len - 5, crc) || (crc == 0xFFFF && NoNumberAt(buf, len - 5))
  {
    hide Crc1021, Parse16, Spells, NoDigit;
    var digits := buf[len - 5..len - 1];
    NumberRead(digits, Crc1021(buf[..len - 5]));
    NumberUnread(digits);
  }

  /** A packet is passed over unless bytes 5 and 6 spell the device and byte 7 is STX. */
  lemma OthersArePassedOver(ids: Ids, c: Counters, s: Session, last: bv8, buf: seq<bv8>, len: nat, expired: bool,
                            stray: bv8)
    requires len <= |buf| && |buf| >= 10 && ids.device != ids.broadcast
    requires !SpelledAt(buf, 5, ids.device) || buf[7] != 0x02
    ensures Judged(ids, c, s, last, buf, len, expired, stray) == Judgement(Ignored, c, s)
  {
    hide SpelledAt, Field;
    FieldRead(buf, 5, ids.device);
  }

  /** What stands at `at` stands for byte `b`: its two digits, or, for 255, characters of which one is no digit. */
  predicate StandsFor(buf: seq<bv8>, at: nat, b: bv8)
    requires at + 2 <= |buf|
  {
    SpelledAt(buf, at, b) || (b == 0xFF && (NoDigit(buf[at]) || NoDigit(buf[at + 1])))
  }

  lemma FieldStandsFor(buf: seq<bv8>, at: nat, b: bv8)
    requires at + 2 <= |buf|
    ensures AsByte(Field(buf, at)) == b <==> StandsFor(buf, at, b)
  {
    hide SpelledAt, DigitValue, NoDigit;
    FieldRead(buf, at, b);
    DigitOrNot(buf[at]);
    DigitOrNot(buf[at + 1]);
  }

  /** What an on-line session makes of a command whose bytes 1 to 4 stand for N(S) and N(R), and whose checksum is
      right: it takes the number that it expects, takes the number before it again when the other one is that of its
      last reply, and refuses any other. */
  lemma CommandRead(ids: Ids, c: Counters, last: bv8, buf: seq<bv8>, len: nat, stray: bv8, ns: bv8, nr: bv8)
    requires 15 <= len <= |buf| && len % 2 == 1 && ids.device != ids.broadcast
    requires StandsFor(buf, 1, ns) && StandsFor(buf, 3, nr) && SpelledAt(buf, 5, ids.device) && buf[7] == 0x02
    requires NumberSpelledAt(buf, len - 5, Crc1021(buf[..len - 5]))
    requires len == 15 ==> !SpelledAt(buf, 8, 0x02)
    ensures var j := Judged(ids, c, OnLine, last, buf, len, false, stray);
            j == if SpelledAt(buf, 1, c.nr) then Judgement(Delivered(buf[8..len - 5]), Counters(c.ns, IncN(c.nr)), OnLine)
                 else if IncN(ns) == c.nr && IncN(nr) == c.ns
                 then Judgement(Delivered(buf[8..len - 5]), Counters(nr, c.nr), OnLine)
                 else Judgement(Answered(NonDataPacket(0x15, c.nr, ids.device)), c, OnLine)
  {
    hide SpelledAt, StandsFor, Field, IncN, NumberSpelledAt, CrcMatches, Crc1021, NonDataPacket;
    FieldRead(buf, 1, c.nr);
    FieldStandsFor(buf, 1, ns);
    FieldStandsFor(buf, 3, nr);
    FieldRead(buf, 5, ids.device);
    FieldRead(buf, 8, 0x02);
    ChecksumRead(buf, len);
  }

  class LayerNTS {
    const device: bv8
    const broadcast: bv8
    const txbuf: array<bv8>
    var session: Session
    var addr: bv8
    var ns: bv8
    var nr: bv8

    ghost predicate Valid() {
      txbuf.Length == MAX_ACK_DATA_PACKET_SIZE
    }

    ghost function Numbers(): Counters
      reads this
    {
      Counters(ns, nr)
    }

    /** `device` and `broadcast` stand for the configured ids. */
    constructor (device: bv8, broadcast: bv8)
      ensures Valid() && session == OffLine && Numbers() == Counters(0, 0)
      ensures this.device == device && this.broadcast == broadcast && addr == device && fresh(txbuf)
    {
      this.device, this.broadcast := device, broadcast;
      txbuf := new bv8[MAX_ACK_DATA_PACKET_SIZE];
      session, addr, ns, nr := OffLine, device, 0, 0;
    }

    /** `Session(v)`: every change of the session restarts both numbers. */
    method SetSession(v: Session)
      modifies this`session, this`ns, this`nr
      ensures session == v && Numbers() == Counters(0, 0)
    {
      session := v;
      nr := 0;
      ns := 0;
    }

    /** `memcpy` into the transmit buffer. */
    method Put(at: nat, bytes: seq<bv8>)
      requires Valid() && at + |bytes| <= txbuf.Length
      modifies txbuf
      ensures txbuf[at..at + |bytes|] == bytes
      ensures txbuf[..at] == old(txbuf[..at])
      ensures txbuf[at + |bytes|..] == old(txbuf[at + |bytes|..])
    {
      forall k | 0 <= k < |bytes| {
        txbuf[at + k] := bytes[k];
      }
    }

    method EndOfBlock(at: nat, len: nat)
      requires Valid() && at + len + DATA_PACKET_EOB_SIZE <= txbuf.Length
      modifies txbuf
      ensures txbuf[at..at + len + DATA_PACKET_EOB_SIZE] == Close(old(txbuf[at..at + len]))
      ensures txbuf[..at] == old(txbuf[..at])
    {
      hide Crc1021, Encode16;
      ghost var head := txbuf[at..at + len];
      var crc := Crc16_1021(txbuf[at..at + len]);
      var tail := Encode16(crc) + [ETX];
      Put(at + len, tail);
      assert txbuf[at..at + len] == txbuf[..at + len][at..] == head;
      assert txbuf[..at] == txbuf[..at + len][..at];
      assert txbuf[at..at + len + 5] == txbuf[at..at + len] + txbuf[at + len..at + len + 5];
      assert head + tail == Close(head);
    }

    method MakeNondata(kind: bv8)
      requires Valid()
      modifies txbuf
      ensures txbuf[..NON_DATA_PACKET_SIZE] == NonDataPacket(kind, nr, device)
    {
      hide Pair, Close;
      Put(0, [kind] + Pair(nr) + Pair(device));
      EndOfBlock(0, 5);
      assert txbuf[..NON_DATA_PACKET_SIZE] == txbuf[0..0 + 5 + DATA_PACKET_EOB_SIZE];
    }

    /** `Tx`: the wire bytes, or nothing for a broadcast. */
    method Tx(data: seq<bv8>) returns (wire: Option<seq<bv8>>)
      requires Valid()
      requires NON_DATA_PACKET_SIZE + DATA_PACKET_HEADER_SIZE + |data| + DATA_PACKET_EOB_SIZE <= txbuf.Length
      modifies this`ns, txbuf
      ensures wire == if addr == broadcast then None else Some(Reply(old(Numbers()), device, data))
      ensures Numbers() == if addr == broadcast then old(Numbers()) else AfterReply(old(Numbers()), session)
    {
      hide Pair, Close, NonDataPacket, Header, IncN;
      if addr == broadcast {
        return None;
      }
      MakeNondata(ACK);
      ghost var ack := txbuf[..NON_DATA_PACKET_SIZE];
      var p := NON_DATA_PACKET_SIZE;
      Put(p, Header(Counters(ns, nr), device));
      ghost var header := txbuf[p..p + 8];
      Put(p + DATA_PACKET_HEADER_SIZE, data);
      assert txbuf[p..p + 8] == txbuf[..p + 8][p..] == header;
      assert txbuf[p..p + 8 + |data|] == txbuf[p..p + 8] + txbuf[p + 8..p + 8 + |data|];
      assert txbuf[..p] == txbuf[..p + 8][..p] == ack;
      EndOfBlock(p, DATA_PACKET_HEADER_SIZE + |data|);
      var size := NON_DATA_PACKET_SIZE + DATA_PACKET_HEADER_SIZE + |data| + DATA_PACKET_EOB_SIZE;
      wire := Some(txbuf[..size]);
      assert txbuf[..size] == txbuf[..p] + txbuf[p..size];
      if session.OnLine? {
        ns := IncN(ns);
      }
    }

    /** `Rx`: `buf` is the receive buffer and its first `len` bytes are the packet; shorter packets leave older bytes
        behind them, which the source reads too. `expired` is the session timer. `stray` is the byte the reply to a
        packet of a bad length reports: the source reads it from outside an array, so it may be anything. */
    method Rx(buf: seq<bv8>, len: nat, expired: bool, stray: bv8) returns (verdict: Verdict)
      requires Valid() && len <= |buf| && |buf| >= 10
      modifies this, txbuf
      ensures Judgement(verdict, Numbers(), session)
           == Judged(Ids(device, broadcast), old(Numbers()), old(session), old(addr), buf, len, expired, stray)
      ensures addr == if Field(buf, 5) == Some(device) && device != broadcast && buf[7] == STX && len >= 15
              && len % 2 == 1
                         && CrcMatches(buf, len) then device else old(addr)
    {
      hide Crc1021, Parse16, ParsePair, IncN, CrcMatches, OnCommand, Reply, NonDataPacket, Pair;
      if Field(buf, 5) != Some(device) || Field(buf, 5) == Some(broadcast) {
        return Ignored;
      }
      if buf[7] != STX {
        return Ignored;
      }
      if len < 15 || len % 2 == 0 {
        var wire := Tx(Pair(0) + Pair(stray) + Pair(3));
        return if wire.Some? then Answered(wire.value) else Ignored;
      }
      var ok := CheckCrc(buf, len);
      if !ok {
        MakeNondata(NAK);
        return Answered(txbuf[..NON_DATA_PACKET_SIZE]);
      }
      addr := device;
      var mi := Field(buf, 8);
      if (mi == Some(StartSessionMi) && len == 15) || (expired && session.OnLine?) {
        session := OffLine;
        ns := 0;
        nr := 0;
      }
      if session.OnLine? {
        var known := Count(Field(buf, 1), Field(buf, 3));
        if !known {
          MakeNondata(NAK);
          return Answered(txbuf[..NON_DATA_PACKET_SIZE]);
        }
      }
      verdict := Delivered(buf[8..len - 5]);
    }

    /** The numbers of a command of the session: false for neither the next nor the last one. */
    method Count(n: Option<bv8>, r: Option<bv8>) returns (known: bool)
      modifies this`ns, this`nr
      ensures known <==> OnCommand(old(Numbers()), n, r).Some?
      ensures Numbers() == if known then OnCommand(old(Numbers()), n, r).value else old(Numbers())
    {
      hide IncN;
      if n == Some(nr) {
        nr := IncN(AsByte(n));
      } else if IncN(AsByte(n)) == nr && IncN(AsByte(r)) == ns {
        ns := AsByte(r);
      } else {
        return false;
      }
      known := true;
    }

    method CheckCrc(buf: seq<bv8>, len: nat) returns (ok: bool)
      requires 5 <= len <= |buf|
      ensures ok == CrcMatches(buf, len)
    {
      hide Crc1021, Parse16;
      var crc1 := Crc16_1021(buf[..len - 5]);
      var field := Parse16(buf[len - 5..len - 1]);
      var crc2 := if field.Some? then field.value else 0xFFFF;
      ok := crc1 == crc2;
    }
  }
}
