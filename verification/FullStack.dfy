/** The whole stack of src/layer/TMC_LayerManager.cpp, from an application payload down to the wire and up again. */
module FullStack {
  import opened Control
  import opened Crc
  import opened Hex
  import opened Nts
  import opened Pieces
  import opened Presentation
  import opened Wrappers
  import DataLink
  import StopAndWait

  /** The bytes on the wire for a payload, when the sender's numbers are `c`. */
  function Wire(c: Counters, device: bv8, payload: seq<bv8>): seq<bv8> {
    Reply(c, device, Encode(payload))
  }

  predicate Plain(c: bv8) { c != SOH && c != NAK && c != ETX }

  ghost predicate AllPlain(text: seq<bv8>) {
    forall c :: c in text ==> Plain(c)
  }

  lemma DigitsArePlain(text: seq<bv8>)
    requires forall c :: c in text ==> 0x30 <= c <= 0x46
    ensures AllPlain(text)
  {}

  lemma PairIsPlain(b: bv8)
    ensures AllPlain(Pair(b))
  {
    hide Digit;
    DigitIsDigit(b >> 4);
    DigitIsDigit(b);
  }

  lemma Encode16IsPlain(v: bv16)
    ensures AllPlain(Encode16(v))
  {
    hide Encode16, IsDigit;
    Encode16IsDigits(v);
    DigitsArePlain(Encode16(v));
  }

  /** The acknowledgement in front of a reply is all noise to a receiver that waits for SOH. */
  lemma AckIsSkipped(nr: bv8, device: bv8)
    ensures SOH !in NonDataPacket(ACK, nr, device)
  {
    hide Pair, Encode16, Crc1021;
    var head := [ACK] + Pair(nr) + Pair(device);
    PairIsPlain(nr);
    PairIsPlain(device);
    Encode16IsPlain(Crc1021(head));
  }

  /** What is between the SOH and the ETX of a data packet. */
  function Inside(c: Counters, device: bv8, data: seq<bv8>): (body: seq<bv8>)
    ensures |body| == |data| + 11
  {
    Pair(c.ns) + Pair(c.nr) + Pair(device) + [STX] + data + Encode16(Crc1021(Header(c, device) + data))
  }

  lemma PacketParts(c: Counters, device: bv8, data: seq<bv8>)
    requires AllPlain(data)
    ensures DataPacket(c, device, data) == [SOH] + Inside(c, device, data) + [ETX]
    ensures AllPlain(Inside(c, device, data))
  {
    hide Pair, Encode16, Crc1021;
    PairIsPlain(c.ns);
    PairIsPlain(c.nr);
    PairIsPlain(device);
    Encode16IsPlain(Crc1021(Header(c, device) + data));
  }

  /** The data-link receiver finds exactly the data packet of a reply, however the reply is cut, when it fits. */
  lemma {:induction false} ReplyIsExtracted(max: nat, c: Counters, device: bv8, data: seq<bv8>, pieces: seq<seq<bv8>>)
    requires max > 0 && AllPlain(data)
    requires Concat(pieces) == Reply(c, device, data)
    ensures ScanPieces(DataLink.Receiver(max), [], pieces)
         == ([], if |data| + 13 <= max then [DataPacket(c, device, data)] else [])
  {
    hide NonDataPacket, DataPacket, Inside, ScanPieces;
    var ack := NonDataPacket(ACK, c.nr, device);
    var body := Inside(c, device, data);
    AckIsSkipped(c.nr, device);
    PacketParts(c, device, data);
    assert SOH !in body && ETX !in body && NAK !in body by {
      assert forall b :: b in body ==> Plain(b);
    }
    DataLink.IdleBody(max, ack);
    DataLink.NothingToStrip(body);
    assert ack + ([SOH] + body + [ETX]) == ack + [SOH] + body + [ETX];
    DataLink.PacketExtracted(max, [], ack, body, pieces);
  }

  /** How the network layer judges a data packet at the front of its buffer: the CRC always matches, and the numbers
      are the ones the sender put in. */
  lemma PacketIsJudged(ids: Ids, own: Counters, s: Session, last: bv8, buf: seq<bv8>, expired: bool, stray: bv8,
                       c: Counters, data: seq<bv8>)
    requires ids.device != ids.broadcast
    requires |data| >= 2 && |data| % 2 == 0
    requires |buf| >= |data| + 13 && buf[..|data| + 13] == DataPacket(c, ids.device, data)
    ensures var j := Judged(ids, own, s, last, buf, |data| + 13, expired, stray);
            var ended := (ParsePair(data[0], data[1]) == Some(StartSessionMi) && |data| == 2)
                         || (expired && s.OnLine?);
            j == if ended || !s.OnLine?
                 then Judgement(Delivered(data), if ended then Counters(0, 0) else own, if ended then OffLine else s)
                 else match OnCommand(own, Some(c.ns), Some(c.nr))
                      case Some(next) => Judgement(Delivered(data), next, s)
                      case None => Judgement(Answered(NonDataPacket(NAK, own.nr, ids.device)), own, s)
  {
    hide HighDigit, LowDigit, ParsePair, Crc1021, Encode16, Parse16, OnCommand, NonDataPacket;
    var len := |data| + 13;
    var packet := DataPacket(c, ids.device, data);
    var head := Header(c, ids.device) + data;
    assert forall k :: 0 <= k < len ==> buf[k] == packet[k];
    PairParses(ids.device);
    PairParses(c.ns);
    PairParses(c.nr);
    Encode16Parses(Crc1021(head));
    assert buf[..len - 5] == head;
    assert buf[len - 5..len - 1] == packet[len - 5..len - 1] == Encode16(Crc1021(head));
    assert buf[8..len - 5] == data;
  }

  lemma OffLineDelivers(ids: Ids, own: Counters, s: Session, last: bv8, buf: seq<bv8>, expired: bool, stray: bv8,
                        c: Counters, data: seq<bv8>)
    requires ids.device != ids.broadcast && !s.OnLine?
    requires |data| >= 2 && |data| % 2 == 0
    requires |buf| >= |data| + 13 && DataPacket(c, ids.device, data) <= buf
    ensures Judged(ids, own, s, last, buf, |data| + 13, expired, stray).verdict == Delivered(data)
  {
    hide Judged, DataPacket, ParsePair;
    assert buf[..|data| + 13] == DataPacket(c, ids.device, data);
    PacketIsJudged(ids, own, s, last, buf, expired, stray, c, data);
  }

  /** Full-stack round trip. A payload sent through presentation, network and data link, received in any pieces by an
      idle link whose session is off-line, is passed up unchanged, if it has 1 to 65529 bytes; longer ones, up to
      what the sender accepts, overflow the receive buffer and nothing is passed up. */
  lemma {:induction false} PayloadComesThrough(ids: Ids, c: Counters, payload: seq<bv8>, pieces: seq<seq<bv8>>,
                                               own: Counters, s: Session, last: bv8, buf: seq<bv8>, expired: bool,
                                               stray: bv8)
    requires ids.device != ids.broadcast
    requires 1 <= |payload| <= MAX_APP_PACKET_SIZE
    requires Concat(pieces) == Wire(c, ids.device, payload)
    requires !s.OnLine?
    requires |buf| >= 2 * |payload| + 13 && DataPacket(c, ids.device, Encode(payload)) <= buf
    ensures Printed(MAX_APP_PACKET_SIZE, payload) == Some(Encode(payload))
    ensures ScanPieces(DataLink.Receiver(POWEROF2_MAX_DATA_PACKET_SIZE), [], pieces)
         == ([], if |payload| <= 65529 then [DataPacket(c, ids.device, Encode(payload))] else [])
    ensures Judged(ids, own, s, last, buf, 2 * |payload| + 13, expired, stray).verdict == Delivered(Encode(payload))
    ensures Parsed(MAX_APP_PACKET_SIZE, Encode(payload)) == Some(payload)
  {
    hide ScanPieces, DataPacket, Judged, Parsed, Printed, Reply;
    EncodeIsDigits(payload);
    DigitsArePlain(Encode(payload));
    ReplyIsExtracted(POWEROF2_MAX_DATA_PACKET_SIZE, c, ids.device, Encode(payload), pieces);
    OffLineDelivers(ids, own, s, last, buf, expired, stray, c, Encode(payload));
    PayloadParses(payload);
  }

  // ----- A session on the wire -----

  /** An undamaged command of a session in the receive buffer, other than a new StartSession: judging it and sending the
      reply of its handler is the step that `StopAndWait` makes of it, in step or not. */
  lemma AttemptOnTheWire(ids: Ids, w: StopAndWait.World, last: bv8, buf: seq<bv8>, stray: bv8, data: seq<bv8>)
    requires ids.device != ids.broadcast
    requires |data| >= 2 && |data| % 2 == 0
    requires |data| == 2 ==> ParsePair(data[0], data[1]) != Some(StartSessionMi)
    requires |buf| >= |data| + 13 && DataPacket(Counters(w.sends, w.expects), ids.device, data) <= buf
    ensures var j := Judged(ids, w.controller, OnLine, last, buf, |data| + 13, false, stray);
            var refused := OnCommand(w.controller, Some(w.sends), Some(w.expects)).None?;
            && j.verdict == (if refused then Answered(NonDataPacket(NAK, w.controller.nr, ids.device))
                             else Delivered(data))
            && j.session == OnLine
            && (if refused then j.numbers else AfterReply(j.numbers, OnLine))
               == StopAndWait.Attempt(w, StopAndWait.ReplyLost).controller
  {
    hide Judged, DataPacket, ParsePair, OnCommand, IncN, NonDataPacket;
    assert buf[..|data| + 13] == DataPacket(Counters(w.sends, w.expects), ids.device, data);
    PacketIsJudged(ids, w.controller, OnLine, last, buf, false, stray, Counters(w.sends, w.expects), data);
  }

  predicate IsAddressed(ids: Ids, buf: seq<bv8>)
    requires |buf| >= 10
  {
    Field(buf, 5) == Some(ids.device) && ids.device != ids.broadcast && buf[7] == STX
  }

  predicate HasBadLength(len: nat) { len < 15 || len % 2 == 0 }

  /** Neither the length nor the CRC of a packet is looked at before its address and STX are found. */
  predicate IsIntact(ids: Ids, buf: seq<bv8>, len: nat)
    requires 10 <= |buf| && len <= |buf|
  {
    IsAddressed(ids, buf) && !HasBadLength(len) && CrcMatches(buf, len)
  }

  /** What a packet that is not intact stands for in `StopAndWait`: lost when it is not recognised as the controller's. */
  function DamageOf(ids: Ids, buf: seq<bv8>, len: nat, taken: bool): StopAndWait.Fate
    requires |buf| >= 10
  {
    if !IsAddressed(ids, buf) then StopAndWait.CommandLost
    else if HasBadLength(len) then StopAndWait.LengthDamaged(taken)
    else StopAndWait.CommandDamaged
  }

  /** What becomes of any packet that is not intact, whatever bytes are in it: it is dropped, answered NAK, or answered
      with a refusal that uses up an N(S), and `StopAndWait` makes the same step of it. */
  lemma DamageOnTheWire(ids: Ids, w: StopAndWait.World, last: bv8, buf: seq<bv8>, len: nat, stray: bv8, taken: bool)
    requires 10 <= |buf| && len <= |buf| && last != ids.broadcast
    requires !IsIntact(ids, buf, len)
    ensures var j := Judged(ids, w.controller, OnLine, last, buf, len, false, stray);
            var fate := DamageOf(ids, buf, len, taken);
            && j.session == OnLine
            && j.numbers == StopAndWait.Attempt(w, fate).controller
            && j.verdict == (match fate
                             case CommandLost => Ignored
                             case CommandDamaged => Answered(NonDataPacket(NAK, w.controller.nr, ids.device))
                             case _ => Answered(Reply(w.controller, ids.device, Pair(0) + Pair(stray) + Pair(3))))
  {
    hide Field, CrcMatches, OnCommand, IncN, NonDataPacket, Reply, Pair;
  }

  /** A command whose bytes after the header have changed in number: extracted by the data link however it is cut, and
      refused at the cost of an N(S), when what is left has a length no packet has. */
  lemma {:induction false} OtherLengthOnTheWire(ids: Ids, w: StopAndWait.World, last: bv8, middle: seq<bv8>,
                                                buf: seq<bv8>, stray: bv8, taken: bool, pieces: seq<seq<bv8>>)
    requires ids.device != ids.broadcast && last != ids.broadcast
    requires AllPlain(middle) && |middle| + 9 <= POWEROF2_MAX_DATA_PACKET_SIZE
    requires HasBadLength(|middle| + 9)
    requires Concat(pieces) == Header(Counters(w.sends, w.expects), ids.device) + middle + [ETX]
    requires |buf| == POWEROF2_MAX_DATA_PACKET_SIZE && Concat(pieces) <= buf
    ensures ScanPieces(DataLink.Receiver(POWEROF2_MAX_DATA_PACKET_SIZE), [], pieces) == ([], [Concat(pieces)])
    ensures Judged(ids, w.controller, OnLine, last, buf, |Concat(pieces)|, false, stray)
         == Judgement(Answered(Reply(w.controller, ids.device, Pair(0) + Pair(stray) + Pair(3))),
                      StopAndWait.Attempt(w, StopAndWait.LengthDamaged(taken)).controller, OnLine)
  {
    hide ScanPieces, Judged, Pair, Reply, ParsePair, Header, IsAddressed, AllPlain, StopAndWait.Attempt;
    HeaderIsExtracted(Counters(w.sends, w.expects), ids.device, middle, pieces);
    HeaderIsAddressed(ids, Counters(w.sends, w.expects), middle, buf);
    DamageOnTheWire(ids, w, last, buf, |Concat(pieces)|, stray, taken);
    LengthDamageUsesNs(w, taken);
  }

  lemma LengthDamageUsesNs(w: StopAndWait.World, taken: bool)
    ensures StopAndWait.Attempt(w, StopAndWait.LengthDamaged(taken)).controller == AfterReply(w.controller, OnLine)
  {}

  lemma HeaderIsPlain(c: Counters, device: bv8, middle: seq<bv8>)
    requires AllPlain(middle)
    ensures var body := Pair(c.ns) + Pair(c.nr) + Pair(device) + [STX] + middle;
            SOH !in body && ETX !in body && NAK !in body
  {
    hide Pair;
    PairIsPlain(c.ns);
    PairIsPlain(c.nr);
    PairIsPlain(device);
    var body := Pair(c.ns) + Pair(c.nr) + Pair(device) + [STX] + middle;
    assert forall b :: b in body ==> Plain(b);
  }

  lemma {:induction false} HeaderIsExtracted(c: Counters, device: bv8, middle: seq<bv8>, pieces: seq<seq<bv8>>)
    requires AllPlain(middle) && |middle| + 9 <= POWEROF2_MAX_DATA_PACKET_SIZE
    requires Concat(pieces) == Header(c, device) + middle + [ETX]
    ensures ScanPieces(DataLink.Receiver(POWEROF2_MAX_DATA_PACKET_SIZE), [], pieces) == ([], [Concat(pieces)])
  {
    hide ScanPieces, Pair, Concat, AllPlain, Header, DataLink.WithoutNaks;
    var body := Pair(c.ns) + Pair(c.nr) + Pair(device) + [STX] + middle;
    HeaderParts(c, device, middle);
    HeaderIsPlain(c, device, middle);
    DataLink.NothingToStrip(body);
    DataLink.PacketExtracted(POWEROF2_MAX_DATA_PACKET_SIZE, [], [], body, pieces);
  }

  lemma HeaderParts(c: Counters, device: bv8, middle: seq<bv8>)
    ensures var body := Pair(c.ns) + Pair(c.nr) + Pair(device) + [STX] + middle;
            Header(c, device) + middle + [ETX] == [] + [SOH] + body + [ETX] == [SOH] + body + [ETX]
  {
    hide Pair;
  }

  lemma HeaderIsAddressed(ids: Ids, c: Counters, middle: seq<bv8>, buf: seq<bv8>)
    requires ids.device != ids.broadcast
    requires |buf| >= 10 && Header(c, ids.device) + middle + [ETX] <= buf
    ensures IsAddressed(ids, buf)
  {
    hide HighDigit, LowDigit, ParsePair;
    var packet := Header(c, ids.device) + middle + [ETX];
    assert forall k :: 0 <= k < 8 ==> buf[k] == packet[k] == Header(c, ids.device)[k];
    PairParses(ids.device);
  }

  /** Any command that loses one byte between its header and its ETX is such a command: nothing but one missing byte
      takes the two ends of an on-line session apart. */
  lemma {:induction false} OneByteLost(ids: Ids, w: StopAndWait.World, last: bv8, data: seq<bv8>, i: nat,
                                       buf: seq<bv8>, stray: bv8, taken: bool, pieces: seq<seq<bv8>>)
    requires ids.device != ids.broadcast && last != ids.broadcast
    requires |data| >= 2 && |data| % 2 == 0 && AllPlain(data) && |data| + 13 <= POWEROF2_MAX_DATA_PACKET_SIZE
    requires 8 <= i < |data| + 12
    requires var packet := DataPacket(Counters(w.sends, w.expects), ids.device, data);
             Concat(pieces) == packet[..i] + packet[i + 1..]
    requires |buf| == POWEROF2_MAX_DATA_PACKET_SIZE && Concat(pieces) <= buf
    ensures ScanPieces(DataLink.Receiver(POWEROF2_MAX_DATA_PACKET_SIZE), [], pieces) == ([], [Concat(pieces)])
    ensures Judged(ids, w.controller, OnLine, last, buf, |Concat(pieces)|, false, stray).numbers
         == StopAndWait.Attempt(w, StopAndWait.LengthDamaged(taken)).controller
    ensures StopAndWait.InStep(w) ==> !StopAndWait.InStep(StopAndWait.Attempt(w, StopAndWait.LengthDamaged(taken)))
  {
    hide ScanPieces, Judged, Pair, Reply, ParsePair, Concat, Header, Crc1021, Encode16, StopAndWait.Attempt,
         StopAndWait.InStep;
    var header := Header(Counters(w.sends, w.expects), ids.device);
    var inside := data + Encode16(Crc1021(header + data));
    Encode16IsPlain(Crc1021(header + data));
    var packet := DataPacket(Counters(w.sends, w.expects), ids.device, data);
    assert packet == header + inside + [ETX];
    var middle := inside[..i - 8] + inside[i - 7..];
    assert packet[..i] + packet[i + 1..] == header + middle + [ETX];
    OtherLengthOnTheWire(ids, w, last, middle, buf, stray, taken, pieces);
    if StopAndWait.InStep(w) {
      StopAndWait.AttemptStaysInStep(w, StopAndWait.LengthDamaged(taken));
    }
  }

  // ----- The layers wired together -----

  /** What the stack does with one piece of the byte stream: a payload for the application, or an answer of its own. */
  datatype Outcome = Nothing | ToApplication(payload: seq<bv8>) | ToWire(bytes: seq<bv8>)

  function Passed(verdict: Verdict): Outcome {
    match verdict
    case Ignored => Nothing
    case Answered(bytes) => ToWire(bytes)
    case Delivered(data) =>
      var payload := Parsed(MAX_APP_PACKET_SIZE, data);
      if payload.Some? then ToApplication(payload.value) else Nothing
  }

  class TmcStack {
    const dataLink: DataLink.LayerDtLk
    const nts: LayerNTS
    const presentation: LayerPrst

    ghost predicate Valid()
      reads dataLink, dataLink.buf
    {
      && dataLink.Valid() && dataLink.maxPktSize == POWEROF2_MAX_DATA_PACKET_SIZE
      && nts.Valid()
      && presentation.Valid() && presentation.maxlen == MAX_APP_PACKET_SIZE
      && dataLink.buf != nts.txbuf && dataLink.buf != presentation.buf && nts.txbuf != presentation.buf
    }

    constructor (device: bv8, broadcast: bv8)
      ensures Valid() && dataLink.Kept() == []
      ensures nts.device == device && nts.broadcast == broadcast && nts.addr == device
      ensures nts.session == OffLine && nts.Numbers() == Counters(0, 0)
      ensures fresh(dataLink) && fresh(dataLink.buf) && fresh(nts) && fresh(nts.txbuf) && fresh(presentation.buf)
    {
      dataLink := new DataLink.LayerDtLk(POWEROF2_MAX_DATA_PACKET_SIZE);
      nts := new LayerNTS(device, broadcast);
      presentation := new LayerPrst(MAX_APP_PACKET_SIZE);
    }

    method Rx(piece: seq<bv8>, expired: bool, stray: bv8) returns (ghost packet: Option<seq<bv8>>, outcome: Outcome)
      requires Valid()
      modifies dataLink, dataLink.buf, nts, nts.txbuf, presentation.buf
      ensures Valid()
      ensures Scan(dataLink.Kept(), packet)
           == ScanPiece(DataLink.Receiver(POWEROF2_MAX_DATA_PACKET_SIZE), old(dataLink.Kept()), piece)
      ensures packet.None? ==>
                outcome == Nothing && nts.Numbers() == old(nts.Numbers()) && nts.session == old(nts.session)
      ensures packet.Some? ==>
                exists buf: seq<bv8> :: |buf| == POWEROF2_MAX_DATA_PACKET_SIZE && packet.value <= buf &&
                  var j := Judged(Ids(nts.device, nts.broadcast), old(nts.Numbers()), old(nts.session), old(nts.addr),
                                  buf, |packet.value|, expired, stray);
                  outcome == Passed(j.verdict) && nts.Numbers() == j.numbers && nts.session == j.session
    {
      hide Judged, ScanPiece, Parsed;
      var found := dataLink.Rx(piece);
      packet := found;
      outcome := Nothing;
      if found.Some? {
        var buf := dataLink.buf[..];
        assert buf[..|found.value|] == found.value;
        assert found.value <= buf;
        var verdict := nts.Rx(buf, |found.value|, expired, stray);
        match verdict
        case Ignored =>
        case Answered(bytes) => outcome := ToWire(bytes);
        case Delivered(data) =>
          var payload := presentation.Rx(data);
          if payload.Some? {
            outcome := ToApplication(payload.value);
          }
      }
    }

    /** A reply of the application: `None` when it is too long, empty, or answers a broadcast. */
    method Tx(payload: seq<bv8>) returns (wire: Option<seq<bv8>>)
      requires Valid()
      modifies nts`ns, nts.txbuf, presentation.buf
      ensures Valid()
      ensures wire == if Printed(MAX_APP_PACKET_SIZE, payload).Some? && nts.addr != nts.broadcast
                      then Some(Wire(old(nts.Numbers()), nts.device, payload)) else None
      ensures nts.Numbers() == if wire.Some? then AfterReply(old(nts.Numbers()), nts.session) else old(nts.Numbers())
    {
      hide Reply, AfterReply;
      var text := presentation.Tx(payload);
      if text.None? {
        return None;
      }
      wire := nts.Tx(text.value);
    }
  }

  /** One controller sends, another with the same ids receives: the application gets the payload back. */
  method SendAndReceive(sender: TmcStack, receiver: TmcStack, payload: seq<bv8>) returns (got: Outcome)
    requires sender.Valid() && receiver.Valid() && sender != receiver
    requires sender.nts != receiver.nts && sender.nts.txbuf != receiver.nts.txbuf
    requires sender.presentation.buf != receiver.presentation.buf
    requires sender.nts.txbuf != receiver.dataLink.buf && sender.presentation.buf != receiver.dataLink.buf
    requires sender.nts.device == receiver.nts.device != receiver.nts.broadcast
    requires sender.nts.addr != sender.nts.broadcast
    requires 1 <= |payload| <= 65529
    requires receiver.dataLink.Kept() == [] && !receiver.nts.session.OnLine?
    modifies sender.nts`ns, sender.nts.txbuf, sender.presentation.buf
    modifies receiver.dataLink, receiver.dataLink.buf, receiver.nts, receiver.nts.txbuf, receiver.presentation.buf
    ensures got == ToApplication(payload)
  {
    hide Judged, ScanPiece, Reply, Wire, DataPacket, Encode, Decode, AfterReply;
    var c := sender.nts.Numbers();
    var wire := sender.Tx(payload);
    WholeInOnePiece(c, sender.nts.device, payload);
    ghost var own, s, last := receiver.nts.Numbers(), receiver.nts.session, receiver.nts.addr;
    ghost var packet;
    packet, got := receiver.Rx(wire.value, false, 0);
    ghost var ids := Ids(receiver.nts.device, receiver.nts.broadcast);
    ghost var buf :| |buf| == POWEROF2_MAX_DATA_PACKET_SIZE && packet.value <= buf
                     && got == Passed(Judged(ids, own, s, last, buf, |packet.value|, false, 0).verdict);
    PayloadIsPassedUp(ids, own, s, last, buf, c, payload);
  }

  lemma {:induction false} WholeInOnePiece(c: Counters, device: bv8, payload: seq<bv8>)
    requires 1 <= |payload| <= 65529
    ensures ScanPiece(DataLink.Receiver(POWEROF2_MAX_DATA_PACKET_SIZE), [], Wire(c, device, payload)).packet
         == Some(DataPacket(c, device, Encode(payload)))
  {
    hide ScanPiece, Reply, DataPacket, Encode;
    var wire := Wire(c, device, payload);
    var step := DataLink.Receiver(POWEROF2_MAX_DATA_PACKET_SIZE);
    EncodeIsDigits(payload);
    DigitsArePlain(Encode(payload));
    assert wire + [] == wire && Concat([wire][1..]) == [];
    ReplyIsExtracted(POWEROF2_MAX_DATA_PACKET_SIZE, c, device, Encode(payload), [wire]);
    assert ScanPieces(step, ScanPiece(step, [], wire).kept, [wire][1..]).1 == [];
    assert ListOf(ScanPiece(step, [], wire).packet) + [] == [DataPacket(c, device, Encode(payload))];
  }

  lemma {:induction false} PayloadIsPassedUp(ids: Ids, own: Counters, s: Session, last: bv8, buf: seq<bv8>, c: Counters,
                          payload: seq<bv8>)
    requires ids.device != ids.broadcast && !s.OnLine?
    requires 1 <= |payload| <= 65529
    requires |buf| == POWEROF2_MAX_DATA_PACKET_SIZE && DataPacket(c, ids.device, Encode(payload)) <= buf
    ensures Passed(Judged(ids, own, s, last, buf, 2 * |payload| + 13, false, 0).verdict) == ToApplication(payload)
  {
    hide Judged, DataPacket, Encode, Parsed, Printed;
    OffLineDelivers(ids, own, s, last, buf, false, 0, c, Encode(payload));
    PayloadParses(payload);
  }

  lemma {:induction false} PayloadParses(payload: seq<bv8>)
    requires 1 <= |payload| <= MAX_APP_PACKET_SIZE
    ensures Printed(MAX_APP_PACKET_SIZE, payload) == Some(Encode(payload))
    ensures Parsed(MAX_APP_PACKET_SIZE, Encode(payload)) == Some(payload)
  {
    PrintedParses(MAX_APP_PACKET_SIZE, payload);
  }
}
