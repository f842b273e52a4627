/** The slave-bus link of src/layer/LayerSlv.cpp: packets from STX to ETX, hexadecimal digits in between, protected by
    the mirrored CRC. `Tx` and `Rx` share one buffer, and both ends of the bus frame packets the same way. */
module SlaveLink {
  import opened Control
  import opened Crc
  import opened Hex
  import opened Pieces
  import opened Wrappers

  function ScanByte(max: nat, kept: seq<bv8>, c: bv8): Scan {
    if c == STX then Scan([c], None)
    else if |kept| == 0 then Scan(kept, None)
    else if |kept| >= max then Scan([], None)
    else if c == ETX then Scan([], Some(kept + [c]))
    else if IsDigit(c) then Scan(kept + [c], None)
    else Scan(kept, None)
  }

  function Receiver(max: nat): Step {
    (kept, c) => ScanByte(max, kept, c)
  }

  /** The shortest packet passed up carries a status reply of fourteen bytes. */
  const MIN_PACKET_SIZE := 34

  /** What a complete packet hands to the presentation layer. */
  function Payload(packet: seq<bv8>): Option<seq<bv8>> {
    if |packet| >= MIN_PACKET_SIZE && |packet| % 2 == 0 && CrcMatches(packet)
    then Some(packet[1..|packet| - 5])
    else None
  }

  /** A CRC field that does not parse counts as 0xFFFF: -1 stored in sixteen bits. */
  predicate CrcMatches(packet: seq<bv8>)
    requires |packet| >= 5
  {
    var field := Parse16(packet[|packet| - 5..|packet| - 1]);
    Crc8005(packet[..|packet| - 5]) == if field.Some? then field.value else 0xFFFF
  }

  /** The packet around a payload. */
  function Framed(data: seq<bv8>): (packet: seq<bv8>)
    ensures |packet| == |data| + 6
  {
    [STX] + data + Encode16(Crc8005([STX] + data)) + [ETX]
  }

  // ----- Byte by byte -----

  /** A packet on the bus: STX, the text, the checksum of both, ETX. */
  lemma FrameLayout(data: seq<bv8>)
    ensures var w := Framed(data); var n := 1 + |data|;
            && |w| == n + 5 && w[0] == 0x02 && w[1..n] == data
            && NumberPrintedAt(w, n, Crc8005(w[..n])) && w[n + 4] == 0x03
  {
    hide Encode16, UpperDigit, Crc8005;
    var head := [STX] + data;
    var w := Framed(data);
    assert w[..1 + |data|] == head;
    NumberPrinted(Crc8005(head));
  }

  /** What is passed up of a packet: at least 34 bytes, an even number, and in front of the last one the checksum of all
      before it, or something that is no number when that checksum is 65535. */
  lemma PayloadByBytes(packet: seq<bv8>)
    ensures var n := |packet|;
            if n >= 34 && n % 2 == 0
               && var crc := Crc8005(packet[..n - 5]);
                  NumberSpelledAt(packet, n - 5, crc) || (crc == 0xFFFF && NoNumberAt(packet, n - 5))
            then Payload(packet) == Some(packet[1..n - 5])
            else Payload(packet) == None
  {
    hide Crc8005, Parse16, Spells, NoDigit;
    var n := |packet|;
    if n >= 34 {
      var digits := packet[n - 5..n - 1];
      NumberRead(digits, Crc8005(packet[..n - 5]));
      NumberUnread(digits);
    }
  }

  class LayerSlv {
    const maxPktSize: nat
    const buf: array<bv8>
    var length: nat

    ghost predicate Valid()
      reads this, buf
    {
      0 < maxPktSize == buf.Length && length <= maxPktSize
    }

    ghost function Kept(): seq<bv8>
      requires Valid()
      reads this, buf
    {
      buf[..length]
    }

    constructor (maxPktSize: nat)
      requires maxPktSize > 0
      ensures Valid() && Kept() == [] && this.maxPktSize == maxPktSize && fresh(buf)
    {
      this.maxPktSize := maxPktSize;
      buf := new bv8[maxPktSize];
      length := 0;
    }

    /** `packet` is the complete packet found, `payload` what of it is passed up. */
    method Rx(data: seq<bv8>) returns (ghost packet: Option<seq<bv8>>, payload: Option<seq<bv8>>)
      requires Valid()
      modifies this, buf
      ensures Valid()
      ensures Scan(Kept(), packet) == ScanPiece(Receiver(maxPktSize), old(Kept()), data)
      ensures payload == if packet.Some? then Payload(packet.value) else None
    {
      hide Crc8005, Parse16, IsDigit;
      packet, payload := None, None;
      ghost var step := Receiver(maxPktSize);
      for i := 0 to |data|
        invariant Valid()
        invariant packet == None && payload == None
        invariant ScanPiece(step, Kept(), data[i..]) == ScanPiece(step, old(Kept()), data)
      {
        var c := data[i];
        ghost var kept := Kept();
        assert data[i..][1..] == data[i + 1..];
        if c == STX {
          buf[0] := c;
          length := 1;
          assert Kept() == [c];
        } else if length > 0 {
          if length < maxPktSize {
            if c == ETX || IsDigit(c) {
              buf[length] := c;
              length := length + 1;
              assert Kept() == kept + [c];
              if c == ETX {
                packet := Some(buf[..length]);
                if length >= MIN_PACKET_SIZE && length % 2 == 0 {
                  payload := Check();
                }
                length := 0;
                assert Kept() == [];
                return;
              }
            }
          } else {
            length := 0;
            assert Kept() == [];
          }
        }
        assert Scan(Kept(), None) == ScanByte(maxPktSize, kept, c);
      }
      assert data[|data|..] == [];
    }

    method Check() returns (payload: Option<seq<bv8>>)
      requires Valid() && length >= MIN_PACKET_SIZE && length % 2 == 0
      ensures payload == Payload(Kept())
    {
      hide Crc8005, Parse16;
      ghost var packet := Kept();
      var crc1 := Crc16_8005(buf[..length - 5]);
      var field := Parse16(buf[length - 5..length - 1]);
      var crc2 := if field.Some? then field.value else 0xFFFF;
      assert buf[..length - 5] == packet[..length - 5];
      assert buf[length - 5..length - 1] == packet[length - 5..length - 1];
      if crc1 == crc2 {
        payload := Some(buf[1..length - 5]);
        assert buf[1..length - 5] == packet[1..length - 5];
      } else {
        payload := None;
      }
    }

    /** Sending overwrites whatever packet was being received, but not the receiver's count of its bytes. */
    method Tx(data: seq<bv8>) returns (sent: seq<bv8>)
      requires Valid() && |data| + 6 <= maxPktSize
      modifies buf
      ensures Valid() && length == old(length)
      ensures sent == Framed(data)
    {
      hide Crc8005;
      var len := |data|;
      buf[0] := STX;
      forall k | 0 <= k < len {
        buf[k + 1] := data[k];
      }
      len := len + 1;
      assert buf[..len] == [STX] + data;
      var crc := Crc16_8005(buf[..len]);
      ghost var head := buf[..len];
      var asc := Encode16(crc);
      forall k | 0 <= k < 4 {
        buf[len + k] := asc[k];
      }
      assert buf[..len] == head && buf[len..len + 4] == asc;
      len := len + 4;
      assert buf[..len] == head + asc;
      buf[len] := ETX;
      len := len + 1;
      sent := buf[..len];
      assert sent == head + asc + [ETX];
    }
  }

  // ----- What is extracted -----

  /** A text without the noise between digits. */
  function Digits(text: seq<bv8>): (r: seq<bv8>)
    ensures |r| <= |text|
    decreases |text|
  {
    if |text| == 0 then []
    else if IsDigit(text[0]) then [text[0]] + Digits(text[1..])
    else Digits(text[1..])
  }

  lemma {:induction false} AllDigitsStay(text: seq<bv8>)
    requires AllDigits(text)
    ensures Digits(text) == text
    decreases |text|
  {
    hide IsDigit;
    if |text| != 0 {
      assert text == [text[0]] + text[1..];
      assert IsDigit(text[0]);
      AllDigitsStay(text[1..]);
    }
  }

  /** The inside of a packet: only its digits are collected. Noise that meets a full buffer empties it, but a full
      buffer has no room for the ETX either. */
  lemma {:induction false} ScanBody(max: nat, kept: seq<bv8>, body: seq<bv8>)
    requires STX !in body && ETX !in body
    requires 0 < |kept| <= max
    ensures ScanPiece(Receiver(max), kept, body).packet == None
    ensures var inside := ScanPiece(Receiver(max), kept, body).kept;
            if |kept| + |Digits(body)| < max then inside == kept + Digits(body) else inside == [] || |inside| == max
    decreases |body|
  {
    hide IsDigit;
    if |body| == 0 {
      assert kept + [] == kept;
    } else {
      var c, rest := body[0], body[1..];
      assert c in body && forall d :: d in rest ==> d in body;
      if |kept| == max {
        IdleBody(max, rest);
      } else if IsDigit(c) {
        ScanBody(max, kept + [c], rest);
        assert kept + [c] + Digits(rest) == kept + ([c] + Digits(rest));
      } else {
        ScanBody(max, kept, rest);
      }
    }
  }

  lemma {:induction false} IdleBody(max: nat, body: seq<bv8>)
    requires STX !in body
    ensures ScanPiece(Receiver(max), [], body) == Scan([], None)
    decreases |body|
  {
    if |body| != 0 {
      assert body[0] in body && forall d :: d in body[1..] ==> d in body;
      IdleBody(max, body[1..]);
    }
  }

  /** What comes out of a stream that ends at its first in-packet ETX, however it is cut: the digits between the last
      STX and the ETX, framed, or nothing when they do not fit the buffer. */
  lemma {:induction false} PacketExtracted(max: nat, kept: seq<bv8>, before: seq<bv8>, body: seq<bv8>,
                                           pieces: seq<seq<bv8>>)
    requires max > 0
    requires ScanPiece(Receiver(max), kept, before).packet.None?
    requires STX !in body && ETX !in body
    requires Concat(pieces) == before + [STX] + body + [ETX]
    ensures ScanPieces(Receiver(max), kept, pieces)
         == ([], if 2 + |Digits(body)| <= max then [[STX] + Digits(body) + [ETX]] else [])
  {
    var step := Receiver(max);
    var open := before + [STX] + body;
    assert open == before + ([STX] + body) && ([STX] + body)[1..] == body;
    ScanAppend(step, kept, before, [STX] + body);
    ScanBody(max, [STX], body);
    QuietThroughout(step, kept, open, ETX);
    ScanAppend(step, kept, open, [ETX]);
    var inside := ScanPiece(step, kept, open).kept;
    assert [ETX][1..] == [];
    assert ScanPiece(step, inside, [ETX]) == ScanByte(max, inside, ETX);
    CutsDoNotMatter(step, kept, pieces);
  }

  // ----- Sending and receiving -----

  lemma FramedIsAccepted(data: seq<bv8>)
    requires AllDigits(data)
    ensures Payload(Framed(data)) == if |data| >= 28 && |data| % 2 == 0 then Some(data) else None
  {
    hide Crc8005, Encode16, Parse16;
    var packet := Framed(data);
    var crc := Crc8005([STX] + data);
    assert packet[..|packet| - 5] == [STX] + data;
    assert packet[|packet| - 5..|packet| - 1] == Encode16(crc);
    assert packet[1..|packet| - 5] == data;
    Encode16Parses(crc);
  }

  /** Digits framed by `Tx` and received by an idle link in whatever pieces come back as the same packet, if the
      receiver's buffer has room for it. */
  lemma {:induction false} FramedIsExtracted(max: nat, data: seq<bv8>, pieces: seq<seq<bv8>>)
    requires max > 0 && AllDigits(data)
    requires Concat(pieces) == Framed(data)
    ensures ScanPieces(Receiver(max), [], pieces) == ([], if |data| + 6 <= max then [Framed(data)] else [])
  {
    hide Crc8005, Encode16, IsDigit, Framed, ScanPieces;
    var body := FramedBody(data);
    FramedParts(data);
    AllDigitsStay(body);
    DigitsAreNotControl(body);
    assert ScanPiece(Receiver(max), [], []).packet.None?;
    PacketExtracted(max, [], [], body, pieces);
  }

  function FramedBody(data: seq<bv8>): (body: seq<bv8>)
    ensures |body| == |data| + 4
  {
    data + Encode16(Crc8005([STX] + data))
  }

  lemma FramedParts(data: seq<bv8>)
    requires AllDigits(data)
    ensures [STX] + FramedBody(data) + [ETX] == Framed(data) == [] + [STX] + FramedBody(data) + [ETX]
    ensures AllDigits(FramedBody(data))
  {
    hide Crc8005, Encode16, IsDigit;
    Encode16IsDigits(Crc8005([STX] + data));
  }

  lemma DigitsAreNotControl(text: seq<bv8>)
    requires AllDigits(text)
    ensures STX !in text && ETX !in text
  {}

  /** A payload of at least fourteen bytes, printed as hexadecimal, sent by `Tx` and received in whatever pieces, is
      passed up and parsed back unchanged, exactly when the packet fits the receiver's buffer. */
  lemma {:induction false} TxThenRx(max: nat, bytes: seq<bv8>, pieces: seq<seq<bv8>>)
    requires max > 0 && |bytes| >= 14
    requires Concat(pieces) == Framed(Encode(bytes))
    ensures ScanPieces(Receiver(max), [], pieces)
         == ([], if 2 * |bytes| + 6 <= max then [Framed(Encode(bytes))] else [])
    ensures Payload(Framed(Encode(bytes))) == Some(Encode(bytes))
    ensures Decode(Encode(bytes)) == Some(bytes)
  {
    hide Framed, IsDigit, ScanPieces, Payload, Decode;
    EncodeIsDigits(bytes);
    FramedIsExtracted(max, Encode(bytes), pieces);
    FramedIsAccepted(Encode(bytes));
    EncodeThenDecode(bytes);
  }
}
