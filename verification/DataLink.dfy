/** The data-link receiver of src/layer/LayerDtLk.cpp: it picks packets that start with SOH and end with ETX out of
    the bytes of a connection. */
module DataLink {
  import opened Control
  import opened Pieces
  import opened Wrappers

  function ScanByte(max: nat, kept: seq<bv8>, c: bv8): Scan {
    if c == SOH then Scan([c], None)
    else if c == NAK then Scan(kept, None)
    else if |kept| == 0 then Scan(kept, None)
    else if |kept| >= max then Scan([], None)
    else if c == ETX then Scan([], Some(kept + [c]))
    else Scan(kept + [c], None)
  }

  function Receiver(max: nat): Step {
    (kept, c) => ScanByte(max, kept, c)
  }

  class LayerDtLk {
    const maxPktSize: nat
    const buf: array<bv8>
    var length: nat

    ghost predicate Valid()
      reads this, buf
    {
      0 < maxPktSize == buf.Length && length <= maxPktSize
    }

    ghost function Kept(): seq<bv8>
      requires Valid()
      reads this, buf
    {
      buf[..length]
    }

    /** The source leaves `length` unset until the first `ClrRx`, which every connection starts with. */
    constructor (size: nat)
      requires size > 0
      ensures Valid() && Kept() == [] && maxPktSize == size && fresh(buf)
    {
      maxPktSize := size;
      buf := new bv8[size];
      length := 0;
    }

    /** The packet, if any, is passed up as the first bytes of `buf`. */
    method Rx(data: seq<bv8>) returns (packet: Option<seq<bv8>>)
      requires Valid()
      modifies this, buf
      ensures Valid()
      ensures Scan(Kept(), packet) == ScanPiece(Receiver(maxPktSize), old(Kept()), data)
      ensures packet.Some? ==> |packet.value| <= maxPktSize && buf[..|packet.value|] == packet.value
    {
      packet := None;
      ghost var step := Receiver(maxPktSize);
      for i := 0 to |data|
        invariant Valid()
        invariant ScanPiece(step, Kept(), data[i..]) == ScanPiece(step, old(Kept()), data)
      {
        var c := data[i];
        ghost var kept := Kept();
        assert data[i..][1..] == data[i + 1..];
        if c == SOH {
          buf[0] := c;
          length := 1;
          assert Kept() == [c];
        } else if c == NAK {
        } else if length > 0 {
          if length < maxPktSize {
            buf[length] := c;
            length := length + 1;
            assert Kept() == kept + [c];
            if c == ETX {
              packet := Some(buf[..length]);
              length := 0;
              assert Kept() == [];
              return;
            }
          } else {
            length := 0;
            assert Kept() == [];
          }
        }
        assert Scan(Kept(), None) == ScanByte(maxPktSize, kept, c);
      }
      assert data[|data|..] == [];
    }

    method ClrRx()
      requires Valid()
      modifies this`length
      ensures Valid() && Kept() == []
    {
      length := 0;
    }
  }

  // ----- What is extracted -----

  function WithoutNaks(text: seq<bv8>): (r: seq<bv8>)
    ensures |r| <= |text|
    decreases |text|
  {
    if |text| == 0 then []
    else if text[0] == NAK then WithoutNaks(text[1..])
    else [text[0]] + WithoutNaks(text[1..])
  }

  lemma {:induction false} NothingToStrip(text: seq<bv8>)
    requires NAK !in text
    ensures WithoutNaks(text) == text
    decreases |text|
  {
    if |text| != 0 {
      assert text == [text[0]] + text[1..];
      NothingToStrip(text[1..]);
    }
  }

  /** The inside of a packet: its bytes are collected, or given up for good once the buffer is full. */
  lemma {:induction false} ScanBody(max: nat, kept: seq<bv8>, body: seq<bv8>)
    requires SOH !in body && ETX !in body
    requires 0 < |kept| <= max
    ensures ScanPiece(Receiver(max), kept, body)
         == Scan(if |kept| + |WithoutNaks(body)| <= max then kept + WithoutNaks(body) else [], None)
    decreases |body|
  {
    if |body| == 0 {
      assert kept + [] == kept;
    } else {
      var c, rest := body[0], body[1..];
      assert c in body && forall d :: d in rest ==> d in body;
      if c == NAK {
        ScanBody(max, kept, rest);
      } else if |kept| == max {
        IdleBody(max, rest);
      } else {
        ScanBody(max, kept + [c], rest);
        assert kept + [c] + WithoutNaks(rest) == kept + ([c] + WithoutNaks(rest));
      }
    }
  }

  /** Outside a packet everything but SOH is skipped. */
  lemma {:induction false} IdleBody(max: nat, body: seq<bv8>)
    requires SOH !in body
    ensures ScanPiece(Receiver(max), [], body) == Scan([], None)
    decreases |body|
  {
    if |body| != 0 {
      assert body[0] in body && forall d :: d in body[1..] ==> d in body;
      IdleBody(max, body[1..]);
    }
  }

  lemma {:induction false} ScanOpenPacket(max: nat, kept: seq<bv8>, before: seq<bv8>, body: seq<bv8>)
    requires max > 0
    requires ScanPiece(Receiver(max), kept, before).packet.None?
    requires SOH !in body && ETX !in body
    ensures ScanPiece(Receiver(max), kept, before + [SOH] + body)
         == Scan(if 1 + |WithoutNaks(body)| <= max then [SOH] + WithoutNaks(body) else [], None)
  {
    assert before + [SOH] + body == before + ([SOH] + body) && ([SOH] + body)[1..] == body;
    ScanAppend(Receiver(max), kept, before, [SOH] + body);
    ScanBody(max, [SOH], body);
  }

  /** What comes out of a stream that ends at its first in-packet ETX, however it is cut into pieces, whatever came
      before the last SOH and whatever was left over from earlier pieces: the bytes from that SOH to the ETX without
      the NAKs, or nothing when they do not fit the buffer. */
  lemma {:induction false} PacketExtracted(max: nat, kept: seq<bv8>, before: seq<bv8>, body: seq<bv8>,
                                           pieces: seq<seq<bv8>>)
    requires max > 0
    requires ScanPiece(Receiver(max), kept, before).packet.None?
    requires SOH !in body && ETX !in body
    requires Concat(pieces) == before + [SOH] + body + [ETX]
    ensures ScanPieces(Receiver(max), kept, pieces)
         == ([], if 2 + |WithoutNaks(body)| <= max then [[SOH] + WithoutNaks(body) + [ETX]] else [])
  {
    var step := Receiver(max);
    var open := before + [SOH] + body;
    ScanOpenPacket(max, kept, before, body);
    QuietThroughout(step, kept, open, ETX);
    ScanAppend(step, kept, open, [ETX]);
    var inside := ScanPiece(step, kept, open).kept;
    assert [ETX][1..] == [];
    assert ScanPiece(step, inside, [ETX]) == ScanByte(max, inside, ETX);
    CutsDoNotMatter(step, kept, pieces);
  }
}
