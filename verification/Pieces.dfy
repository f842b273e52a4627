/** Receivers that pick packets out of a byte stream arriving in pieces. `LayerDtLk::Rx` and `LayerSlv::Rx` have this
    shape: one step a byte, at most one packet a call, and the rest of the piece thrown away after it. */
module Pieces {
  import opened Wrappers

  /** The packet under construction and the packet completed, if any. */
  datatype Scan = Scan(kept: seq<bv8>, packet: Option<seq<bv8>>)

  type Step = (seq<bv8>, bv8) -> Scan

  function Byte(step: Step, kept: seq<bv8>, c: bv8): Scan {
    step(kept, c)
  }

  /** One call of `Rx`. */
  function ScanPiece(step: Step, kept: seq<bv8>, data: seq<bv8>): Scan
    decreases |data|
  {
    if |data| == 0 then Scan(kept, None)
    else
      var s := Byte(step, kept, data[0]);
      if s.packet.Some? then s else ScanPiece(step, s.kept, data[1..])
  }

  function Concat(pieces: seq<seq<bv8>>): seq<bv8>
    decreases |pieces|
  {
    if |pieces| == 0 then [] else pieces[0] + Concat(pieces[1..])
  }

  /** One call of `Rx` after the other: what is kept in the end and the packets completed on the way. */
  function ScanPieces(step: Step, kept: seq<bv8>, pieces: seq<seq<bv8>>): (seq<bv8>, seq<seq<bv8>>)
    decreases |pieces|
  {
    if |pieces| == 0 then (kept, [])
    else
      var s := ScanPiece(step, kept, pieces[0]);
      var (last, packets) := ScanPieces(step, s.kept, pieces[1..]);
      (last, ListOf(s.packet) + packets)
  }

  function ListOf<T>(o: Option<T>): seq<T> {
    if o.Some? then [o.value] else []
  }

  lemma {:induction false} ScanAppend(step: Step, kept: seq<bv8>, a: seq<bv8>, b: seq<bv8>)
    requires ScanPiece(step, kept, a).packet.None?
    ensures ScanPiece(step, kept, a + b) == ScanPiece(step, ScanPiece(step, kept, a).kept, b)
    decreases |a|
  {
    if |a| == 0 {
      assert a + b == b;
    } else {
      assert (a + b)[0] == a[0] && (a + b)[1..] == a[1..] + b;
      ScanAppend(step, Byte(step, kept, a[0]).kept, a[1..], b);
    }
  }

  lemma {:induction false} ScanStops(step: Step, kept: seq<bv8>, a: seq<bv8>, b: seq<bv8>)
    requires ScanPiece(step, kept, a).packet.Some?
    ensures ScanPiece(step, kept, a + b) == ScanPiece(step, kept, a)
    decreases |a|
  {
    assert (a + b)[0] == a[0] && (a + b)[1..] == a[1..] + b;
    if Byte(step, kept, a[0]).packet.None? {
      ScanStops(step, Byte(step, kept, a[0]).kept, a[1..], b);
    }
  }

  /** Nothing is complete before the last byte of `stream`. */
  ghost predicate CompleteAtEnd(step: Step, kept: seq<bv8>, stream: seq<bv8>) {
    forall n :: 0 <= n < |stream| ==> ScanPiece(step, kept, stream[..n]).packet.None?
  }

  /** Completing a packet empties the buffer. */
  ghost predicate IdleAfterPacket(step: Step) {
    forall kept, c :: Byte(step, kept, c).packet.Some? ==> Byte(step, kept, c).kept == []
  }

  /** However a stream that completes at most at its last byte is cut into pieces, empty ones included, the same
      packet comes out of it. */
  lemma {:induction false} CutsDoNotMatter(step: Step, kept: seq<bv8>, pieces: seq<seq<bv8>>)
    requires IdleAfterPacket(step)
    requires CompleteAtEnd(step, kept, Concat(pieces))
    ensures ScanPieces(step, kept, pieces)
         == (ScanPiece(step, kept, Concat(pieces)).kept, ListOf(ScanPiece(step, kept, Concat(pieces)).packet))
    decreases |pieces|
  {
    if |pieces| != 0 {
      var first, rest := pieces[0], Concat(pieces[1..]);
      var stream := Concat(pieces);
      var s := ScanPiece(step, kept, first);
      if s.packet.Some? {
        assert stream[..|first|] == first;
        assert |first| == |stream| && rest == [] && stream == first;
        PacketLeavesIdle(step, kept, first);
        EmptyPieces(step, [], pieces[1..]);
        assert ListOf(s.packet) + [] == ListOf(s.packet);
      } else {
        ScanAppend(step, kept, first, rest);
        forall n | 0 <= n < |rest| ensures ScanPiece(step, s.kept, rest[..n]).packet.None? {
          ScanAppend(step, kept, first, rest[..n]);
          assert stream[..|first| + n] == first + rest[..n];
        }
        CutsDoNotMatter(step, s.kept, pieces[1..]);
        var packets := ScanPieces(step, s.kept, pieces[1..]).1;
        assert [] + packets == packets;
      }
    }
  }

  lemma {:induction false} EmptyPieces(step: Step, kept: seq<bv8>, pieces: seq<seq<bv8>>)
    requires Concat(pieces) == []
    ensures ScanPieces(step, kept, pieces) == (kept, [])
    decreases |pieces|
  {
    if |pieces| != 0 {
      assert pieces[0] == [] && Concat(pieces[1..]) == [];
      EmptyPieces(step, kept, pieces[1..]);
    }
  }

  lemma {:induction false} PacketLeavesIdle(step: Step, kept: seq<bv8>, data: seq<bv8>)
    requires IdleAfterPacket(step)
    requires ScanPiece(step, kept, data).packet.Some?
    ensures ScanPiece(step, kept, data).kept == []
    decreases |data|
  {
    var s := Byte(step, kept, data[0]);
    if s.packet.None? {
      PacketLeavesIdle(step, s.kept, data[1..]);
    } else {
      assert s.kept == [];
    }
  }

  /** A stream whose packet opens right after `before` and is still open after `inside` is quiet all that time. */
  lemma {:induction false} QuietThroughout(step: Step, kept: seq<bv8>, quiet: seq<bv8>, last: bv8)
    requires ScanPiece(step, kept, quiet).packet.None?
    ensures CompleteAtEnd(step, kept, quiet + [last])
  {
    var stream := quiet + [last];
    forall n | 0 <= n < |stream| ensures ScanPiece(step, kept, stream[..n]).packet.None? {
      assert stream[..n] == quiet[..n] && quiet == quiet[..n] + quiet[n..];
      if ScanPiece(step, kept, quiet[..n]).packet.Some? {
        ScanStops(step, kept, quiet[..n], quiet[n..]);
      }
    }
  }
}
