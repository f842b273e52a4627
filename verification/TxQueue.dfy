/** The transmit side of a port: the ring buffer of include/module/RingBuf.h and the two-stage queue of
    src/module/IOperator.cpp in front of a `write` that takes as much as it likes. */
module TxQueue {
  /** A copy of `src` into `dst`, as memcpy makes it. */
  method Copy(dst: array<bv8>, at: nat, src: seq<bv8>)
    requires at + |src| <= dst.Length
    modifies dst
    ensures forall j :: at <= j < at + |src| ==> dst[j] == src[j - at]
    ensures forall j :: 0 <= j < at || at + |src| <= j < dst.Length ==> dst[j] == old(dst[j])
  {
    for i := 0 to |src|
      invariant forall j :: at <= j < at + i ==> dst[j] == src[j - at]
      invariant forall j :: 0 <= j < at || at + i <= j < dst.Length ==> dst[j] == old(dst[j])
    {
      dst[at + i] := src[i];
    }
  }

  // ----- Reading a buffer round its end -----

  function Wrap(n: nat, x: nat): nat {
    if x < n then x else x - n
  }

  /** `cnt` bytes of a buffer from `first` on. */
  function Ring(b: seq<bv8>, first: nat, cnt: nat): (c: seq<bv8>)
    requires (first < |b| || first == 0) && cnt <= |b|
    ensures |c| == cnt
  {
    seq(cnt, k requires 0 <= k < cnt => b[Wrap(|b|, first + k)])
  }

  /** How far position j is from `first`, going round. */
  function Offset(n: nat, first: nat, j: nat): int {
    if first <= j then j - first else j + n - first
  }

  lemma RingGrows(was: seq<bv8>, now: seq<bv8>, first: nat, cnt: nat, x: seq<bv8>)
    requires |now| == |was| && (first < |was| || first == 0) && cnt + |x| <= |was|
    requires forall j :: 0 <= j < |was| && Offset(|was|, first, j) < cnt ==> now[j] == was[j]
    requires forall j :: 0 <= j < |was| && cnt <= Offset(|was|, first, j) < cnt + |x| ==>
                           now[j] == x[Offset(|was|, first, j) - cnt]
    ensures Ring(now, first, cnt + |x|) == Ring(was, first, cnt) + x
  {
    var both := Ring(was, first, cnt) + x;
    forall k | 0 <= k < cnt + |x| ensures Ring(now, first, cnt + |x|)[k] == both[k] {
      assert Offset(|was|, first, Wrap(|was|, first + k)) == k;
    }
    assert Ring(now, first, cnt + |x|) == both;
  }

  lemma RingShrinks(b: seq<bv8>, first: nat, cnt: nat, n: nat)
    requires (first < |b| || first == 0) && n <= cnt <= |b|
    ensures var next := if Wrap(|b|, first + n) == |b| then 0 else Wrap(|b|, first + n);
            (next < |b| || next == 0) && Ring(b, next, cnt - n) == Ring(b, first, cnt)[n..]
  {
    var next := if Wrap(|b|, first + n) == |b| then 0 else Wrap(|b|, first + n);
    var part := Ring(b, first, cnt)[n..];
    assert |part| == cnt - n;
    forall k | 0 <= k < cnt - n ensures part[k] == Ring(b, next, cnt - n)[k] {
      assert part[k] == Ring(b, first, cnt)[n + k];
      assert Wrap(|b|, first + (n + k)) == Wrap(|b|, next + k);
    }
  }

  class RingBuf {
    const buf: array<bv8>
    var cnt: nat
    /** The push position is never at the end of the buffer; the pop position may rest there. */
    var pPush: nat
    var pPop: nat

    ghost predicate Valid()
      reads this
    {
      && cnt <= buf.Length && pPop <= buf.Length
      && (pPush < buf.Length || pPush == buf.Length == 0)
      && pPush == Wrap(buf.Length, First() + cnt)
    }

    ghost function First(): nat
      reads this
    {
      if pPop == buf.Length then 0 else pPop
    }

    /** The bytes in the buffer, oldest first. */
    ghost function Contents(): (c: seq<bv8>)
      requires Valid()
      reads this, buf
      ensures |c| == cnt
    {
      Ring(buf[..], First(), cnt)
    }

    constructor (size: nat)
      ensures Valid() && Contents() == [] && buf.Length == size && fresh(buf)
    {
      buf := new bv8[size];
      cnt, pPush, pPop := 0, 0, 0;
    }

    function Vacancy(): int
      reads this
    {
      buf.Length - cnt
    }

    /** As much of `inbuf` as there is room for. */
    method Push(inbuf: seq<bv8>) returns (len: nat)
      requires Valid()
      modifies this, buf
      ensures Valid()
      ensures len == if |inbuf| <= old(Vacancy()) then |inbuf| else old(Vacancy())
      ensures Contents() == old(Contents()) + inbuf[..len]
    {
      if |inbuf| == 0 {
        return 0;
      }
      len := |inbuf|;
      if len > Vacancy() {
        len := Vacancy();
      }
      ghost var was := buf[..];
      Store(inbuf[..len]);
      RingGrows(was, buf[..], First(), cnt, inbuf[..len]);
      cnt := cnt + len;
    }

    method Store(x: seq<bv8>)
      requires Valid() && |x| <= Vacancy()
      modifies this`pPush, buf
      ensures pPush == Wrap(buf.Length, old(pPush) + |x|) && (pPush < buf.Length || pPush == buf.Length == 0)
      ensures forall j :: 0 <= j < buf.Length && Offset(buf.Length, First(), j) < cnt ==> buf[j] == old(buf[j])
      ensures forall j :: 0 <= j < buf.Length && cnt <= Offset(buf.Length, First(), j) < cnt + |x| ==>
                            buf[j] == x[Offset(buf.Length, First(), j) - cnt]
    {
      var size1 := buf.Length - pPush;
      if size1 > |x| {
        Copy(buf, pPush, x);
        pPush := pPush + |x|;
      } else {
        Copy(buf, pPush, x[..size1]);
        Copy(buf, 0, x[size1..]);
        pPush := |x| - size1;
      }
    }

    /** As much as is there, up to `max`, into `outbuf`. */
    method Pop(outbuf: array<bv8>, max: nat) returns (len: nat)
      requires Valid() && max <= outbuf.Length && outbuf != buf
      modifies this, outbuf
      ensures Valid()
      ensures len == if max <= old(cnt) then max else old(cnt)
      ensures outbuf[..len] == old(Contents())[..len]
      ensures Contents() == old(Contents())[len..]
    {
      if cnt == 0 || max == 0 {
        return 0;
      }
      len := max;
      if len > cnt {
        len := cnt;
      }
      RingShrinks(buf[..], First(), cnt, len);
      Fetch(outbuf, len);
      cnt := cnt - len;
    }

    method Fetch(outbuf: array<bv8>, len: nat)
      requires Valid() && 0 < len <= cnt && len <= outbuf.Length && outbuf != buf
      modifies this`pPop, outbuf
      ensures pPop <= buf.Length && First() == Wrap(buf.Length, old(First()) + len)
      ensures forall k :: 0 <= k < len ==> outbuf[k] == buf[Wrap(buf.Length, old(First()) + k)]
    {
      var size1 := buf.Length - pPop;
      if len > size1 {
        Copy(outbuf, 0, buf[pPop..]);
        Copy(outbuf, size1, buf[..len - size1]);
        pPop := len - size1;
      } else {
        Copy(outbuf, 0, buf[pPop..pPop + len]);
        pPop := pPop + len;
      }
    }

    method Reset()
      modifies this
      ensures Valid() && Contents() == []
    {
      cnt, pPush, pPop := 0, 0, 0;
    }
  }

  const OPTXBUF_SIZE := 1024

  lemma Moved(written: seq<bv8>, rest: seq<bv8>, ring: seq<bv8>, n: nat)
    requires n <= |rest|
    ensures written + (rest + ring) == (written + rest[..n]) + (rest[n..] + ring)
  {}

  class Operator {
    const optxbuf: array<bv8>
    const ringBuf: RingBuf
    var open: bool
    var txsize: nat
    var txcnt: nat
    /** Whether the port waits for the descriptor to become writable. */
    var waiting: bool
    /** Every byte that `write` has taken, and every byte accepted from the layers above since the queue was last
        cleared by them, in order. */
    ghost var written: seq<bv8>
    ghost var accepted: seq<bv8>

    ghost function Repr(): set<object> {
      {this, optxbuf, ringBuf, ringBuf.buf}
    }

    ghost predicate Valid()
      reads Repr()
    {
      && optxbuf != ringBuf.buf
      && optxbuf.Length == OPTXBUF_SIZE
      && ringBuf.Valid()
      && txcnt <= txsize <= OPTXBUF_SIZE
    }

    /** What has been accepted and not been written. */
    ghost function Unsent(): seq<bv8>
      requires Valid()
      reads Repr()
    {
      optxbuf[txcnt..txsize] + ringBuf.Contents()
    }

    /** Nothing is lost, repeated or reordered, and while something is unsent the port waits for a chance to send it. */
    ghost predicate Conserved()
      reads Repr()
    {
      Valid() && accepted == written + Unsent() && (Unsent() != [] ==> waiting)
    }

    constructor (size: nat)
      ensures Conserved() && accepted == [] && ringBuf.buf.Length == size && fresh(Repr()) && open && !waiting
    {
      optxbuf := new bv8[OPTXBUF_SIZE];
      ringBuf := new RingBuf(size);
      open, txsize, txcnt, waiting, written, accepted := true, 0, 0, false, [], [];
    }

    predicate IsTxRdy()
      reads this, ringBuf
    {
      ringBuf.cnt == 0 && txsize == 0
    }

    /** The system call: it fails or takes a beginning of `data`; `taking` stands for its choice. */
    method Write(data: seq<bv8>, taking: int) returns (n: int)
      modifies this`written
      ensures n == if taking < 0 then -1 else if taking < |data| then taking else |data|
      ensures written == if n < 0 then old(written) else old(written) + data[..n]
    {
      n := if taking < 0 then -1 else if taking < |data| then taking else |data|;
      if n >= 0 {
        written := written + data[..n];
      }
    }

    /** Accepts all of `data` or nothing. */
    method TxBytes(data: seq<bv8>, taking: int) returns (r: int)
      requires Conserved()
      modifies Repr()
      ensures Conserved()
      ensures r == if r < 0 then -1 else |data|
      ensures accepted == if r < 0 then old(accepted) else old(accepted) + data
      ensures old(written) <= written
      ensures r >= 0 <==> old(open) && 0 < |data| <= old(ringBuf.Vacancy()) && (old(Unsent()) != [] || taking >= 0)
      ensures old(Unsent()) != [] || r < 0 ==> written == old(written)
      ensures r >= 0 && old(Unsent()) == [] ==>
                written == old(written) + data[..if taking < |data| then taking else |data|]
    {
      if ringBuf.Vacancy() < |data| || |data| <= 0 || !open {
        return -1;
      }
      if ringBuf.cnt > 0 || txcnt < txsize {
        assert |Unsent()| > 0;
        var pushed := ringBuf.Push(data);
        accepted := accepted + data;
        assert data[..|data|] == data;
      } else {
        assert Unsent() == [];
        var n := Write(data, taking);
        if n < 0 {
          return -1;
        }
        Stage(data, n);
      }
      return |data|;
    }

    /** What `write` has left of `data` is kept, and `data` counts as accepted. */
    method Stage(data: seq<bv8>, n: nat)
      requires Valid() && Unsent() == [] && n <= |data| <= ringBuf.Vacancy()
      requires written == accepted + data[..n]
      modifies Repr()
      ensures Conserved() && accepted == old(accepted) + data && written == old(written)
    {
      hide RingBuf.Valid, RingBuf.Contents;
      if n < |data| {
        Keep(data[n..]);
      }
      accepted := accepted + data;
      assert data == data[..n] + data[n..];
    }

    /** First in the small buffer, and what does not fit there in the ring. */
    method Keep(left: seq<bv8>)
      requires Valid() && Unsent() == [] && 0 < |left| <= ringBuf.Vacancy()
      modifies Repr()
      ensures Valid() && Unsent() == left && waiting && accepted == old(accepted) && written == old(written)
    {
      hide Ring, RingBuf.Valid;
      txcnt := 0;
      txsize := if |left| < OPTXBUF_SIZE then |left| else OPTXBUF_SIZE;
      Copy(optxbuf, 0, left[..txsize]);
      if |left| > txsize {
        var pushed := ringBuf.Push(left[txsize..]);
      }
      waiting := true;
      assert optxbuf[..txsize] == left[..txsize];
    }

    method ClrTx()
      requires Valid()
      modifies Repr()
      ensures Conserved() && Unsent() == [] && accepted == written == old(written) && !waiting && IsTxRdy()
    {
      txsize := 0;
      txcnt := 0;
      ringBuf.Reset();
      waiting := false;
      accepted := written;
    }

    /** The descriptor has become writable. */
    method TxHandle(taking: int) returns (r: nat)
      requires Conserved()
      modifies Repr()
      ensures Conserved() && accepted == old(accepted)
      ensures old(written) <= written
      ensures old(Unsent()) != [] && taking > 0 ==> |written| > |old(written)|
      ensures old(Unsent()) == [] ==> r == 0 && IsTxRdy()
    {
      if txcnt == txsize {
        if ringBuf.cnt == 0 {
          ClrTx();
          return 0;
        }
        Refill();
      }
      r := SendRest(taking);
    }

    /** Writes from the small buffer what `write` takes. */
    method SendRest(taking: int) returns (r: nat)
      requires Conserved() && txcnt < txsize
      modifies this`written, this`txcnt
      ensures Conserved() && accepted == old(accepted)
      ensures old(written) <= written && r == txsize - txcnt
      ensures taking > 0 ==> |written| > |old(written)|
    {
      hide RingBuf.Valid, RingBuf.Contents;
      var rest := optxbuf[txcnt..txsize];
      ghost var ring := ringBuf.Contents();
      var n := Write(rest, taking);
      if n > 0 {
        Moved(old(written), rest, ring, n);
        assert rest[n..] == optxbuf[txcnt + n..txsize];
        txcnt := txcnt + n;
      }
      r := txsize - txcnt;
    }

    /** The small buffer is filled again from the ring. */
    method Refill()
      requires Conserved() && txcnt == txsize && ringBuf.cnt > 0
      modifies Repr()
      ensures Conserved() && txcnt < txsize && Unsent() == old(Unsent())
      ensures accepted == old(accepted) && written == old(written) && waiting == old(waiting)
    {
      var popped := ringBuf.Pop(optxbuf, OPTXBUF_SIZE);
      txsize := popped;
      txcnt := 0;
    }

    /** When the port reports that it is ready, everything accepted has been written. */
    lemma ReadyMeansSent()
      requires Conserved() && IsTxRdy()
      ensures written == accepted
    {}
  }
}
