/** Messages: the record of src/tsisp003/Message.cpp, the check it passes before it is stored, and its byte image. */
module Messages {
  import opened Bytes

  const SignSetMessage: byte := 0x0C
  const MSG_LEN_MAX := 4 + 2 * 6
  const MSG_LEN_MIN := 4 + 2 * 1 + 1
  const MSG_TAIL := 2
  const MAX_ENTRIES := 6

  datatype AppError = AppNoError | SyntaxError | LengthError | UnknownMi | FrmMsgPlnUndefined

  datatype MsgEntry = MsgEntry(frmId: byte, onTime: byte)

  /** `crc` is the two-byte tail as received. */
  datatype Message = Message(msgId: byte, msgRev: byte, transTime: byte, entries: seq<MsgEntry>, crc: (byte, byte))

  ghost predicate ValidMessage(m: Message) {
    && m.msgId != 0
    && 1 <= |m.entries| <= MAX_ENTRIES
    && forall e :: e in m.entries ==> e.frmId != 0
  }

  predicate AllDefined(entries: seq<MsgEntry>, frames: set<byte>) {
    forall e :: e in entries ==> e.frmId in frames
  }

  // ----- Images -----

  /** The entries from the i-th on, closed by a zero unless all six are used. */
  function EntriesImage(list: seq<MsgEntry>, i: nat): (bytes: seq<byte>)
    requires i + |list| <= MAX_ENTRIES
    ensures |bytes| == 2 * |list| + (if i + |list| < MAX_ENTRIES then 1 else 0)
    decreases |list|
  {
    if |list| > 0 then [list[0].frmId, list[0].onTime] + EntriesImage(list[1..], i + 1)
    else if i < MAX_ENTRIES then [0]
    else []
  }

  function Image(m: Message): (bytes: seq<byte>)
    requires |m.entries| <= MAX_ENTRIES
  {
    [SignSetMessage, m.msgId, m.msgRev, m.transTime] + EntriesImage(m.entries, 0) + [m.crc.0, m.crc.1]
  }

  // ----- Reading -----

  /** The entries found at the i-th place and after it. */
  function ReadEntries(x: seq<byte>, i: nat): (list: seq<MsgEntry>)
    requires i <= MAX_ENTRIES && MSG_LEN_MAX <= |x|
    ensures i + |list| <= MAX_ENTRIES && forall e :: e in list ==> e.frmId != 0
    decreases MAX_ENTRIES - i
  {
    var at := 4 + 2 * i;
    if i == MAX_ENTRIES || x[at] == 0 then [] else [MsgEntry(x[at], x[at + 1])] + ReadEntries(x, i + 1)
  }

  /** Where the cursor stops. */
  function End(x: seq<byte>): nat
    requires MSG_LEN_MAX <= |x|
  {
    var n := |ReadEntries(x, 0)|;
    4 + 2 * n + if n < MAX_ENTRIES then 1 else 0
  }

  /** The verdict of `Init` on the first `xlen` bytes of a buffer. */
  function Verdict(x: seq<byte>, xlen: nat, frames: set<byte>): AppError
    requires MSG_LEN_MAX <= |x| && MSG_TAIL <= xlen <= |x|
  {
    if x[0] != SignSetMessage then UnknownMi
    else if xlen < MSG_LEN_MIN + MSG_TAIL || xlen > MSG_LEN_MAX + MSG_TAIL then LengthError
    else if x[1] == 0 then SyntaxError
    else if x[4] == 0 then LengthError
    else if End(x) != xlen - MSG_TAIL then LengthError
    else if !AllDefined(ReadEntries(x, 0), frames) then FrmMsgPlnUndefined
    else AppNoError
  }

  function Read(x: seq<byte>, xlen: nat): Message
    requires MSG_LEN_MAX <= |x| && MSG_TAIL <= xlen <= |x|
  {
    Message(x[1], x[2], x[3], ReadEntries(x, 0), (x[xlen - 2], x[xlen - 1]))
  }

  // ----- Reading against printing -----

  ghost predicate StandsAt(x: seq<byte>, at: nat, part: seq<byte>) {
    at + |part| <= |x| && x[at..at + |part|] == part
  }

  /** The bytes of an entries image, one entry at a time. */
  lemma {:induction false} EntryStands(x: seq<byte>, i: nat, e: MsgEntry, rest: seq<MsgEntry>)
    requires i + 1 + |rest| <= MAX_ENTRIES && MSG_LEN_MAX <= |x|
    ensures StandsAt(x, 4 + 2 * i, EntriesImage([e] + rest, i)) <==>
            x[4 + 2 * i] == e.frmId && x[5 + 2 * i] == e.onTime
            && StandsAt(x, 4 + 2 * (i + 1), EntriesImage(rest, i + 1))
  {
    assert ([e] + rest)[1..] == rest;
    var at, tail := 4 + 2 * i, EntriesImage(rest, i + 1);
    var whole := [e.frmId, e.onTime] + tail;
    assert EntriesImage([e] + rest, i) == whole;
    if StandsAt(x, at, whole) {
      assert x[at..at + |whole|][0] == whole[0] && x[at..at + |whole|][1] == whole[1];
      assert x[at + 2..at + |whole|] == x[at..at + |whole|][2..] == tail;
    }
    if at + |whole| <= |x| && x[at] == e.frmId && x[at + 1] == e.onTime && x[at + 2..at + 2 + |tail|] == tail {
      assert x[at..at + |whole|] == [x[at], x[at + 1]] + x[at + 2..at + 2 + |tail|];
    }
  }

  lemma {:induction false} ReadThenPrint(x: seq<byte>, i: nat)
    requires i <= MAX_ENTRIES && MSG_LEN_MAX <= |x|
    ensures StandsAt(x, 4 + 2 * i, EntriesImage(ReadEntries(x, i), i))
    decreases MAX_ENTRIES - i
  {
    hide StandsAt;
    if i == MAX_ENTRIES || x[4 + 2 * i] == 0 {
      EndStands(x, i);
    } else {
      ReadThenPrint(x, i + 1);
      EntryStands(x, i, MsgEntry(x[4 + 2 * i], x[5 + 2 * i]), ReadEntries(x, i + 1));
    }
  }

  lemma {:induction false} EndStands(x: seq<byte>, i: nat)
    requires i <= MAX_ENTRIES && MSG_LEN_MAX <= |x|
    ensures StandsAt(x, 4 + 2 * i, EntriesImage([], i)) <==> i == MAX_ENTRIES || x[4 + 2 * i] == 0
  {
    if i < MAX_ENTRIES {
      assert x[4 + 2 * i..4 + 2 * i + 1] == [x[4 + 2 * i]];
    }
  }

  lemma {:induction false} PrintThenRead(x: seq<byte>, list: seq<MsgEntry>, i: nat)
    requires i + |list| <= MAX_ENTRIES && MSG_LEN_MAX <= |x|
    requires forall e :: e in list ==> e.frmId != 0
    requires StandsAt(x, 4 + 2 * i, EntriesImage(list, i))
    ensures ReadEntries(x, i) == list
    decreases |list|
  {
    hide StandsAt;
    if list == [] {
      EndStands(x, i);
    } else {
      assert list == [list[0]] + list[1..];
      EntryStands(x, i, list[0], list[1..]);
      PrintThenRead(x, list[1..], i + 1);
    }
  }

  /** Exactly the images of messages of one to six entries with defined frames are accepted, and an accepted image is the
      image of the message read from it. */
  lemma AcceptedImages(x: seq<byte>, xlen: nat, frames: set<byte>)
    requires MSG_LEN_MAX <= |x| && MSG_TAIL <= xlen <= |x|
    ensures Verdict(x, xlen, frames) == AppNoError <==>
            exists m :: ValidMessage(m) && AllDefined(m.entries, frames) && Image(m) == x[..xlen]
    ensures Verdict(x, xlen, frames) == AppNoError ==> ValidMessage(Read(x, xlen)) && Image(Read(x, xlen)) == x[..xlen]
    ensures forall m :: ValidMessage(m) && Image(m) == x[..xlen] ==> Read(x, xlen) == m
  {
    if Verdict(x, xlen, frames) == AppNoError {
      AcceptedIsImage(x, xlen, frames);
    }
    forall m | ValidMessage(m) && Image(m) == x[..xlen]
      ensures Read(x, xlen) == m && (AllDefined(m.entries, frames) ==> Verdict(x, xlen, frames) == AppNoError)
    {
      ImageIsAccepted(m, x, xlen, frames);
    }
  }

  lemma AcceptedIsImage(x: seq<byte>, xlen: nat, frames: set<byte>)
    requires MSG_LEN_MAX <= |x| && MSG_TAIL <= xlen <= |x| && Verdict(x, xlen, frames) == AppNoError
    ensures ValidMessage(Read(x, xlen)) && AllDefined(Read(x, xlen).entries, frames)
    ensures Image(Read(x, xlen)) == x[..xlen]
  {
    hide EntriesImage, ReadEntries, StandsAt, AllDefined, Image;
    ReadThenPrint(x, 0);
    ReadingStep(x, 0);
    ImageAssembled(Read(x, xlen), x, xlen);
  }

  lemma ImageAssembled(m: Message, x: seq<byte>, xlen: nat)
    requires |m.entries| <= MAX_ENTRIES && 6 <= xlen <= |x|
    requires x[0] == SignSetMessage && x[1] == m.msgId && x[2] == m.msgRev && x[3] == m.transTime
    requires x[xlen - 2] == m.crc.0 && x[xlen - 1] == m.crc.1
    requires StandsAt(x, 4, EntriesImage(m.entries, 0)) && xlen == 6 + |EntriesImage(m.entries, 0)|
    ensures Image(m) == x[..xlen]
  {
    hide EntriesImage;
    assert x[..xlen] == x[..4] + x[4..xlen - 2] + x[xlen - 2..xlen];
    assert x[..4] == [SignSetMessage, m.msgId, m.msgRev, m.transTime];
  }

  lemma ReadingStep(x: seq<byte>, i: nat)
    requires i <= MAX_ENTRIES && MSG_LEN_MAX <= |x|
    ensures ReadEntries(x, i) ==
            if i == MAX_ENTRIES || x[4 + 2 * i] == 0 then []
            else [MsgEntry(x[4 + 2 * i], x[5 + 2 * i])] + ReadEntries(x, i + 1)
  {}

  lemma ImageIsAccepted(m: Message, x: seq<byte>, xlen: nat, frames: set<byte>)
    requires MSG_LEN_MAX <= |x| && MSG_TAIL <= xlen <= |x| && ValidMessage(m) && Image(m) == x[..xlen]
    ensures Read(x, xlen) == m
    ensures AllDefined(m.entries, frames) ==> Verdict(x, xlen, frames) == AppNoError
  {
    hide EntriesImage, ReadEntries, StandsAt, AllDefined, Image;
    ImageParts(m, x, xlen);
    PrintThenRead(x, m.entries, 0);
    FirstEntry(x, m.entries);
  }

  lemma {:induction false} FirstEntry(x: seq<byte>, list: seq<MsgEntry>)
    requires 0 < |list| && MSG_LEN_MAX <= |x| && ReadEntries(x, 0) == list
    ensures x[4] != 0
  {}

  lemma ImageParts(m: Message, x: seq<byte>, xlen: nat)
    requires |m.entries| <= MAX_ENTRIES && xlen <= |x| && Image(m) == x[..xlen]
    ensures xlen == 6 + |EntriesImage(m.entries, 0)|
    ensures StandsAt(x, 4, EntriesImage(m.entries, 0))
    ensures x[0] == SignSetMessage && x[1] == m.msgId && x[2] == m.msgRev && x[3] == m.transTime
    ensures (x[xlen - 2], x[xlen - 1]) == m.crc
  {
    hide EntriesImage;
    var head := x[..xlen];
    assert x[4..xlen - 2] == head[4..xlen - 2];
    assert forall k :: 0 <= k < xlen ==> x[k] == head[k];
    assert head[..4] == [SignSetMessage, m.msgId, m.msgRev, m.transTime];
  }

  // ----- Byte by byte -----

  lemma {:induction false} EntriesByBytes(list: seq<MsgEntry>, i: nat, k: nat)
    requires i + |list| <= MAX_ENTRIES && k < |list|
    ensures EntriesImage(list, i)[2 * k] == list[k].frmId && EntriesImage(list, i)[2 * k + 1] == list[k].onTime
    decreases k
  {
    if k > 0 {
      EntriesByBytes(list[1..], i + 1, k - 1);
    }
  }

  lemma {:induction false} ClosingByte(list: seq<MsgEntry>, i: nat)
    requires i + |list| < MAX_ENTRIES
    ensures EntriesImage(list, i)[2 * |list|] == 0
    decreases |list|
  {
    if |list| > 0 {
      ClosingByte(list[1..], i + 1);
    }
  }

  /** The image of a message: the message code, the id, the revision, the transition time, a frame and a time for each
      entry, a zero unless there are six, and the tail. */
  lemma ImageByBytes(m: Message)
    requires |m.entries| <= 6
    ensures var x, n := Image(m), |m.entries|;
            && |x| == 2 * n + (if n < 6 then 7 else 6)
            && x[0] == 0x0C && x[1] == m.msgId && x[2] == m.msgRev && x[3] == m.transTime
            && (forall k :: 0 <= k < n ==> x[4 + 2 * k] == m.entries[k].frmId && x[5 + 2 * k] == m.entries[k].onTime)
            && (n < 6 ==> x[4 + 2 * n] == 0)
            && x[|x| - 2] == m.crc.0 && x[|x| - 1] == m.crc.1
  {
    hide EntriesImage;
    var x, n := Image(m), |m.entries|;
    var body := EntriesImage(m.entries, 0);
    assert forall q :: 0 <= q < |body| ==> body[q] == x[4 + q];
    forall k | 0 <= k < n ensures x[4 + 2 * k] == m.entries[k].frmId && x[5 + 2 * k] == m.entries[k].onTime {
      EntriesByBytes(m.entries, 0, k);
      assert body[2 * k] == x[4 + 2 * k] && body[2 * k + 1] == x[4 + (2 * k + 1)];
    }
    if n < 6 {
      ClosingByte(m.entries, 0);
    }
  }

  /** The first `xlen` bytes of a buffer hold n defined frames and nothing else between the header and the tail. */
  ghost predicate HoldsEntries(x: seq<byte>, xlen: nat, frames: set<byte>, n: nat)
    requires MSG_LEN_MAX <= |x|
  {
    && 1 <= n <= 6 && xlen == 2 * n + (if n < 6 then 7 else 6) && (n < 6 ==> x[4 + 2 * n] == 0)
    && forall k :: 0 <= k < n ==> x[4 + 2 * k] != 0 && x[4 + 2 * k] in frames
  }

  /** Byte by byte, a message is accepted exactly when it begins with the message code, an id other than 0 and any
      revision and transition time, and goes on with one to six defined frames and their times. */
  lemma AcceptedByBytes(x: seq<byte>, xlen: nat, frames: set<byte>)
    requires MSG_LEN_MAX <= |x| && MSG_TAIL <= xlen <= |x|
    ensures Verdict(x, xlen, frames) == AppNoError <==>
            x[0] == 0x0C && x[1] != 0 && exists n :: HoldsEntries(x, xlen, frames, n)
  {
    hide Verdict, HoldsEntries;
    AcceptedImages(x, xlen, frames);
    if Verdict(x, xlen, frames) == AppNoError {
      ReadHolds(Read(x, xlen), x, xlen, frames);
    }
    if x[0] == 0x0C && x[1] != 0 {
      forall n | HoldsEntries(x, xlen, frames, n) ensures Verdict(x, xlen, frames) == AppNoError {
        HeldIsImage(x, xlen, frames, n);
      }
    }
  }

  lemma ReadHolds(m: Message, x: seq<byte>, xlen: nat, frames: set<byte>)
    requires MSG_LEN_MAX <= |x| && xlen <= |x|
    requires ValidMessage(m) && AllDefined(m.entries, frames) && Image(m) == x[..xlen]
    ensures x[0] == 0x0C && x[1] != 0 && HoldsEntries(x, xlen, frames, |m.entries|)
  {
    hide Image;
    ImageByBytes(m);
    assert forall q :: 0 <= q < xlen ==> x[..xlen][q] == x[q];
    forall k | 0 <= k < |m.entries| ensures x[4 + 2 * k] != 0 && x[4 + 2 * k] in frames {
      assert m.entries[k] in m.entries;
    }
  }

  lemma HeldIsImage(x: seq<byte>, xlen: nat, frames: set<byte>, n: nat)
    requires MSG_LEN_MAX <= |x| && MSG_TAIL <= xlen <= |x|
    requires x[0] == 0x0C && x[1] != 0 && HoldsEntries(x, xlen, frames, n)
    ensures exists m :: ValidMessage(m) && AllDefined(m.entries, frames) && Image(m) == x[..xlen]
  {
    hide Image;
    var list := seq(n, k requires 0 <= k < n => MsgEntry(x[4 + 2 * k], x[5 + 2 * k]));
    var m := Message(x[1], x[2], x[3], list, (x[xlen - 2], x[xlen - 1]));
    ImageByBytes(m);
    var y := Image(m);
    forall q | 0 <= q < xlen ensures y[q] == x[q] {
      if 4 <= q < 4 + 2 * n {
        var k, r := (q - 4) / 2, (q - 4) % 2;
        assert y[4 + 2 * k] == list[k].frmId && y[5 + 2 * k] == list[k].onTime;
        assert q == 4 + 2 * k + r;
      }
    }
    assert y == x[..xlen];
  }

  // ----- The object -----

  class MessageObject {
    var micode: byte
    var msgId: byte
    var msgRev: byte
    var transTime: byte
    var entries: nat
    const msgEntries: array<MsgEntry>
    var crc: (byte, byte)

    ghost predicate Valid() {
      msgEntries.Length == MAX_ENTRIES
    }

    /** `micode` stays 0 until an image has been accepted. */
    ghost predicate Defined()
      requires Valid()
      reads this, msgEntries
    {
      && micode == SignSetMessage && 1 <= entries <= MAX_ENTRIES
      && (forall k :: 0 <= k < entries ==> msgEntries[k].frmId != 0)
      && (entries < MAX_ENTRIES ==> msgEntries[entries].frmId == 0)
    }

    ghost function View(): Message
      requires Valid() && entries <= MAX_ENTRIES
      reads this, msgEntries
    {
      Message(msgId, msgRev, transTime, msgEntries[..entries], crc)
    }

    constructor ()
      ensures Valid() && micode == 0 && fresh(msgEntries)
    {
      micode, msgId, msgRev, transTime, entries, crc := 0, 0, 0, 0, 0, (0, 0);
      msgEntries := new MsgEntry[MAX_ENTRIES](_ => MsgEntry(0, 0));
    }

    /** `frames` are the ids defined in the store. The cursor may run past `xlen` inside the buffer. */
    method Init(x: seq<byte>, xlen: nat, frames: set<byte>) returns (r: AppError)
      requires Valid() && MSG_LEN_MAX <= |x| && MSG_TAIL <= xlen <= |x|
      modifies this, msgEntries
      ensures r == Verdict(x, xlen, frames)
      ensures r == AppNoError ==> Defined() && View() == Read(x, xlen)
      ensures r != AppNoError ==> micode == 0
    {
      micode := 0;
      msgId, msgRev, transTime := x[1], x[2], x[3];
      crc := (x[xlen - 2], x[xlen - 1]);
      if x[0] != SignSetMessage {
        return UnknownMi;
      }
      if xlen < MSG_LEN_MIN + MSG_TAIL || xlen > MSG_LEN_MAX + MSG_TAIL {
        return LengthError;
      }
      if msgId == 0 {
        return SyntaxError;
      }
      var some, p := Parse(x);
      if !some {
        return LengthError;
      }
      if p != xlen - MSG_TAIL {
        return LengthError;
      }
      if !AllDefined(msgEntries[..entries], frames) {
        return FrmMsgPlnUndefined;
      }
      micode := SignSetMessage;
      return AppNoError;
    }

    /** The loop over the six places for entries; `p` is where the cursor stops. */
    method Parse(x: seq<byte>) returns (some: bool, p: nat)
      requires Valid() && MSG_LEN_MAX <= |x|
      modifies this`entries, msgEntries
      ensures some <==> x[4] != 0
      ensures some ==>
                && p == End(x) && 1 <= entries <= MAX_ENTRIES && msgEntries[..entries] == ReadEntries(x, 0)
                && (forall k :: 0 <= k < entries ==> msgEntries[k].frmId != 0)
                && (entries < MAX_ENTRIES ==> msgEntries[entries].frmId == 0)
    {
      hide ReadEntries;
      p := 4;
      entries := 0;
      var i := 0;
      while i < MAX_ENTRIES
        invariant 0 <= i <= MAX_ENTRIES && entries == i && p == 4 + 2 * i
        invariant ReadEntries(x, 0) == msgEntries[..i] + ReadEntries(x, i)
        invariant forall k :: 0 <= k < i ==> msgEntries[k].frmId != 0
        invariant i > 0 ==> x[4] != 0
      {
        ReadingStep(x, i);
        ghost var done := msgEntries[..i];
        msgEntries[i] := msgEntries[i].(frmId := x[p]);
        p := p + 1;
        assert msgEntries[..i] == done;
        if msgEntries[i].frmId == 0 {
          if i == 0 {
            return false, p;
          }
          break;
        }
        msgEntries[i] := msgEntries[i].(onTime := x[p]);
        p := p + 1;
        entries := entries + 1;
        i := i + 1;
        assert msgEntries[..i] == done + [msgEntries[i - 1]];
        Peel(done, msgEntries[i - 1], ReadEntries(x, i));
      }
      ReadingStep(x, i);
      assert msgEntries[..i] + [] == msgEntries[..i];
      some := true;
    }

    /** Prints the message at the start of `pbuf` and returns its length. */
    method ToArray(pbuf: array<byte>) returns (n: nat)
      requires Valid() && Defined() && pbuf.Length >= MSG_LEN_MAX + MSG_TAIL
      modifies pbuf
      ensures n <= pbuf.Length && pbuf[..n] == Image(View())
    {
      hide EntriesImage;
      pbuf[0], pbuf[1], pbuf[2], pbuf[3] := micode, msgId, msgRev, transTime;
      ghost var head := pbuf[..4];
      assert head == [SignSetMessage, msgId, msgRev, transTime];
      n := PrintEntries(pbuf);
      ghost var body := pbuf[..n];
      pbuf[n], pbuf[n + 1] := crc.0, crc.1;
      n := n + 2;
      assert pbuf[..n] == body + [crc.0, crc.1];
    }

    /** The loop over the places, which stops behind the first empty one. */
    method PrintEntries(pbuf: array<byte>) returns (n: nat)
      requires Valid() && Defined() && pbuf.Length >= MSG_LEN_MAX + MSG_TAIL
      modifies pbuf
      ensures n == 4 + |EntriesImage(msgEntries[..entries], 0)|
      ensures pbuf[..n] == old(pbuf[..4]) + EntriesImage(msgEntries[..entries], 0)
    {
      hide EntriesImage;
      ghost var list := msgEntries[..entries];
      ghost var out := pbuf[..4];
      n := 4;
      var i := 0;
      assert list[0..] == list;
      while i < MAX_ENTRIES
        invariant 0 <= i <= entries && n == 4 + 2 * i
        invariant pbuf[..n] == out
        invariant out + EntriesImage(list[i..], i) == old(pbuf[..4]) + EntriesImage(list, 0)
        decreases MAX_ENTRIES - i
      {
        ImageStep(list[i..], i);
        pbuf[n] := msgEntries[i].frmId;
        n := n + 1;
        assert pbuf[..n] == out + [msgEntries[i].frmId];
        if msgEntries[i].frmId == 0 {
          return;
        }
        assert list[i..][0] == msgEntries[i] && list[i..][1..] == list[i + 1..];
        pbuf[n] := msgEntries[i].onTime;
        n := n + 1;
        ghost var two := [msgEntries[i].frmId, msgEntries[i].onTime];
        Reassociate(out, two, EntriesImage(list[i + 1..], i + 1));
        out := out + two;
        i := i + 1;
      }
      ImageStep(list[i..], i);
      assert out + [] == out;
    }
  }

  lemma ImageStep(list: seq<MsgEntry>, i: nat)
    requires i + |list| <= MAX_ENTRIES
    ensures EntriesImage(list, i) ==
            if |list| > 0 then [list[0].frmId, list[0].onTime] + EntriesImage(list[1..], i + 1)
            else if i < MAX_ENTRIES then [0] else []
  {}

  lemma Peel(done: seq<MsgEntry>, e: MsgEntry, rest: seq<MsgEntry>)
    ensures done + ([e] + rest) == (done + [e]) + rest
  {}

  lemma Reassociate(a: seq<byte>, b: seq<byte>, c: seq<byte>)
    ensures a + (b + c) == (a + b) + c
  {}

  /** An accepted image, read into a message object and printed again, comes back byte for byte. */
  method ReadAndPrint(message: MessageObject, x: seq<byte>, xlen: nat, frames: set<byte>, pbuf: array<byte>)
    returns (r: AppError, n: nat)
    requires message.Valid() && MSG_LEN_MAX <= |x| && MSG_TAIL <= xlen <= |x|
    requires pbuf.Length >= MSG_LEN_MAX + MSG_TAIL
    modifies message, message.msgEntries, pbuf
    ensures r == AppNoError ==> n == xlen && n <= pbuf.Length && pbuf[..n] == x[..xlen]
  {
    r := message.Init(x, xlen, frames);
    n := 0;
    if r == AppNoError {
      AcceptedIsImage(x, xlen, frames);
      n := message.ToArray(pbuf);
    }
  }
}
