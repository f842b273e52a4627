/** The commands, polls and checks of src/sign/Group.cpp over the slave objects of one group. The lower layer, the bus
    lock and the images kept for the status page are left out. */
module GroupBus {
  import opened SlaveBus
  import opened Words
  import C = Crc
  import H = Hex

  function SlotByte(slot: Slot): bv8 {
    match slot
    case 0 => 0 case 1 => 1 case 2 => 2 case 3 => 3 case 4 => 4 case 5 => 5 case _ => 6
  }

  /** A frame for a slave as the frame maker leaves it: the command, a place for the slot, and the rest. */
  datatype Packet = Packet(command: bv8, rest: seq<bv8>)

  function PacketBytes(p: Packet, slot: Slot): seq<bv8> {
    [p.command, SlotByte(slot)] + p.rest
  }

  /** The checksum that goes with a frame, and that a slave reports back: over the hexadecimal text of the packet. */
  function PacketCrc(p: Packet, slot: Slot): bv16 {
    C.Crc8005(H.Encode(PacketBytes(p, slot)))
  }

  /** That text: two digits of the command, two of the slot, and those of the rest. */
  lemma PacketByDigits(p: Packet, slot: Slot)
    ensures SlotByte(slot) as int == slot
    ensures var text := H.Encode(PacketBytes(p, slot));
            && |text| == 4 + 2 * |p.rest|
            && H.PrintedAt(text, 0, p.command) && text[2] == 0x30 && text[3] as int == 0x30 + slot
            && text[4..] == H.Encode(p.rest)
  {
    hide H.Pair, H.UpperDigit, SlotByte;
    var bytes := PacketBytes(p, slot);
    var text := H.Encode(bytes);
    SlotIsByte(slot);
    H.TextAt(bytes, 0);
    H.TextAt(bytes, 1);
    H.UpperAt(0);
    H.UpperAt(slot);
    assert bytes[1..][1..] == p.rest;
    assert text[2..] == H.Encode(bytes[1..]);
    assert text[2..][2..] == H.Encode(bytes[1..][1..]);
  }

  lemma SlotIsByte(slot: Slot)
    ensures SlotByte(slot) as int == slot
  {}

  class Bus {
    const vSlaves: seq<Slave>
    ghost const kinds: seq<Kind>
    var deviceEnDisCur: bool
    var allSlavesCurrent: int
    var allSlavesNext: int
    /** Everything that happened on the bus. */
    ghost var trace: Trace

    ghost predicate Valid()
      reads this, vSlaves
    {
      && |kinds| == |vSlaves|
      && (forall i, j :: 0 <= i < j < |vSlaves| ==> vSlaves[i] != vSlaves[j])
      && forall i :: 0 <= i < |vSlaves| ==> SlaveAgrees(i, After(kinds, i, trace))
    }

    ghost predicate SlaveAgrees(i: nat, s: SlaveState)
      requires i < |kinds| == |vSlaves|
      reads vSlaves
    {
      vSlaves[i].slaveId == kinds[i].id && vSlaves[i].isSimSlave == kinds[i].sim && vSlaves[i].View() == s
    }

    constructor (slaves: seq<Slave>, ghost kinds: seq<Kind>)
      requires |kinds| == |slaves|
      requires forall i, j :: 0 <= i < j < |slaves| ==> slaves[i] != slaves[j]
      requires forall i :: 0 <= i < |slaves| ==>
                 slaves[i].slaveId == kinds[i].id && slaves[i].isSimSlave == kinds[i].sim && slaves[i].View() == Silent
      ensures Valid() && trace == [] && this.kinds == kinds && vSlaves == slaves
    {
      vSlaves, this.kinds, trace := slaves, kinds, [];
    }

    method EnDisDevice(on: bool)
      requires Valid()
      modifies this`deviceEnDisCur
      ensures Valid() && deviceEnDisCur == on
    {
      deviceEnDisCur := on;
    }

    /** Notes an event whose effect the slave objects already show. */
    ghost method Record(e: Event)
      requires |kinds| == |vSlaves|
      requires forall i, j :: 0 <= i < j < |vSlaves| ==> vSlaves[i] != vSlaves[j]
      requires forall i :: 0 <= i < |vSlaves| ==> SlaveAgrees(i, ApplyOne(kinds, i, After(kinds, i, trace), e))
      modifies this`trace
      ensures Valid() && trace == old(trace) + [e]
    {
      hide ApplyOne, After;
      forall i | 0 <= i < |kinds| {
        AfterGrows(kinds, i, trace, e);
      }
      trace := trace + [e];
    }

    /** `SlaveSetFrame`. */
    method SlaveSetFrame(slvId: bv8, slvFrmId: Slot, uciFrmId: int, packet: Packet)
      requires Valid()
      modifies this`trace, vSlaves
      ensures Valid()
      ensures trace == if slvFrmId == 0 || uciFrmId == 0 || !deviceEnDisCur then old(trace)
                       else old(trace) + [SetFrame(slvId, slvFrmId, PacketCrc(packet, slvFrmId))]
    {
      if slvFrmId == 0 || uciFrmId == 0 {
        return;
      }
      if deviceEnDisCur {
        var crc := TextCrc(PacketBytes(packet, slvFrmId));
        ExpectNext(slvId, slvFrmId, crc);
      }
    }

    method TextCrc(bytes: seq<bv8>) returns (crc: bv16)
      ensures crc == C.Crc8005(H.Encode(bytes))
    {
      var asc := new bv8[2 * |bytes|];
      H.ParseToAsc(bytes, asc, 0);
      crc := C.Crc16_8005(asc[..]);
      assert asc[..] == asc[0..2 * |bytes|];
    }

    method ExpectNext(slvId: bv8, slvFrmId: Slot, crc: bv16)
      requires Valid()
      modifies this`trace, vSlaves
      ensures Valid() && trace == old(trace) + [SetFrame(slvId, slvFrmId, crc)]
    {
      hide After;
      ghost var e := SetFrame(slvId, slvFrmId, crc);
      for i := 0 to |vSlaves|
        invariant trace == old(trace)
        invariant forall j :: 0 <= j < i ==> SlaveAgrees(j, ApplyOne(kinds, j, After(kinds, j, trace), e))
        invariant forall j :: i <= j < |vSlaves| ==> SlaveAgrees(j, After(kinds, j, trace))
      {
        var s := vSlaves[i];
        if slvId == EVERY || slvId == s.slaveId {
          s.expectNextFrmId := slvFrmId;
          s.frmNextCrc := s.frmNextCrc[slvFrmId := crc];
        }
      }
      Record(e);
    }

    /** `SlaveSDFrame`, under both `SlaveSetStoredFrame` and `SlaveDisplayFrame`: a disabled device shows slot 0. */
    method SlaveSDFrame(slvId: bv8, slvFrmId: Slot)
      requires Valid()
      modifies this`trace, vSlaves
      ensures Valid() && trace == old(trace) + [Show(slvId, if deviceEnDisCur then slvFrmId else 0)]
    {
      hide After;
      var slot := if deviceEnDisCur then slvFrmId else 0;
      ghost var e := Show(slvId, slot);
      for i := 0 to |vSlaves|
        invariant trace == old(trace)
        invariant forall j :: 0 <= j < i ==> SlaveAgrees(j, ApplyOne(kinds, j, After(kinds, j, trace), e))
        invariant forall j :: i <= j < |vSlaves| ==> SlaveAgrees(j, After(kinds, j, trace))
      {
        var s := vSlaves[i];
        if slvId == s.slaveId || slvId == EVERY {
          s.NoteShown(slot);
        }
      }
      Record(e);
    }

    method AllSlavesUpdateCurrentBak()
      requires Valid()
      modifies this`trace, vSlaves
      ensures Valid() && trace == old(trace) + [Backup]
    {
      hide After;
      for i := 0 to |vSlaves|
        invariant trace == old(trace)
        invariant forall j :: 0 <= j < i ==> SlaveAgrees(j, ApplyOne(kinds, j, After(kinds, j, trace), Backup))
        invariant forall j :: i <= j < |vSlaves| ==> SlaveAgrees(j, After(kinds, j, trace))
      {
        var s := vSlaves[i];
        s.currentFrmIdBak := s.expectCurrentFrmId;
      }
      Record(Backup);
    }

    /** The part of `TaskRqstSlaveReset` that concerns the slaves. */
    method ClrAllSlavesRxStatus()
      requires Valid()
      modifies this`trace, vSlaves
      ensures Valid() && trace == old(trace) + [Clear]
    {
      hide After;
      for i := 0 to |vSlaves|
        invariant trace == old(trace)
        invariant forall j :: 0 <= j < i ==> SlaveAgrees(j, ApplyOne(kinds, j, After(kinds, j, trace), Clear))
        invariant forall j :: i <= j < |vSlaves| ==> SlaveAgrees(j, After(kinds, j, trace))
      {
        vSlaves[i].rxStatus := false;
      }
      Record(Clear);
    }

    method RqstStatus(slvindex: nat)
      requires Valid() && slvindex < |vSlaves|
      modifies this`trace, vSlaves
      ensures Valid() && trace == old(trace) + [Request(slvindex)]
    {
      hide After;
      vSlaves[slvindex].rxStatus := false;
      Record(Request(slvindex));
    }

    /** `Rx` and `SlaveStatusRpl`: the first slave that takes the reply ends the search. */
    method StatusRpl(data: seq<bv8>)
      requires Valid() && |data| >= 2
      modifies this`trace, vSlaves
      ensures Valid() && trace == old(trace) + [Reply(data)]
    {
      hide After, ReportIn, SlaveState.Heard;
      ghost var e := Reply(data);
      if data[1] == 0x06 && |data| == 14 {
        var i, done := 0, false;
        while i < |vSlaves| && !done
          invariant 0 <= i <= |vSlaves| && trace == old(trace)
          invariant forall j :: 0 <= j < i ==> SlaveAgrees(j, ApplyOne(kinds, j, After(kinds, j, trace), e))
          invariant forall j :: i <= j < |vSlaves| ==> SlaveAgrees(j, After(kinds, j, trace))
          invariant done <==> exists j :: 0 <= j < i && (kinds[j].sim || kinds[j].id == data[0])
        {
          assert SlaveAgrees(i, After(kinds, i, trace));
          var r := vSlaves[i].DecodeStRpl(data);
          done := r == 0;
          i := i + 1;
        }
      }
      Record(e);
    }

    method CheckAllSlavesNext()
      requires Valid()
      modifies this`trace, this`allSlavesNext
      ensures Valid() && allSlavesNext == AllNext(kinds, old(trace))
      ensures trace == old(trace) + [CheckedNext(allSlavesNext)]
    {
      hide After;
      ghost var t := trace;
      ghost var results := seq(|kinds|, i requires 0 <= i < |kinds| => StNext(kinds[i], After(kinds, i, t)));
      allSlavesNext := 0;
      var i := 0;
      while i < |vSlaves| && allSlavesNext == 0
        invariant 0 <= i <= |vSlaves| && trace == t
        invariant forall j :: 0 <= j < |vSlaves| ==> SlaveAgrees(j, After(kinds, j, t))
        invariant FirstBad(results) == if allSlavesNext != 0 then allSlavesNext else FirstBad(results[i..])
      {
        assert SlaveAgrees(i, After(kinds, i, t));
        allSlavesNext := vSlaves[i].GetStNext();
        i := i + 1;
      }
      Record(CheckedNext(allSlavesNext));
    }

    method CheckAllSlavesCurrent()
      requires Valid()
      modifies this`trace, this`allSlavesCurrent
      ensures Valid() && allSlavesCurrent == AllCurrent(kinds, old(trace))
      ensures trace == old(trace) + [CheckedCurrent(allSlavesCurrent)]
    {
      hide After;
      ghost var t := trace;
      ghost var results := seq(|kinds|, i requires 0 <= i < |kinds| => StCurrent(kinds[i], After(kinds, i, t)));
      allSlavesCurrent := 0;
      var i := 0;
      while i < |vSlaves| && allSlavesCurrent == 0
        invariant 0 <= i <= |vSlaves| && trace == t
        invariant forall j :: 0 <= j < |vSlaves| ==> SlaveAgrees(j, After(kinds, j, t))
        invariant FirstBad(results) == if allSlavesCurrent != 0 then allSlavesCurrent else FirstBad(results[i..])
      {
        assert SlaveAgrees(i, After(kinds, i, t));
        allSlavesCurrent := vSlaves[i].GetStCurrent();
        i := i + 1;
      }
      Record(CheckedCurrent(allSlavesCurrent));
    }
  }
}
