/** `TaskFrm` of src/sign/Group.cpp, with `TaskSetATF` of src/sign/GroupIslus.cpp inside it: the coroutine that shows one
    frame on all slaves, one frame a slave, or nothing, and watches the display. */
module FrameTask {
  import opened Bytes
  import opened Delivery
  import opened GroupBus
  import opened SlaveBus

  /** What is to be shown, with the ids of the frames: blank, one frame on all slaves, or (ISLUS signs) a frame for
      each. */
  datatype Order = Blank | Single(id: byte, packet: Packet) | Atomic(ids: seq<byte>, packets: seq<Packet>)
  {
    predicate Fits(n: nat) {
      match this
      case Blank => true
      case Single(id, _) => id != 0
      case Atomic(ids, packets) => |ids| == |packets| == n && forall i :: 0 <= i < |ids| ==> ids[i] != 0
    }

    /** `onDispFrmId` when the order is taken up. */
    function ShownId(): byte {
      match this
      case Blank => 0
      case Single(id, _) => id
      case Atomic(_, _) => 1
    }

    function PacketFor(i: nat): Packet
      requires Single? || (Atomic? && i < |packets|)
    {
      if Single? then packet else packets[i]
    }

    function Crc(i: nat): bv16
      requires Single? || (Atomic? && i < |packets|)
    {
      PacketCrc(PacketFor(i), 1)
    }
  }

  datatype Pc = Begin | FrameSet | AtomicBus | AtomicSet | ShowAgain | Sync | Watch

  predicate DistinctIds(kinds: seq<Kind>) {
    && (forall i, j :: 0 <= i < j < |kinds| ==> kinds[i].id != kinds[j].id)
    && (forall i :: 0 <= i < |kinds| ==> kinds[i].id != EVERY)
  }

  // ----- What holds at every stop -----

  /** The first n slaves were last sent their frames. */
  ghost predicate EachPending(kinds: seq<Kind>, order: Order, n: nat, t: Trace)
    requires !order.Blank? && order.Fits(|kinds|) && n <= |kinds|
  {
    forall i :: 0 <= i < n ==> Pending(t, kinds[i].id, 1, order.Crc(i))
  }

  ghost predicate EachConfirmed(kinds: seq<Kind>, order: Order, t: Trace)
    requires !order.Blank? && order.Fits(|kinds|)
  {
    forall i :: 0 <= i < |kinds| ==> Confirmed(t, kinds[i].id, 1, order.Crc(i))
  }

  /** Every slave was last told to show its frame, or nothing. */
  ghost predicate EachShown(kinds: seq<Kind>, order: Order, on: bool, t: Trace)
    requires order.Fits(|kinds|)
  {
    forall i :: 0 <= i < |kinds| ==>
      OneShown(kinds[i].id, on && !order.Blank?, if order.Blank? then 0 else order.Crc(i), t)
  }

  ghost predicate OneShown(id: bv8, lit: bool, crc: bv16, t: Trace) {
    if lit then ToldCurrent(t, id) == 1 && LastShown(t, id, 1) == crc else ToldCurrent(t, id) == 0
  }

  /** `sent` counts the slaves that have been sent their frames since the order was taken up. */
  ghost predicate Good(kinds: seq<Kind>, order: Order, on: bool, pc: Pc, sent: nat, t: Trace) {
    && DistinctIds(kinds) && order.Fits(|kinds|)
    && Safe(kinds, t)
    && match pc
       case Begin => true
       case FrameSet => order.Single? && Clean(t) && (on ==> EachPending(kinds, order, |kinds|, t))
       case AtomicBus => order.Atomic? && sent <= |kinds| && (on ==> EachPending(kinds, order, sent, t))
       case AtomicSet => order.Atomic? && Clean(t) && (on ==> EachPending(kinds, order, |kinds|, t))
       case ShowAgain => EachShown(kinds, order, on, t) && (on && !order.Blank? ==> EachConfirmed(kinds, order, t))
       case Sync => Watched(kinds, order, on, t)
       case Watch => Watched(kinds, order, on, t)
  }

  ghost predicate Watched(kinds: seq<Kind>, order: Order, on: bool, t: Trace)
    requires order.Fits(|kinds|)
  {
    Clean(t) && EachShown(kinds, order, on, t) && (on && !order.Blank? ==> EachConfirmed(kinds, order, t))
  }

  lemma PendingGrows(kinds: seq<Kind>, order: Order, n: nat, t: Trace, e: Event)
    requires !order.Blank? && order.Fits(|kinds|) && n <= |kinds|
    requires EachPending(kinds, order, n, t) && forall i :: 0 <= i < n ==> !e.Reaches(kinds[i].id)
    ensures EachPending(kinds, order, n, t + [e])
  {
    assert (t + [e])[..|t|] == t;
  }

  /** Sending slave j its frame. */
  lemma OneSent(kinds: seq<Kind>, order: Order, n: nat, j: nat, t: Trace)
    requires order.Atomic? && order.Fits(|kinds|) && DistinctIds(kinds)
    requires j <= n <= |kinds| && j < |kinds| && EachPending(kinds, order, n, t)
    ensures EachPending(kinds, order, if j == n then n + 1 else n, t + [SetFrame(kinds[j].id, 1, order.Crc(j))])
  {
    hide Order.Crc;
    var e := SetFrame(kinds[j].id, 1, order.Crc(j));
    assert (t + [e])[..|t|] == t;
    forall i | 0 <= i < (if j == n then n + 1 else n) ensures Pending(t + [e], kinds[i].id, 1, order.Crc(i)) {
      if i != j {
        assert !e.Reaches(kinds[i].id);
      }
    }
  }

  lemma ConfirmedGrows(kinds: seq<Kind>, order: Order, t: Trace, e: Event)
    requires !order.Blank? && order.Fits(|kinds|) && EachConfirmed(kinds, order, t) && !e.SetFrame?
    ensures EachConfirmed(kinds, order, t + [e])
  {
    assert (t + [e])[..|t|] == t;
  }

  lemma ShownGrows(kinds: seq<Kind>, order: Order, on: bool, t: Trace, e: Event)
    requires order.Fits(|kinds|) && EachShown(kinds, order, on, t) && !e.Show?
    ensures EachShown(kinds, order, on, t + [e])
  {
    assert (t + [e])[..|t|] == t;
  }

  lemma AllArrived(kinds: seq<Kind>, order: Order, t: Trace)
    requires !order.Blank? && order.Fits(|kinds|) && EachPending(kinds, order, |kinds|, t)
    ensures EachConfirmed(kinds, order, t + [CheckedNext(0)])
  {
    assert (t + [CheckedNext(0)])[..|t|] == t;
  }

  /** Replies, polls, forgetting and sound checks keep what holds. */
  lemma QuietKeepsGood(kinds: seq<Kind>, order: Order, on: bool, pc: Pc, sent: nat, t: Trace, e: Event)
    requires Good(kinds, order, on, pc, sent, t) && !e.IsCommand() && CheckIsSound(kinds, t, e)
    ensures Good(kinds, order, on, pc, sent, t + [e])
  {
    hide Safe, Clean, EachPending, EachConfirmed, EachShown, CheckIsSound, Order.Crc, DistinctIds;
    SafeGrows(kinds, t, e);
    CleanGrows(t, e);
    match pc {
      case Begin =>
      case FrameSet => if on { PendingGrows(kinds, order, |kinds|, t, e); }
      case AtomicBus => if on { PendingGrows(kinds, order, sent, t, e); }
      case AtomicSet => if on { PendingGrows(kinds, order, |kinds|, t, e); }
      case _ =>
        ShownGrows(kinds, order, on, t, e);
        if on && !order.Blank? { ConfirmedGrows(kinds, order, t, e); }
    }
  }

  /** Showing slot 1, once every slave has confirmed its frame there, or blank. */
  lemma ShowKeeps(kinds: seq<Kind>, order: Order, on: bool, t: Trace)
    requires order.Fits(|kinds|) && Safe(kinds, t)
    requires on && !order.Blank? ==> EachConfirmed(kinds, order, t)
    ensures var t' := t + [Show(EVERY, if on && !order.Blank? then 1 else 0)];
            && Safe(kinds, t') && EachShown(kinds, order, on, t')
            && (on && !order.Blank? ==> EachConfirmed(kinds, order, t'))
  {
    hide Safe, Order.Crc;
    var e := Show(EVERY, if on && !order.Blank? then 1 else 0);
    var t' := t + [e];
    assert t'[..|t|] == t;
    if on && !order.Blank? {
      forall i | 0 <= i < |kinds| ensures IsConfirmed(t, kinds[i].id, 1) {
        assert Confirmed(t, kinds[i].id, 1, order.Crc(i));
      }
      forall i | 0 <= i < |kinds| ensures OneShown(kinds[i].id, true, order.Crc(i), t') {
        ConfirmedWasSet(t, kinds[i].id, 1, order.Crc(i));
      }
    }
    SafeGrows(kinds, t, e);
  }

  /** A blank order is not shown where slot 1 is. */
  lemma LitIsNotBlank(kinds: seq<Kind>, order: Order, on: bool, t: Trace)
    requires order.Blank?
    ensures |kinds| > 0 ==> !EachShown(kinds, order, on, t + [Show(EVERY, 1)])
    ensures |kinds| > 0 ==> !EachShown(kinds, order, on, t + [Show(EVERY, 1)] + [Clear] + [Backup])
  {
    var t1 := t + [Show(EVERY, 1)];
    var t2 := t1 + [Clear];
    assert t1[..|t|] == t && t2[..|t1|] == t1 && (t2 + [Backup])[..|t2|] == t2;
    if |kinds| > 0 {
      assert ToldCurrent(t1, kinds[0].id) == 1 && ToldCurrent(t2, kinds[0].id) == 1;
      assert ToldCurrent(t2 + [Backup], kinds[0].id) == 1;
      assert !OneShown(kinds[0].id, false, 0, t1) && !OneShown(kinds[0].id, false, 0, t2 + [Backup]);
    }
  }

  // ----- What goes out -----

  /** A frame for all slaves, while the device is enabled, and the replies are forgotten. */
  function SetsAll(order: Order, on: bool): seq<Event>
    requires order.Single?
  {
    (if on then [SetFrame(EVERY, 1, order.Crc(0))] else []) + [Clear]
  }

  /** A show command: slot 1, or the blank slot while the device is disabled or frame 0 is on display. */
  function ShowsSlot(on: bool, onDispFrmId: byte): seq<Event> {
    [Show(EVERY, if on && onDispFrmId != 0 then 1 else 0)]
  }

  /** The frame of slave k in a round of atomic frames; behind the last slave, the replies are forgotten. */
  function SetsOne(kinds: seq<Kind>, order: Order, on: bool, k: nat): seq<Event>
    requires order.Atomic? && order.Fits(|kinds|)
  {
    if k >= |kinds| then [Clear] else if on then [SetFrame(kinds[k].id, 1, order.Crc(k))] else []
  }

  /** The first step of an order. */
  function BeginsWith(kinds: seq<Kind>, order: Order, on: bool): seq<Event>
    requires order.Fits(|kinds|)
  {
    match order
    case Blank => [Show(EVERY, 0)]
    case Single(_, _) => SetsAll(order, on)
    case Atomic(_, _) => SetsOne(kinds, order, on, 0)
  }

  function AfterBegin(order: Order, n: nat): Pc {
    match order
    case Blank => ShowAgain
    case Single(_, _) => FrameSet
    case Atomic(_, _) => if n > 0 then AtomicBus else AtomicSet
  }

  /** What goes out at each stop, after the check that comes to `r`. */
  function SendsFrameSet(order: Order, on: bool, onDispFrmId: byte, r: int): seq<Event>
    requires order.Single?
  {
    [CheckedNext(r)] + (if r == 0 then ShowsSlot(on, onDispFrmId) else if r == 1 then SetsAll(order, on) else [])
  }

  function SendsAtomicSet(kinds: seq<Kind>, order: Order, on: bool, onDispFrmId: byte, r: int, k: nat): seq<Event>
    requires order.Atomic? && order.Fits(|kinds|)
  {
    [CheckedNext(r)] + (if r == 0 then ShowsSlot(on, onDispFrmId)
                        else if r == 1 then SetsOne(kinds, order, on, k) else [])
  }

  function SendsShowAgain(on: bool, onDispFrmId: byte): seq<Event> {
    ShowsSlot(on, onDispFrmId) + [Clear] + [Backup]
  }

  function SendsWatch(kinds: seq<Kind>, on: bool, now: Order, onDispFrmId: byte, frmExpired: bool, r: int): seq<Event>
    requires now.Fits(|kinds|)
  {
    [CheckedCurrent(r)] + (if !frmExpired then [] else if r == 1 then ShowsSlot(on, onDispFrmId)
                           else if r > 1 then BeginsWith(kinds, now, on) else [])
  }

  /** What a step from a stop puts on the bus: `next` and `current` are what its check comes to, `now` is what is begun
      with, and `k` the slave that a round of atomic frames has got to. */
  function Sends(kinds: seq<Kind>, order: Order, on: bool, pc: Pc, now: Order, onDispFrmId: byte, frmExpired: bool,
                 next: int, current: int, k: nat): seq<Event>
    requires now.Fits(|kinds|) && (pc != Begin ==> order.Fits(|kinds|))
    requires (pc == FrameSet ==> order.Single?) && (pc in {AtomicBus, AtomicSet} ==> order.Atomic?)
  {
    match pc
    case Begin => BeginsWith(kinds, now, on)
    case FrameSet => SendsFrameSet(order, on, onDispFrmId, next)
    case AtomicBus => SetsOne(kinds, order, on, k)
    case AtomicSet => SendsAtomicSet(kinds, order, on, onDispFrmId, next, k)
    case ShowAgain => SendsShowAgain(on, onDispFrmId)
    case Sync => []
    case Watch => SendsWatch(kinds, on, now, onDispFrmId, frmExpired, current)
  }

  /** And where it stops next. */
  function StopsAt(n: nat, pc: Pc, now: Order, frmExpired: bool, refreshExpired: bool, r: int, w: int, k: nat): Pc {
    match pc
    case Begin => AfterBegin(now, n)
    case FrameSet => if r == 0 then ShowAgain else FrameSet
    case AtomicBus => if k < n then AtomicBus else AtomicSet
    case AtomicSet => if r == 0 then ShowAgain else if r == 1 && k < n then AtomicBus else AtomicSet
    case ShowAgain => Watch
    case Sync => Watch
    case Watch =>
      if !frmExpired || w < 0 then Watch else if w == 0 then (if refreshExpired then Sync else Watch)
      else if w == 1 then ShowAgain else AfterBegin(now, n)
  }

  // ----- The coroutine -----

  class FrmTask {
    const bus: Bus
    var order: Order
    var pc: Pc
    var sATF: nat
    var atfSt: seq<int>
    ghost var sent: nat

    ghost predicate Inv()
      reads this, bus, bus.vSlaves
    {
      && bus.Valid()
      && Good(bus.kinds, order, bus.deviceEnDisCur, pc, sent, bus.trace)
      && (pc == AtomicBus ==> |atfSt| == |bus.kinds| && sATF < |atfSt| && Round(sATF + 1))
    }

    /** Where a round of atomic frames stands: the slaves before `next`, and those not to be sent again, have been sent
        their frames. */
    ghost predicate Round(next: nat)
      reads this
    {
      sent == |bus.kinds| || (sent == next && forall i :: next <= i < |atfSt| ==> atfSt[i] != 0)
    }

    /** What `Inv` says when the history of the bus is `t`. */
    ghost predicate InvAt(t: Trace)
      reads this, bus`deviceEnDisCur
    {
      && Good(bus.kinds, order, bus.deviceEnDisCur, pc, sent, t)
      && (pc == AtomicBus ==> |atfSt| == |bus.kinds| && sATF < |atfSt| && Round(sATF + 1))
    }

    lemma InvNow()
      ensures Inv() <==> bus.Valid() && InvAt(bus.trace)
    {
      hide Good, Bus.Valid;
    }

    /** Replies, polls and forgetting, whoever lets them happen. */
    lemma QuietInvAt(t: Trace, e: Event)
      requires InvAt(t) && !e.IsCommand() && CheckIsSound(bus.kinds, t, e)
      ensures InvAt(t + [e])
    {
      hide Good;
      QuietKeepsGood(bus.kinds, order, bus.deviceEnDisCur, pc, sent, t, e);
    }

    lemma InvIsSafe()
      requires Inv()
      ensures bus.Valid() && Safe(bus.kinds, bus.trace)
    {}

    /** Whether `onDispFrmId` is still what the order made it: once a blank order has been taken up it may change. */
    predicate Follows(onDispFrmId: byte)
      reads this
    {
      order.Blank? || onDispFrmId == order.ShownId()
    }

    /** The next show command of a blank order would show slot 1. */
    predicate Strays(onDispFrmId: byte)
      reads this, bus
    {
      bus.deviceEnDisCur && order.Blank? && onDispFrmId != 0
    }

    /** The next step is such a show command. */
    ghost predicate Relights(onDispFrmId: byte, frmExpired: bool)
      reads this, bus
    {
      && Strays(onDispFrmId)
      && (pc == ShowAgain || (pc == Watch && frmExpired && AllCurrent(bus.kinds, bus.trace) == 1))
    }

    /** Slot 1 has been shown under a blank order. */
    ghost predicate IsLit()
      reads this, bus, bus.vSlaves
    {
      bus.Valid() && LitUp(bus.kinds, bus.trace) && (|bus.kinds| > 0 ==> !Inv())
    }

    constructor (bus: Bus)
      requires bus.Valid() && DistinctIds(bus.kinds) && Safe(bus.kinds, bus.trace)
      ensures Inv() && pc == Begin && this.bus == bus
    {
      this.bus, pc, order, sATF, atfSt, sent := bus, Begin, Blank, 0, [], 0;
    }

    /** `TaskFrmReset`, whatever has happened on the bus since the coroutine last ran. */
    method Reset()
      requires bus.Valid() && DistinctIds(bus.kinds) && Safe(bus.kinds, bus.trace)
      modifies this
      ensures Inv() && pc == Begin
    {
      order, pc := Blank, Begin;
    }

    /** The first step: what is to be shown is looked up anew. */
    method Start(now: Order)
      requires Inv() && (pc == Begin || pc == Watch) && now.Fits(|bus.kinds|)
      modifies this, bus`trace, bus.vSlaves
      ensures Inv() && order == now && pc == AfterBegin(now, |bus.kinds|) && pc != Begin
      ensures bus.trace == old(bus.trace) + BeginsWith(bus.kinds, now, bus.deviceEnDisCur)
      ensures now.Atomic? ==> sATF == 0 && atfSt == seq(|bus.kinds|, _ => 1)
    {
      order, pc := now, Begin;
      match order {
        case Blank =>
          var _ := ShowFrame(0);
        case Single(id, _) =>
          SendSingle(id);
        case Atomic(_, _) =>
          atfSt := seq(|bus.vSlaves|, _ => 1);
          sent, sATF := 0, 0;
          SendRound();
          assert |bus.kinds| > 0 ==> atfSt[0] == 1;
      }
    }

    /** `SlaveSetFrame` to all and `ClrAllSlavesRxStatus`. */
    method SendSingle(onDispFrmId: byte)
      requires Inv() && order.Single? && Follows(onDispFrmId)
      modifies this`pc, bus`trace, bus.vSlaves
      ensures Inv() && pc == FrameSet
      ensures bus.trace == old(bus.trace) + SetsAll(order, bus.deviceEnDisCur)
    {
      hide Safe, Bus.SlaveAgrees, Clean;
      ghost var t := bus.trace;
      bus.SlaveSetFrame(EVERY, 1, onDispFrmId, order.packet);
      ghost var t1 := bus.trace;
      if bus.deviceEnDisCur {
        SafeGrows(bus.kinds, t, SetFrame(EVERY, 1, PacketCrc(order.packet, 1)));
      }
      bus.ClrAllSlavesRxStatus();
      SafeGrows(bus.kinds, t1, Clear);
      CleanGrows(t1, Clear);
      if bus.deviceEnDisCur {
        PendingGrows(bus.kinds, order, |bus.kinds|, t1, Clear);
      }
      pc := FrameSet;
    }

    /** `SlaveSetStoredFrame`, of slot 1 or of the blank slot, as `onDispFrmId` says now. */
    method ShowFrame(onDispFrmId: byte) returns (lit: bool)
      requires bus.Valid() && DistinctIds(bus.kinds) && order.Fits(|bus.kinds|) && Safe(bus.kinds, bus.trace)
      requires bus.deviceEnDisCur && !order.Blank? ==> EachConfirmed(bus.kinds, order, bus.trace)
      requires Follows(onDispFrmId)
      modifies this`pc, bus`trace, bus.vSlaves
      ensures lit == Strays(onDispFrmId) && if lit then IsLit() else Inv()
      ensures bus.Valid() && pc == ShowAgain
      ensures bus.trace == old(bus.trace) + ShowsSlot(bus.deviceEnDisCur, onDispFrmId)
    {
      hide Safe, Bus.SlaveAgrees, EachShown, EachConfirmed, DistinctIds, LitUp, Bus.Valid;
      ghost var t := bus.trace;
      bus.SlaveSDFrame(EVERY, if onDispFrmId == 0 then 0 else 1);
      lit := Strays(onDispFrmId);
      if lit {
        LitNow(bus.kinds, t);
        LitIsNotBlank(bus.kinds, order, bus.deviceEnDisCur, t);
      } else {
        ShowKeeps(bus.kinds, order, bus.deviceEnDisCur, t);
      }
      pc := ShowAgain;
    }

    /** The frames of a round, from slave `sATF` on, up to the next one to be sent its frame; after the last, the replies
        are forgotten. */
    method SendRound()
      requires bus.Valid() && DistinctIds(bus.kinds) && order.Fits(|bus.kinds|) && Safe(bus.kinds, bus.trace)
      requires order.Atomic? && |atfSt| == |bus.kinds| && sATF <= |atfSt| && sent <= |bus.kinds| && Round(sATF)
      requires bus.deviceEnDisCur ==> EachPending(bus.kinds, order, sent, bus.trace)
      modifies this`pc, this`sATF, this`sent, bus`trace, bus.vSlaves
      ensures Inv() && old(sATF) <= sATF <= |bus.kinds|
      ensures bus.trace == old(bus.trace) + SetsOne(bus.kinds, order, bus.deviceEnDisCur, sATF)
      ensures pc == if sATF < |bus.kinds| then AtomicBus else AtomicSet
      ensures forall i :: old(sATF) <= i < sATF ==> atfSt[i] == 0
      ensures sATF < |bus.kinds| ==> atfSt[sATF] != 0
    {
      hide Safe, Bus.SlaveAgrees, After, EachPending, DistinctIds;
      while sATF < |bus.vSlaves| && atfSt[sATF] == 0
        invariant old(sATF) <= sATF <= |atfSt| && Round(sATF)
        invariant forall i :: old(sATF) <= i < sATF ==> atfSt[i] == 0
        invariant bus.Valid() && bus.trace == old(bus.trace) && sent == old(sent)
      {
        sATF := sATF + 1;
      }
      if sATF < |bus.vSlaves| {
        SendOne();
      } else {
        EndRound();
      }
    }

    method SendOne()
      requires bus.Valid() && DistinctIds(bus.kinds) && order.Fits(|bus.kinds|) && Safe(bus.kinds, bus.trace)
      requires order.Atomic? && |atfSt| == |bus.kinds| && sATF < |atfSt| && sent <= |bus.kinds| && Round(sATF)
      requires bus.deviceEnDisCur ==> EachPending(bus.kinds, order, sent, bus.trace)
      modifies this`pc, this`sent, bus`trace, bus.vSlaves
      ensures Inv() && pc == AtomicBus
      ensures bus.trace == old(bus.trace) + SetsOne(bus.kinds, order, bus.deviceEnDisCur, sATF)
    {
      hide Safe, EachPending, DistinctIds, PacketCrc;
      ghost var t := bus.trace;
      assert bus.SlaveAgrees(sATF, After(bus.kinds, sATF, t));
      if bus.deviceEnDisCur {
        OneSent(bus.kinds, order, sent, sATF, t);
        SafeGrows(bus.kinds, t, SetFrame(bus.kinds[sATF].id, 1, order.Crc(sATF)));
      }
      hide Bus.SlaveAgrees, After;
      bus.SlaveSetFrame(bus.vSlaves[sATF].slaveId, 1, order.ids[sATF], order.packets[sATF]);
      if sent == sATF {
        sent := sATF + 1;
      }
      pc := AtomicBus;
    }

    method EndRound()
      requires bus.Valid() && DistinctIds(bus.kinds) && order.Fits(|bus.kinds|) && Safe(bus.kinds, bus.trace)
      requires order.Atomic? && sent == |bus.kinds|
      requires bus.deviceEnDisCur ==> EachPending(bus.kinds, order, sent, bus.trace)
      modifies this`pc, bus`trace, bus.vSlaves
      ensures Inv() && pc == AtomicSet && bus.trace == old(bus.trace) + [Clear]
    {
      hide Safe, EachPending, DistinctIds, Bus.SlaveAgrees, Clean;
      ghost var t := bus.trace;
      bus.ClrAllSlavesRxStatus();
      SafeGrows(bus.kinds, t, Clear);
      CleanGrows(t, Clear);
      if bus.deviceEnDisCur {
        PendingGrows(bus.kinds, order, sent, t, Clear);
      }
      pc := AtomicSet;
    }

    // ----- Resuming -----

    /** A check, at a stop, of the frames sent. */
    method CheckNext()
      requires Inv() && pc in {FrameSet, AtomicSet}
      modifies bus`trace, bus`allSlavesNext
      ensures Inv() && bus.allSlavesNext in {-1, 0, 1}
      ensures bus.allSlavesNext == AllNext(bus.kinds, old(bus.trace))
      ensures bus.trace == old(bus.trace) + [CheckedNext(bus.allSlavesNext)]
      ensures bus.allSlavesNext == 0 && bus.deviceEnDisCur ==> EachConfirmed(bus.kinds, order, bus.trace)
    {
      hide Safe, Clean, EachPending, EachConfirmed, DistinctIds, Bus.SlaveAgrees;
      NextResults(bus.kinds, bus.trace);
      ghost var t := bus.trace;
      bus.CheckAllSlavesNext();
      QuietKeepsGood(bus.kinds, order, bus.deviceEnDisCur, pc, sent, t, CheckedNext(bus.allSlavesNext));
      if bus.allSlavesNext == 0 && bus.deviceEnDisCur {
        AllArrived(bus.kinds, order, t);
      }
    }

    method ResumeFrameSet(onDispFrmId: byte)
      requires Inv() && pc == FrameSet && Follows(onDispFrmId)
      modifies this`pc, bus`trace, bus`allSlavesNext, bus.vSlaves
      ensures Inv() && bus.allSlavesNext == AllNext(bus.kinds, old(bus.trace))
      ensures pc == if bus.allSlavesNext == 0 then ShowAgain else FrameSet
      ensures bus.trace == old(bus.trace) + SendsFrameSet(order, bus.deviceEnDisCur, onDispFrmId, bus.allSlavesNext)
    {
      hide Safe, Clean, EachPending, EachConfirmed, Bus.Valid;
      CheckNext();
      if bus.allSlavesNext == 1 {
        SendSingle(onDispFrmId);
      } else if bus.allSlavesNext == 0 {
        var _ := ShowFrame(onDispFrmId);
      }
    }

    method ResumeAtomicBus()
      requires Inv() && pc == AtomicBus
      modifies this, bus`trace, bus.vSlaves
      ensures Inv() && order == old(order) && atfSt == old(atfSt)
      ensures bus.trace == old(bus.trace) + SetsOne(bus.kinds, order, bus.deviceEnDisCur, sATF)
      ensures pc == if sATF < |bus.kinds| then AtomicBus else AtomicSet
      ensures old(sATF) < sATF <= |atfSt| == |bus.kinds| && forall i :: old(sATF) < i < sATF ==> atfSt[i] == 0
      ensures sATF < |bus.kinds| ==> atfSt[sATF] != 0
    {
      hide Safe, EachPending, Bus.Valid;
      sATF := sATF + 1;
      SendRound();
    }

    /** The frames have all arrived, or those that have not are sent again. */
    method ResumeAtomicSet(onDispFrmId: byte)
      requires Inv() && pc == AtomicSet && Follows(onDispFrmId)
      modifies this, bus`trace, bus`allSlavesNext, bus.vSlaves
      ensures Inv() && order == old(order)
      ensures bus.allSlavesNext == AllNext(bus.kinds, old(bus.trace)) && bus.allSlavesNext in {-1, 0, 1}
      ensures pc == if bus.allSlavesNext == 0 then ShowAgain
                    else if bus.allSlavesNext == 1 && sATF < |bus.kinds| then AtomicBus else AtomicSet
      ensures bus.trace == old(bus.trace) + SendsAtomicSet(bus.kinds, order, bus.deviceEnDisCur, onDispFrmId,
                                                           bus.allSlavesNext, sATF)
      ensures bus.allSlavesNext == 1 ==> IsNextUnsent(sATF, old(bus.trace) + [CheckedNext(1)])
    {
      hide Safe, EachPending, EachConfirmed, Bus.Valid;
      CheckNext();
      if bus.allSlavesNext == 0 {
        var _ := ShowFrame(onDispFrmId);
      } else if bus.allSlavesNext == 1 {
        MarkUnsent();
        sATF, sent := 0, |bus.kinds|;
        SendRound();
      }
    }

    /** The first slave whose frame has to be sent again. */
    ghost predicate IsNextUnsent(k: nat, t: Trace) {
      && k <= |bus.kinds| && (k < |bus.kinds| ==> StNext(bus.kinds[k], After(bus.kinds, k, t)) != 0)
      && forall i :: 0 <= i < k ==> StNext(bus.kinds[i], After(bus.kinds, i, t)) == 0
    }

    /** Marks the slaves whose frame has to be sent again. */
    method MarkUnsent()
      requires bus.Valid()
      modifies this`atfSt
      ensures |atfSt| == |bus.kinds|
      ensures forall i :: 0 <= i < |atfSt| ==> atfSt[i] == StNext(bus.kinds[i], After(bus.kinds, i, bus.trace))
    {
      hide After;
      atfSt := [];
      for i := 0 to |bus.vSlaves|
        invariant |atfSt| == i
        invariant forall j :: 0 <= j < i ==> atfSt[j] == StNext(bus.kinds[j], After(bus.kinds, j, bus.trace))
      {
        assert bus.SlaveAgrees(i, After(bus.kinds, i, bus.trace));
        atfSt := atfSt + [bus.vSlaves[i].GetStNext()];
      }
    }

    /** The second half of `SLAVE_SET_STORED_FRAME`, and what follows it. */
    method ResumeShowAgain(onDispFrmId: byte) returns (lit: bool)
      requires Inv() && pc == ShowAgain && Follows(onDispFrmId)
      modifies this`pc, bus`trace, bus.vSlaves
      ensures lit == Strays(onDispFrmId) && if lit then IsLit() else Inv()
      ensures bus.Valid() && pc == Watch
      ensures bus.trace == old(bus.trace) + SendsShowAgain(bus.deviceEnDisCur, onDispFrmId)
    {
      hide Safe, Clean, EachShown, EachConfirmed, DistinctIds, Bus.SlaveAgrees, LitUp, Bus.Valid;
      ghost var t0 := bus.trace;
      lit := ShowFrame(onDispFrmId);
      ghost var t := bus.trace;
      bus.ClrAllSlavesRxStatus();
      ghost var t1 := bus.trace;
      bus.AllSlavesUpdateCurrentBak();
      if lit {
        LitStays(bus.kinds, t, Clear);
        LitStays(bus.kinds, t1, Backup);
        LitIsNotBlank(bus.kinds, order, bus.deviceEnDisCur, t0);
      } else {
        CleanGrows(t, Clear);
        QuietKeepsGood(bus.kinds, order, bus.deviceEnDisCur, pc, sent, t, Clear);
        CleanGrows(t1, Backup);
        QuietKeepsGood(bus.kinds, order, bus.deviceEnDisCur, pc, sent, t1, Backup);
      }
      pc := Watch;
    }

    /** Watching the display: shown again when a slave seems to have missed the command, begun again when one has lost
        its frames. */
    method ResumeWatch(frmExpired: bool, refreshExpired: bool, now: Order, onDispFrmId: byte)
      returns (again: bool, lit: bool)
      requires Inv() && pc == Watch && now.Fits(|bus.kinds|) && Follows(onDispFrmId)
      modifies this, bus`trace, bus`allSlavesCurrent, bus.vSlaves
      ensures bus.allSlavesCurrent == AllCurrent(bus.kinds, old(bus.trace))
      ensures lit == old(Relights(onDispFrmId, frmExpired)) && if lit then !again && IsLit() else Inv()
      ensures order == (if again then now else old(order)) && (again <==> frmExpired && bus.allSlavesCurrent > 1)
      ensures pc != Begin
      ensures bus.trace == old(bus.trace) + SendsWatch(bus.kinds, bus.deviceEnDisCur, now, onDispFrmId, frmExpired,
                                                       bus.allSlavesCurrent)
      ensures pc == if !frmExpired || bus.allSlavesCurrent < 0 then Watch
                    else if bus.allSlavesCurrent == 0 then (if refreshExpired then Sync else Watch)
                    else if bus.allSlavesCurrent == 1 then ShowAgain
                    else AfterBegin(now, |bus.kinds|)
    {
      hide Safe, Clean, EachShown, EachConfirmed, DistinctIds, Bus.SlaveAgrees, LitUp;
      ghost var t := bus.trace;
      bus.CheckAllSlavesCurrent();
      QuietKeepsGood(bus.kinds, order, bus.deviceEnDisCur, pc, sent, t, CheckedCurrent(bus.allSlavesCurrent));
      again, lit := false, false;
      if bus.allSlavesCurrent < 0 || !frmExpired {
        return;
      }
      if bus.allSlavesCurrent == 0 {
        if refreshExpired {
          pc := Sync;
        }
      } else if bus.allSlavesCurrent == 1 {
        lit := ShowFrame(onDispFrmId);
      } else {
        Start(now);
        again := true;
      }
    }

    /** One call of `TaskFrm`, run from where it stopped to where it stops next; `now` is what is to be shown if it
        begins, or begins again, and `onDispFrmId` what the group has on display if it does not. `lit`: slot 1 has been
        shown under a blank order. */
    method Resume(frmExpired: bool, refreshExpired: bool, now: Order, onDispFrmId: byte)
      returns (again: bool, lit: bool)
      requires Inv() && now.Fits(|bus.kinds|) && (pc == Begin || Follows(onDispFrmId))
      modifies this, bus`trace, bus`allSlavesNext, bus`allSlavesCurrent, bus.vSlaves
      ensures lit == old(Relights(onDispFrmId, frmExpired)) && if lit then !again && IsLit() else Inv()
      ensures pc != Begin && order == if again then now else old(order)
      ensures again <==> old(pc) == Begin || (old(pc) == Watch && frmExpired && bus.allSlavesCurrent > 1)
      ensures old(pc) in {FrameSet, AtomicSet} ==> bus.allSlavesNext == AllNext(bus.kinds, old(bus.trace))
      ensures old(pc) == Watch ==> bus.allSlavesCurrent == AllCurrent(bus.kinds, old(bus.trace))
      ensures bus.trace == old(bus.trace) + Sends(bus.kinds, old(order), bus.deviceEnDisCur, old(pc), now, onDispFrmId,
                                                  frmExpired, bus.allSlavesNext, bus.allSlavesCurrent, sATF)
      ensures pc == StopsAt(|bus.kinds|, old(pc), now, frmExpired, refreshExpired, bus.allSlavesNext,
                            bus.allSlavesCurrent,
                            sATF)
      ensures old(pc) == AtomicBus ==>
                atfSt == old(atfSt) && old(sATF) < sATF <= |atfSt| == |bus.kinds|
                && (forall i :: old(sATF) < i < sATF ==> atfSt[i] == 0) && (sATF < |atfSt| ==> atfSt[sATF] != 0)
      ensures old(pc) == AtomicSet && bus.allSlavesNext == 1 ==> IsNextUnsent(sATF, old(bus.trace) + [CheckedNext(1)])
    {
      hide Good, Bus.Valid, LitUp, SendsFrameSet, SendsAtomicSet, SetsOne, SendsShowAgain, SendsWatch, BeginsWith,
        AfterBegin;
      again, lit := false, false;
      match pc {
        case Begin =>
          Start(now);
          again := true;
        case FrameSet => ResumeFrameSet(onDispFrmId);
        case AtomicBus => ResumeAtomicBus();
        case AtomicSet => ResumeAtomicSet(onDispFrmId);
        case ShowAgain => lit := ResumeShowAgain(onDispFrmId);
        case Sync => EndSync();
        case Watch => again, lit := ResumeWatch(frmExpired, refreshExpired, now, onDispFrmId);
      }
    }

    method EndSync()
      requires Inv() && pc == Sync
      modifies this`pc
      ensures Inv() && pc == Watch
    {
      pc := Watch;
    }

    // ----- Between two calls -----

    /** A status reply comes in. */
    method OnReply(data: seq<bv8>)
      requires Inv() && |data| >= 2
      modifies bus`trace, bus.vSlaves
      ensures Inv() && bus.trace == old(bus.trace) + [Reply(data)]
    {
      hide Safe, Watched, EachPending, EachShown, EachConfirmed, DistinctIds, Clean, Bus.SlaveAgrees;
      ghost var t := bus.trace;
      bus.StatusRpl(data);
      QuietKeepsGood(bus.kinds, order, bus.deviceEnDisCur, pc, sent, t, Reply(data));
    }

    /** `TaskRqstSlave` asks a slave for its status. */
    method OnRequest(slvindex: nat)
      requires Inv() && slvindex < |bus.vSlaves|
      modifies bus`trace, bus.vSlaves
      ensures Inv() && bus.trace == old(bus.trace) + [Request(slvindex)]
    {
      hide Safe, Watched, EachPending, EachShown, EachConfirmed, DistinctIds, Clean, Bus.SlaveAgrees;
      ghost var t := bus.trace;
      bus.RqstStatus(slvindex);
      QuietKeepsGood(bus.kinds, order, bus.deviceEnDisCur, pc, sent, t, Request(slvindex));
    }

    /** Power-up forgets the replies. */
    method OnPowerUp()
      requires Inv()
      modifies bus`trace, bus.vSlaves
      ensures Inv() && bus.trace == old(bus.trace) + [Clear]
    {
      hide Safe, Watched, EachPending, EachShown, EachConfirmed, DistinctIds, Clean, Bus.SlaveAgrees;
      ghost var t := bus.trace;
      bus.ClrAllSlavesRxStatus();
      QuietKeepsGood(bus.kinds, order, bus.deviceEnDisCur, pc, sent, t, Clear);
    }

    /** `EnDisDevice`: a device that is enabled or disabled starts its frame again. */
    method EnDisDevice(on: bool)
      requires Inv()
      modifies this`pc, bus`deviceEnDisCur
      ensures Inv() && bus.deviceEnDisCur == on && bus.trace == old(bus.trace)
      ensures pc == if on != old(bus.deviceEnDisCur) then Begin else old(pc)
    {
      if on != bus.deviceEnDisCur {
        pc := Begin;
        bus.deviceEnDisCur := on;
      }
    }
  }

  /** While a check of the display finds nothing wrong, every real slave has itself reported, since the last command to
      any slave, slot 1 with the checksum of its frame; or the blank slot, when nothing is to be shown. */
  lemma {:induction false} FrameIsSeen(kinds: seq<Kind>, order: Order, on: bool, sent: nat, t: Trace, i: nat)
    requires Good(kinds, order, on, Watch, sent, t) && AllCurrent(kinds, t) == 0
    requires i < |kinds| && !kinds[i].sim
    ensures LastReport(kinds, i, t).Some?
    ensures on && !order.Blank? ==> LastReport(kinds, i, t).value.currentId == 1
                                    && LastReport(kinds, i, t).value.currentCrc == order.Crc(i)
    ensures !on || order.Blank? ==> LastReport(kinds, i, t).value.currentId == 0
  {
    CurrentCheckIsRight(kinds, t);
    assert ShowsWhatWasAsked(kinds, i, t);
    assert OneShown(kinds[i].id, on && !order.Blank?, if order.Blank? then 0 else order.Crc(i), t);
  }
}
