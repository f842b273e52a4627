/** `TaskMsg` of src/sign/Group.cpp: the coroutine that loads the frames of a message into slave slots, composing the
    overlays on the way, and shows them in turn. Each place where the coroutine waits is a value of `Pc`; `Resume` runs
    it from one such place to the next. */
module MessageTask {
  import opened Bytes
  import opened Delivery
  import opened GroupBus
  import opened Overlay
  import opened SlaveBus
  import S = MessageSchedule

  const SET_GFX_FRM: bv8 := 0x0B

  /** Entries a message has room for; those it does not use have frame 0. */
  const MAX_ENTRIES := 6

  datatype Pc = Begin | FirstSet | ShowAgain | ShowCheck | NextSet | OnTime | Fade | FadeEnd | RoundEnd

  /** A message on display. */
  datatype Job = Job(depth: nat, m: S.Message, size: nat)
  {
    ghost predicate Valid() {
      && (depth == 1 || depth == 4)
      && S.ValidMessage(m, size)
    }

    /** A message of one entry without a time is shown without its slot ever being set. */
    predicate SetsASlot() {
      |m| > 1 || (|m| == 1 && m[0].onTime != 0)
    }

    function Crc(k: nat, pixels: Pixels): bv16
      requires k < |m| <= 6
    {
      PacketCrc(Packet(SET_GFX_FRM, m[k].head + pixels), k + 1)
    }

    /** The checksum that entry k has after `loads` loads. */
    ghost function HeldCrc(loads: nat, k: nat): bv16
      requires Valid() && k < |m|
    {
      Crc(k, S.Held(depth, m, size, loads, k))
    }

    /** Frame k as it goes out: over what is underneath, if `msgOverlay` is set. */
    function Made(overlay: bool, k: nat, under: Pixels): Pixels
      requires k < |m| && |m[k].frame| == |under|
    {
      if overlay then Over(depth, m[k].frame, under) else m[k].frame
    }
  }

  /** Where the coroutine is, `msgSetEntry`, `msgDispEntry`, `msgSetEntryMax`, and the checksum last sent for each
      entry. */
  datatype View = View(pc: Pc, loads: nat, disp: nat, max: nat, crcs: seq<bv16>)

  // ----- What holds at every stop -----

  /** Before an entry is loaded, and after. */
  ghost predicate Before(m: S.Message, v: View) {
    1 <= v.loads && (v.loads == v.disp + 1 || v.loads == |m| + v.disp + 1 || v.loads == v.max)
  }

  ghost predicate Behind(m: S.Message, v: View) {
    v.loads == v.disp + 2 || v.loads == |m| + v.disp + 2 || v.loads == v.max
  }

  ghost predicate InOrder(job: Job, v: View)
    requires job.Valid()
  {
    var m := job.m;
    && v.disp < |m|
    && v.loads <= v.max < 2 * |m|
    && S.IsSetMax(m, v.max)
    && match v.pc
       case Begin => true
       case FirstSet => v.loads == 0 && v.disp == 0 && m[0].onTime != 0
       case ShowAgain => S.IsShown(m, v.disp) && Before(m, v)
       case ShowCheck => S.IsShown(m, v.disp) && Before(m, v)
       case NextSet => Before(m, v) && v.loads < v.max && S.IsShown(m, S.Turn(m, v.loads))
       case OnTime => S.IsShown(m, v.disp) && Behind(m, v)
       case Fade => m[v.disp].onTime != 0 && Behind(m, v)
       case FadeEnd => m[v.disp].onTime != 0 && Behind(m, v)
       case RoundEnd => v.disp == |m| - 1 && Behind(m, v)
  }

  /** Every entry loaded so far, but one, is in its slot and confirmed. */
  ghost predicate Stocked(job: Job, on: bool, loads: nat, except: int, crcs: seq<bv16>, t: Trace)
    requires job.Valid() && |crcs| == |job.m|
  {
    on ==> forall k :: 0 <= k < |job.m| && S.IsShown(job.m, k) && k < loads && k != except ==>
                         AllHold(t, k + 1, crcs[k])
  }

  /** The slaves were last told to show the current entry, or nothing when the device is disabled. */
  ghost predicate Showing(on: bool, disp: nat, crcs: seq<bv16>, t: Trace)
    requires disp < |crcs| <= 6
  {
    if on then AllShow(t, disp + 1, crcs[disp]) else AllBlank(t)
  }

  /** The entry being loaded at a stop. */
  function Loading(job: Job, v: View): int {
    if v.pc == FirstSet then 0 else if v.pc == NextSet && v.loads < 2 * |job.m| then S.Turn(job.m, v.loads) else -1
  }

  /** The frame being loaded has been sent, and nothing since. */
  ghost predicate Sending(job: Job, on: bool, v: View, t: Trace)
    requires job.Valid() && 0 <= Loading(job, v) < |job.m| == |v.crcs|
  {
    var k := Loading(job, v);
    on ==> AllPending(t, k + 1, v.crcs[k])
  }

  ghost predicate Good(kinds: seq<Kind>, job: Job, on: bool, v: View, t: Trace)
    requires job.Valid()
  {
    Safe(kinds, t) && (v.pc == Begin || AtStop(job, on, v, t))
  }

  ghost predicate AtStop(job: Job, on: bool, v: View, t: Trace)
    requires job.Valid()
  {
    && InOrder(job, v) && |v.crcs| == |job.m|
    && Stocked(job, on, v.loads, Loading(job, v), v.crcs, t)
    && (v.pc == FirstSet || v.pc == NextSet ==> Clean(t) && Sending(job, on, v, t))
    && (v.pc == ShowCheck || v.pc == OnTime ==> Clean(t))
    && (v.pc == ShowAgain || v.pc == ShowCheck || v.pc == NextSet || v.pc == OnTime ==>
          S.IsShown(job.m, v.disp) ==> Showing(on, v.disp, v.crcs, t))
  }

  /** At the top of the message loop, with entry `disp` to be dealt with; `behind`, when the next entry has been loaded
      as well. */
  ghost predicate InLoop(job: Job, on: bool, v: View, behind: bool, t: Trace)
    requires job.Valid()
  {
    && v.disp < |job.m| == |v.crcs|
    && v.loads <= v.max < 2 * |job.m|
    && S.IsSetMax(job.m, v.max)
    && (if behind then Behind(job.m, v) else Before(job.m, v))
    && Stocked(job, on, v.loads, -1, v.crcs, t)
  }

  lemma StockedGrows(job: Job, on: bool, loads: nat, except: int, crcs: seq<bv16>, t: Trace, e: Event)
    requires job.Valid() && |crcs| == |job.m| && Stocked(job, on, loads, except, crcs, t)
    requires e.SetFrame? ==> e.slot == except + 1
    ensures Stocked(job, on, loads, except, crcs, t + [e])
  {
    hide AllHold;
    if on {
      forall k | 0 <= k < |job.m| && S.IsShown(job.m, k) && k < loads && k != except
        ensures AllHold(t + [e], k + 1, crcs[k])
      {
        HoldStays(t, e, k + 1, crcs[k]);
      }
    }
  }

  lemma StockedButOne(job: Job, on: bool, loads: nat, k: nat, crcs: seq<bv16>, t: Trace)
    requires job.Valid() && |crcs| == |job.m| && Stocked(job, on, loads, -1, crcs, t)
    ensures Stocked(job, on, loads, k, crcs, t)
  {}

  lemma ShowingGrows(on: bool, disp: nat, crcs: seq<bv16>, t: Trace, e: Event)
    requires disp < |crcs| <= 6 && Showing(on, disp, crcs, t) && !e.Show?
    ensures Showing(on, disp, crcs, t + [e])
  {
    hide AllShow, AllBlank;
    if on {
      ShownStays(t, e, disp + 1, crcs[disp]);
    } else {
      BlankStays(t, e);
    }
  }

  /** What holds at a stop still holds after anything that is not a command: replies, polls and forgetting, which may
      come at any time, and checks. */
  lemma QuietKeepsGood(kinds: seq<Kind>, job: Job, on: bool, v: View, t: Trace, e: Event)
    requires job.Valid() && Good(kinds, job, on, v, t)
    requires !e.IsCommand() && CheckIsSound(kinds, t, e)
    ensures Good(kinds, job, on, v, t + [e])
  {
    hide Safe, Clean, AllPending, Showing, Stocked, CheckIsSound;
    SafeGrows(kinds, t, e);
    CleanGrows(t, e);
    if v.pc != Begin {
      StockedGrows(job, on, v.loads, Loading(job, v), v.crcs, t, e);
      var k := Loading(job, v);
      if (v.pc == FirstSet || v.pc == NextSet) && on {
        PendingStays(t, e, k + 1, v.crcs[k]);
      }
      if Showing(on, v.disp, v.crcs, t) {
        ShowingGrows(on, v.disp, v.crcs, t, e);
      }
    }
  }

  // ----- What the slots hold -----

  function Collected(job: Job, loads: nat): Pixels
    requires job.Valid()
  {
    S.Underlay(job.depth, job.m, job.size, if loads < |job.m| then loads else |job.m|)
  }

  /** While there is something left to load, `orBuf` and `msgOverlay` are as the message needs them. */
  ghost predicate Collects(job: Job, loads: nat, max: nat, under: Pixels, overlay: bool)
    requires job.Valid()
  {
    loads < max ==> under == Collected(job, loads) && overlay == S.HasOverlay(job.m)
  }

  /** The loaded entries, but one, were sent as the schedule composes them. */
  ghost predicate HeldAsScheduled(job: Job, loads: nat, except: int, crcs: seq<bv16>)
    requires job.Valid() && |crcs| == |job.m|
  {
    forall k :: 0 <= k < |job.m| && S.IsShown(job.m, k) && k < loads && k != except ==> crcs[k] == job.HeldCrc(loads, k)
  }

  ghost predicate AsScheduled(job: Job, v: View, under: Pixels, overlay: bool)
    requires job.Valid()
  {
    && |v.crcs| == |job.m|
    && Collects(job, v.loads, v.max, under, overlay)
    && HeldAsScheduled(job, v.loads, Loading(job, v), v.crcs)
    && (0 <= Loading(job, v) < |job.m| && v.loads < 2 * |job.m| ==>
          v.crcs[Loading(job, v)] == NextCrc(job, v.loads, Loading(job, v)))
  }

  /** The checksum of entry k when it is sent after `loads` loads. */
  ghost function NextCrc(job: Job, loads: nat, k: nat): bv16
    requires job.Valid() && k < |job.m|
  {
    job.Crc(k, S.Composed(job.depth, job.m, k, Collected(job, loads)))
  }

  lemma NothingStocked(job: Job, on: bool, crcs: seq<bv16>, t: Trace)
    requires job.Valid() && |crcs| == |job.m|
    ensures Stocked(job, on, 0, -1, crcs, t) && Stocked(job, on, 0, 0, crcs, t)
    ensures HeldAsScheduled(job, 0, -1, crcs) && HeldAsScheduled(job, 0, 0, crcs)
    ensures Collected(job, 0) == Dark(job.size)
  {}

  /** Loading entry k changes what that entry should hold, and no other. */
  lemma HeldAfterLoad(job: Job, loads: nat, k: nat)
    requires job.Valid() && loads < 2 * |job.m| && k < |job.m| && k != S.Turn(job.m, loads)
    ensures k < loads + 1 <==> k < loads
    ensures k < loads ==> job.HeldCrc(loads + 1, k) == job.HeldCrc(loads, k)
  {}

  lemma LoadedHolds(job: Job, loads: nat, k: nat)
    requires job.Valid() && loads < 2 * |job.m| && k == S.Turn(job.m, loads) && S.IsShown(job.m, k)
    ensures job.HeldCrc(loads + 1, k) == NextCrc(job, loads, k)
  {}

  lemma HeldButOne(job: Job, loads: nat, k: nat, crcs: seq<bv16>)
    requires job.Valid() && |crcs| == |job.m| && HeldAsScheduled(job, loads, -1, crcs)
    ensures HeldAsScheduled(job, loads, k, crcs)
  {}

  /** An entry is sent. */
  lemma SentAsScheduled(job: Job, loads: nat, max: nat, k: nat, crcs: seq<bv16>, under: Pixels, overlay: bool)
    requires job.Valid() && |crcs| == |job.m| && loads < max && k < |job.m| && |under| == job.size
    requires Collects(job, loads, max, under, overlay) && HeldAsScheduled(job, loads, k, crcs)
    ensures |job.m[k].frame| == job.size && job.Crc(k, job.Made(overlay, k, under)) == NextCrc(job, loads, k)
    ensures HeldAsScheduled(job, loads, k, crcs[k := NextCrc(job, loads, k)])
  {
    hide S.Underlay, S.HasOverlay, Over, Job.HeldCrc;
    assert job.m[k] in job.m;
  }

  /** It has arrived. */
  lemma ArrivedAsScheduled(job: Job, loads: nat, max: nat, k: nat, crcs: seq<bv16>, under: Pixels, overlay: bool)
    requires job.Valid() && |crcs| == |job.m| && loads < max <= 2 * |job.m|
    requires k == S.Turn(job.m, loads) && S.IsShown(job.m, k)
    requires Collects(job, loads, max, under, overlay)
    requires HeldAsScheduled(job, loads, k, crcs) && crcs[k] == NextCrc(job, loads, k)
    ensures Collects(job, loads + 1, max, under, overlay) && HeldAsScheduled(job, loads + 1, -1, crcs)
  {
    LoadedHolds(job, loads, k);
    forall j | 0 <= j < |job.m| && S.IsShown(job.m, j) && j < loads + 1 && j != k
      ensures crcs[j] == job.HeldCrc(loads + 1, j)
    {
      HeldAfterLoad(job, loads, j);
    }
    hide Job.HeldCrc;
  }

  /** An overlay entry is collected, or passed by in the second round. */
  lemma CollectedAsScheduled(job: Job, loads: nat, max: nat, crcs: seq<bv16>, under: Pixels, overlay: bool)
    requires job.Valid() && |crcs| == |job.m| && loads < max <= 2 * |job.m| && |under| == job.size
    requires S.IsOverlay(job.m, S.Turn(job.m, loads))
    requires Collects(job, loads, max, under, overlay) && HeldAsScheduled(job, loads, -1, crcs)
    ensures HeldAsScheduled(job, loads + 1, -1, crcs)
    ensures |job.m[S.Turn(job.m, loads)].frame| == job.size
    ensures var now := if loads < |job.m| then job.Made(overlay, loads, under) else under;
            Collects(job, loads + 1, max, now, overlay)
  {
    assert job.m[S.Turn(job.m, loads)] in job.m;
    assert S.HasOverlay(job.m);
    forall j | 0 <= j < |job.m| && S.IsShown(job.m, j) && j < loads + 1 ensures crcs[j] == job.HeldCrc(loads + 1, j) {
      HeldAfterLoad(job, loads, j);
    }
    hide Job.HeldCrc;
  }

  // ----- Commands and what they keep -----

  function Least(a: int, b: int): int { if a <= b then a else b }

  function IfOn(on: bool, e: Event): seq<Event> {
    if on then [e] else []
  }

  /** Sending entry k to its slot and forgetting the replies. */
  lemma {:induction false} SendKeeps(kinds: seq<Kind>, job: Job, on: bool, loads: nat, k: nat, crc: bv16,
                                     crcs: seq<bv16>, t: Trace, t': Trace)
    requires job.Valid() && k < |job.m| == |crcs|
    requires Safe(kinds, t) && Stocked(job, on, loads, k, crcs, t)
    requires t' == t + IfOn(on, SetFrame(EVERY, k + 1, crc)) + [Clear]
    ensures Safe(kinds, t') && Stocked(job, on, loads, k, crcs[k := crc], t') && Clean(t')
    ensures on ==> AllPending(t', k + 1, crc)
    ensures forall disp :: 0 <= disp < |job.m| && disp != k && Showing(on, disp, crcs, t) ==>
                             Showing(on, disp, crcs[k := crc], t')
  {
    hide Safe, Clean, AllPending, AllHold, AllShow, AllBlank;
    var e := SetFrame(EVERY, k + 1, crc);
    var t1 := t + IfOn(on, e);
    if on {
      SafeGrows(kinds, t, e);
      StockedGrows(job, on, loads, k, crcs, t, e);
      Sent(t, k + 1, crc);
      PendingStays(t1, Clear, k + 1, crc);
    } else {
      assert t1 == t;
    }
    SafeGrows(kinds, t1, Clear);
    StockedGrows(job, on, loads, k, crcs, t1, Clear);
    CleanGrows(t1, Clear);
    forall disp | 0 <= disp < |job.m| && disp != k && Showing(on, disp, crcs, t)
      ensures Showing(on, disp, crcs[k := crc], t')
    {
      if on {
        ShowingGrows(on, disp, crcs, t, e);
      }
      ShowingGrows(on, disp, crcs, t1, Clear);
    }
  }

  /** Telling the slaves to show an entry that is in its slot. */
  lemma ShowKeeps(kinds: seq<Kind>, job: Job, on: bool, loads: nat, disp: nat, crcs: seq<bv16>, t: Trace)
    requires job.Valid() && disp < |job.m| == |crcs| && S.IsShown(job.m, disp) && disp < loads
    requires Safe(kinds, t) && Stocked(job, on, loads, -1, crcs, t)
    ensures var t' := t + [Show(EVERY, if on then disp + 1 else 0)];
            Safe(kinds, t') && Stocked(job, on, loads, -1, crcs, t') && Showing(on, disp, crcs, t')
  {
    hide Safe, AllShow, AllBlank;
    var e := Show(EVERY, if on then disp + 1 else 0);
    if on {
      assert AllHold(t, disp + 1, crcs[disp]);
      HeldIsReady(kinds, t, disp + 1, crcs[disp]);
      NowShown(t, disp + 1, crcs[disp]);
    } else {
      NowBlank(t);
    }
    SafeGrows(kinds, t, e);
    StockedGrows(job, on, loads, -1, crcs, t, e);
  }

  /** Any event that is no frame, no display command and no unsound check. */
  lemma QuietKeeps(kinds: seq<Kind>, job: Job, on: bool, loads: nat, except: int, crcs: seq<bv16>, t: Trace, e: Event)
    requires job.Valid() && |crcs| == |job.m|
    requires Safe(kinds, t) && CheckIsSound(kinds, t, e) && !e.SetFrame? && (e.Show? ==> e.slot == 0)
    requires Stocked(job, on, loads, except, crcs, t)
    ensures Safe(kinds, t + [e]) && Stocked(job, on, loads, except, crcs, t + [e])
  {
    hide Safe, CheckIsSound, Stocked;
    SafeGrows(kinds, t, e);
    StockedGrows(job, on, loads, except, crcs, t, e);
  }

  /** The check that finds the frame being loaded with every slave ends the load. */
  lemma LoadArrives(kinds: seq<Kind>, job: Job, on: bool, v: View, t: Trace)
    requires job.Valid() && (v.pc == FirstSet || v.pc == NextSet) && InOrder(job, v) && |v.crcs| == |job.m|
    requires Safe(kinds, t) && Stocked(job, on, v.loads, Loading(job, v), v.crcs, t) && Sending(job, on, v, t)
    requires CheckIsSound(kinds, t, CheckedNext(0))
    ensures Safe(kinds, t + [CheckedNext(0)]) && Stocked(job, on, v.loads + 1, -1, v.crcs, t + [CheckedNext(0)])
    ensures Showing(on, v.disp, v.crcs, t) ==> Showing(on, v.disp, v.crcs, t + [CheckedNext(0)])
  {
    hide Safe, AllPending, AllHold, AllShow, AllBlank;
    var e := CheckedNext(0);
    var k := Loading(job, v);
    SafeGrows(kinds, t, e);
    StockedGrows(job, on, v.loads, k, v.crcs, t, e);
    if on {
      Arrived(t, k + 1, v.crcs[k]);
    }
    if Showing(on, v.disp, v.crcs, t) {
      ShowingGrows(on, v.disp, v.crcs, t, e);
    }
  }

  /** An overlay entry has no slot. */
  lemma OverlayLoaded(job: Job, on: bool, loads: nat, crcs: seq<bv16>, t: Trace)
    requires job.Valid() && |crcs| == |job.m| && loads < 2 * |job.m| && S.IsOverlay(job.m, S.Turn(job.m, loads))
    requires Stocked(job, on, loads, -1, crcs, t)
    ensures Stocked(job, on, loads + 1, -1, crcs, t)
  {
    hide AllHold;
  }

  // ----- The coroutine -----

  class MsgTask {
    const bus: Bus
    const job: Job
    const transTime: nat
    const orBuf: array<bv8>
    var pc: Pc
    var msgSetEntry: nat
    var msgSetEntryMax: nat
    var msgDispEntry: nat
    var msgSlaveErrCnt: nat
    var msgOverlay: bool
    /** Whether `taskMsgTmr` is set; a cleared timer never expires. */
    var taskMsgTmrSet: bool
    /** The checksum last sent for each entry. */
    ghost var crcs: seq<bv16>
    /** Nobody has wiped `orBuf` since the message began, while it was still needed. */
    ghost var intact: bool

    constructor (bus: Bus, job: Job, transTime: nat)
      requires bus.Valid() && job.Valid() && Safe(bus.kinds, bus.trace)
      ensures Inv() && pc == Begin && this.bus == bus && this.job == job && this.transTime == transTime && fresh(orBuf)
    {
      this.bus, this.job, this.transTime := bus, job, transTime;
      orBuf := new bv8[job.size];
      pc := Begin;
      msgSetEntry, msgSetEntryMax, msgDispEntry, msgSlaveErrCnt := 0, 0, 0, 0;
      msgOverlay, taskMsgTmrSet := false, false;
      crcs, intact := [], true;
    }

    ghost predicate Ready()
      reads this, bus, bus.vSlaves
    {
      bus.Valid() && job.Valid() && orBuf.Length == job.size && Safe(bus.kinds, bus.trace)
    }

    ghost function Now(): View
      reads this
    {
      View(pc, msgSetEntry, msgDispEntry, msgSetEntryMax, crcs)
    }

    ghost predicate Inv()
      reads this, orBuf, bus, bus.vSlaves
    {
      && Ready()
      && Good(bus.kinds, job, bus.deviceEnDisCur, Now(), bus.trace)
      && (pc != Begin ==> job.SetsASlot())
      && (pc != Begin && intact ==> AsScheduled(job, Now(), orBuf[..], msgOverlay))
      && (pc == ShowAgain || pc == ShowCheck || pc == NextSet || pc == OnTime ==> TimerIsRight())
    }

    /** What `Inv` says when the history of the bus is `t`. */
    ghost predicate InvAt(t: Trace)
      reads this, orBuf, bus`deviceEnDisCur
    {
      && job.Valid() && orBuf.Length == job.size && Safe(bus.kinds, t)
      && Good(bus.kinds, job, bus.deviceEnDisCur, Now(), t)
      && (pc != Begin ==> job.SetsASlot())
      && (pc != Begin && intact ==> AsScheduled(job, Now(), orBuf[..], msgOverlay))
      && (pc == ShowAgain || pc == ShowCheck || pc == NextSet || pc == OnTime ==> TimerIsRight())
    }

    lemma InvNow()
      ensures Inv() <==> bus.Valid() && InvAt(bus.trace)
    {
      hide Good, AsScheduled, Bus.Valid;
    }

    /** Replies, polls and forgetting, whoever lets them happen. */
    lemma QuietInvAt(t: Trace, e: Event)
      requires InvAt(t) && !e.IsCommand() && CheckIsSound(bus.kinds, t, e)
      ensures InvAt(t + [e])
    {
      hide AtStop, AsScheduled;
      QuietKeepsGood(bus.kinds, job, bus.deviceEnDisCur, Now(), t, e);
    }

    lemma InvIsSafe()
      requires Inv()
      ensures bus.Valid() && Safe(bus.kinds, bus.trace) && job.Valid() && orBuf.Length == job.size
      ensures pc != Begin ==> job.SetsASlot()
    {}

    lemma LineIsInRange()
      requires Inv()
      ensures pc != Begin ==> msgDispEntry < |job.m| <= msgSetEntryMax < 2 * |job.m|
    {
      hide Safe, Stocked, Showing, S.IsSetMax, S.HasOverlay, Bus.Valid, Sending, AsScheduled;
      if pc != Begin {
        S.SetMaxRange(job.m, msgSetEntryMax);
      }
    }

    /** While an entry is shown its timer is set exactly when it has a time: a last entry without one never ends. */
    ghost predicate TimerIsRight()
      requires job.Valid()
      reads this
    {
      msgDispEntry < |job.m| && S.IsShown(job.m, msgDispEntry) ==> taskMsgTmrSet == (job.m[msgDispEntry].onTime != 0)
    }

    /** The checksum of entry k as it would be sent now. */
    ghost function CrcNow(k: nat): bv16
      requires job.Valid() && orBuf.Length == job.size && k < |job.m|
      reads this`msgOverlay, orBuf
    {
      assert job.m[k] in job.m;
      job.Crc(k, job.Made(msgOverlay, k, orBuf[..]))
    }

    /** What goes out when entry k is sent: its frame, over what has been collected, and then the replies are
        forgotten. */
    ghost function Sent(k: nat): seq<Event>
      requires job.Valid() && orBuf.Length == job.size && k < |job.m|
      reads this`msgOverlay, orBuf, bus
    {
      IfOn(bus.deviceEnDisCur, SetFrame(EVERY, k + 1, CrcNow(k))) + [Clear]
    }

    /** `SlaveSetFrame` of entry k and `ClrAllSlavesRxStatus`. */
    method SendEntry(k: nat)
      requires bus.Valid() && job.Valid() && orBuf.Length == job.size && k < |job.m| == |crcs|
      modifies this`crcs, bus`trace, bus.vSlaves
      ensures bus.Valid() && orBuf[..] == old(orBuf[..]) && crcs == old(crcs)[k := CrcNow(k)]
      ensures bus.trace == old(bus.trace) + Sent(k)
    {
      hide PacketCrc, Over, Bus.SlaveAgrees;
      var pixels := TransFrmWithOrBuf(k);
      bus.SlaveSetFrame(EVERY, k + 1, 1, Packet(SET_GFX_FRM, job.m[k].head + pixels));
      crcs := crcs[k := CrcNow(k)];
      bus.ClrAllSlavesRxStatus();
    }

    /** `TransFrmWithOrBuf` of an entry on its way to the slaves. */
    method TransFrmWithOrBuf(k: nat) returns (pixels: Pixels)
      requires job.Valid() && orBuf.Length == job.size && k < |job.m|
      ensures orBuf[..] == old(orBuf[..])
      ensures |job.m[k].frame| == job.size && pixels == job.Made(msgOverlay, k, orBuf[..])
    {
      hide Over;
      pixels := job.m[k].frame;
      assert job.m[k] in job.m;
      if msgOverlay {
        var txBuf := new bv8[job.size];
        SetWithOrBuf(job.depth, txBuf, 0, pixels, orBuf);
        assert txBuf[0..job.size] == txBuf[..];
        pixels := txBuf[..];
      }
    }

    /** `ITransFrmWithOrBuf` of an overlay entry into `orBuf` itself. */
    method Collect(k: nat)
      requires job.Valid() && orBuf.Length == job.size && k < |job.m|
      modifies orBuf
      ensures |job.m[k].frame| == job.size && orBuf[..] == job.Made(msgOverlay, k, old(orBuf[..]))
    {
      assert job.m[k] in job.m;
      if msgOverlay {
        SetWithOrBuf(job.depth, orBuf, 0, job.m[k].frame, orBuf);
        assert orBuf[0..job.size] == orBuf[..];
      } else {
        forall i | 0 <= i < orBuf.Length {
          orBuf[i] := job.m[k].frame[i];
        }
      }
    }

    method ClrOrBuf()
      requires orBuf.Length == job.size
      modifies this`msgOverlay, orBuf
      ensures !msgOverlay && orBuf[..] == Dark(job.size)
    {
      msgOverlay := false;
      for i := 0 to orBuf.Length
        invariant !msgOverlay && forall k :: 0 <= k < i ==> orBuf[k] == 0
      {
        orBuf[i] := 0;
      }
    }

    /** `ClrOrBuf` on behalf of the plan task, while the message goes on: what is still to be loaded loses its
        overlays. */
    method Wipe()
      requires job.Valid() && orBuf.Length == job.size
      modifies this`msgOverlay, this`intact, orBuf
      ensures !msgOverlay && Now() == old(Now())
      ensures old(Inv()) ==> Inv()
      ensures intact == (old(intact) && (pc == Begin || !S.HasOverlay(job.m) || msgSetEntry >= msgSetEntryMax))
    {
      hide Good, S.HasOverlay, S.Underlay, Bus.Valid, Safe, HeldAsScheduled;
      ClrOrBuf();
      if pc != Begin && S.HasOverlay(job.m) && msgSetEntry < msgSetEntryMax {
        intact := false;
      }
      S.NoOverlayNoUnderlay(job.depth, job.m, job.size, if msgSetEntry < |job.m| then msgSetEntry else |job.m|);
    }

    ghost predicate InLoopNow(behind: bool)
      reads this, orBuf, bus, bus.vSlaves
    {
      && Ready() && job.SetsASlot()
      && InLoop(job, bus.deviceEnDisCur, Now(), behind, bus.trace)
      && (intact ==> LoadsAsScheduled())
    }

    ghost predicate LoadsAsScheduled()
      requires job.Valid() && |crcs| == |job.m|
      reads this`msgSetEntry, this`msgSetEntryMax, this`msgOverlay, this`crcs, orBuf
    {
      && Collects(job, msgSetEntry, msgSetEntryMax, orBuf[..], msgOverlay)
      && HeldAsScheduled(job, msgSetEntry, -1, crcs)
    }

    ghost predicate ShowingNow()
      requires job.Valid() && msgDispEntry < |job.m| == |crcs|
      reads this, bus
    {
      Showing(bus.deviceEnDisCur, msgDispEntry, crcs, bus.trace)
    }

    /** The coroutine waits for the first entry with a slot to arrive, having collected the overlay entries before it. */
    ghost predicate AtFirst()
      requires job.Valid()
      reads this
    {
      && msgSetEntry < |job.m| && S.IsShown(job.m, msgSetEntry)
      && (forall j :: 0 <= j < msgSetEntry ==> S.IsOverlay(job.m, j))
      && (if msgSetEntry == 0 then pc == FirstSet && msgDispEntry == 0
          else pc == NextSet && msgDispEntry == msgSetEntry - 1)
    }

    ghost function Shown(k: nat): seq<Event>
      requires k < MAX_ENTRIES
      reads this, bus
    {
      [Show(EVERY, if bus.deviceEnDisCur then k + 1 else 0)]
    }

    /** The message has begun: the first entry with a slot has been sent. */
    ghost predicate Begun(t: Trace)
      requires job.Valid() && orBuf.Length == job.size
      reads this, orBuf, bus
    {
      AtFirst() && bus.trace == t + Sent(msgSetEntry)
    }

    /** The loop has run from entry `from` after `loads` loads: the overlay entries from there on are behind, and for each
        of them one more entry has been loaded while there was one to load. The entry after them is shown, when it had not
        to be loaded, or it has just been sent. */
    ghost predicate Looped(max: nat, from: nat, loads: nat, t: Trace)
      requires job.Valid() && orBuf.Length == job.size
      reads this, orBuf, bus
    {
      && from <= msgDispEntry < |job.m| && msgSetEntryMax == max
      && (forall j :: from <= j < msgDispEntry ==> S.IsOverlay(job.m, j))
      && msgSetEntry == Least(loads + msgDispEntry - from, max)
      && if S.IsShown(job.m, msgDispEntry) then
           && pc == ShowAgain && msgSlaveErrCnt == 0 && bus.trace == t + Shown(msgDispEntry)
           && (msgDispEntry == from || loads + msgDispEntry - from > max)
         else
           pc == NextSet && msgSetEntry < max && S.IsShown(job.m, msgDispEntry + 1)
           && bus.trace == t + Sent(msgDispEntry + 1)
    }

    /** With entry v.disp on display, the entry after it has been sent, or there is nothing to wait for. */
    ghost predicate LoadedBehind(v: View, t: Trace)
      requires job.Valid() && orBuf.Length == job.size && |job.m| <= v.max < 2 * |job.m|
      reads this, orBuf, bus
    {
      && msgDispEntry == v.disp && msgSetEntryMax == v.max
      && if v.loads < v.max && S.IsShown(job.m, S.Turn(job.m, v.loads)) then
           pc == NextSet && msgSetEntry == v.loads && bus.trace == t + Sent(S.Turn(job.m, v.loads))
         else
           pc == OnTime && msgSetEntry == Least(v.loads + 1, v.max) && bus.trace == t
    }

    /** Entry v.disp has had its time: the round is over, or the loop has gone on to the next one. */
    ghost predicate EntryIsDone(v: View, t: Trace)
      requires job.Valid() && orBuf.Length == job.size
      reads this, orBuf, bus
    {
      if v.disp == |job.m| - 1 then pc == RoundEnd && SameCounters(v) && bus.trace == t
      else Looped(v.max, v.disp + 1, v.loads, t)
    }

    ghost predicate SameCounters(was: View)
      reads this
    {
      msgSetEntry == was.loads && msgDispEntry == was.disp && msgSetEntryMax == was.max
    }

    /** At the same line with the same counters. */
    ghost predicate Same(was: View)
      reads this
    {
      pc == was.pc && SameCounters(was)
    }

    /** Sends the entry that is next to be loaded, and waits for it to arrive. */
    method SendNext(k: nat)
      requires InLoopNow(false) && msgSetEntry < msgSetEntryMax
      requires k == S.Turn(job.m, msgSetEntry) && S.IsShown(job.m, k)
      requires S.IsShown(job.m, msgDispEntry) ==> ShowingNow()
      requires TimerIsRight()
      modifies this`pc, this`crcs, bus`trace, bus.vSlaves
      ensures Inv() && pc == NextSet
      ensures bus.trace == old(bus.trace) + Sent(k)
    {
      hide Safe, Stocked, Showing, S.IsSetMax, S.HasOverlay, Job.Crc, Clean, Bus.SlaveAgrees, AllPending, Collects,
        HeldAsScheduled, S.ValidMessage, Job.Made, NextCrc;
      StockedButOne(job, bus.deviceEnDisCur, msgSetEntry, k, crcs, bus.trace);
      if intact {
        HeldButOne(job, msgSetEntry, k, crcs);
        SentAsScheduled(job, msgSetEntry, msgSetEntryMax, k, crcs, orBuf[..], msgOverlay);
      }
      SendIt(k);
      pc := NextSet;
    }

    /** What `SendEntry` keeps, of the history and of the slots. */
    method SendIt(k: nat)
      requires Ready() && |crcs| == |job.m| && k < |job.m|
      requires Stocked(job, bus.deviceEnDisCur, msgSetEntry, k, crcs, bus.trace)
      modifies this`crcs, bus`trace, bus.vSlaves
      ensures Ready() && |crcs| == |job.m| && orBuf[..] == old(orBuf[..])
      ensures bus.trace == old(bus.trace) + Sent(k)
      ensures Stocked(job, bus.deviceEnDisCur, msgSetEntry, k, crcs, bus.trace) && Clean(bus.trace)
      ensures bus.deviceEnDisCur ==> AllPending(bus.trace, k + 1, crcs[k])
      ensures forall disp | 0 <= disp < |job.m| && disp != k
                :: Showing(bus.deviceEnDisCur, disp, old(crcs), old(bus.trace)) ==>
                     Showing(bus.deviceEnDisCur, disp, crcs, bus.trace)
      ensures crcs == old(crcs)[k := CrcNow(k)]
    {
      hide Safe, Showing, S.HasOverlay, Job.Crc, Clean, Bus.SlaveAgrees, AllPending, AllHold, S.ValidMessage, CrcNow;
      ghost var t, was := bus.trace, crcs;
      SendEntry(k);
      SendKeeps(bus.kinds, job, bus.deviceEnDisCur, msgSetEntry, k, crcs[k], was, t, bus.trace);
    }

    /** Loads the overlay entry that is next to be loaded. */
    method CollectNext(k: nat)
      requires InLoopNow(false) && msgSetEntry < msgSetEntryMax
      requires k == S.Turn(job.m, msgSetEntry) && S.IsOverlay(job.m, k)
      requires S.IsShown(job.m, msgDispEntry) ==> ShowingNow()
      modifies this`msgSetEntry, orBuf
      ensures InLoopNow(true) && (S.IsShown(job.m, msgDispEntry) ==> ShowingNow())
      ensures msgSetEntry == old(msgSetEntry) + 1
    {
      hide Safe, Stocked, Showing, S.IsSetMax, S.HasOverlay, Bus.SlaveAgrees, Over, Collects, HeldAsScheduled;
      OverlayLoaded(job, bus.deviceEnDisCur, msgSetEntry, crcs, bus.trace);
      if intact {
        CollectedAsScheduled(job, msgSetEntry, msgSetEntryMax, crcs, orBuf[..], msgOverlay);
      }
      if msgSetEntry < |job.m| {
        Collect(k);
      }
      msgSetEntry := msgSetEntry + 1;
    }

    /** Loads the entry after the current one, if there is one to load: an overlay entry at once, another by sending it
        and waiting. */
    method LoadNext() returns (waiting: bool)
      requires InLoopNow(false) && TimerIsRight()
      requires S.IsShown(job.m, msgDispEntry) ==> ShowingNow()
      modifies this, orBuf, bus`trace, bus.vSlaves
      ensures unchanged(this`msgDispEntry) && unchanged(this`msgSetEntryMax) && unchanged(this`msgSlaveErrCnt)
      ensures unchanged(this`taskMsgTmrSet) && unchanged(this`intact)
      ensures waiting ==> Inv() && pc == NextSet && unchanged(this`msgSetEntry)
      ensures waiting ==> bus.trace == old(bus.trace) + Sent(S.Turn(job.m, msgSetEntry))
      ensures old(msgSetEntry) < msgSetEntryMax ==> S.Turn(job.m, old(msgSetEntry)) == old(DueEntry())
      ensures !waiting ==> InLoopNow(true) && (S.IsShown(job.m, msgDispEntry) ==> ShowingNow())
      ensures !waiting ==> bus.trace == old(bus.trace) && unchanged(this`pc)
      ensures !waiting ==> msgSetEntry == if old(msgSetEntry) < msgSetEntryMax then old(msgSetEntry) + 1
                                          else old(msgSetEntry)
      ensures waiting <==> old(msgSetEntry) < msgSetEntryMax && S.IsShown(job.m, S.Turn(job.m, old(msgSetEntry)))
    {
      hide Safe, Stocked, Showing, S.IsSetMax, S.HasOverlay, Job.Crc, Good, Bus.Valid, S.ValidMessage, Collects,
        HeldAsScheduled, CrcNow;
      if msgSetEntry < msgSetEntryMax {
        var nextEntry := if msgDispEntry == |job.m| - 1 then 0 else msgDispEntry + 1;
        assert nextEntry == S.Turn(job.m, msgSetEntry);
        if job.m[nextEntry].onTime == 0 && nextEntry != |job.m| - 1 {
          CollectNext(nextEntry);
          return false;
        } else {
          SendNext(nextEntry);
          return true;
        }
      }
      return false;
    }

    /** Tells the slaves to show the current entry. */
    method ShowEntry()
      requires InLoopNow(false) && S.IsShown(job.m, msgDispEntry) && TimerIsRight()
      modifies this`pc, bus`trace, bus.vSlaves
      ensures Inv() && pc == ShowAgain
      ensures bus.trace == old(bus.trace) + Shown(msgDispEntry)
    {
      hide Safe, Stocked, Showing, S.IsSetMax, S.HasOverlay, Bus.SlaveAgrees, Collects, HeldAsScheduled;
      S.SetMaxRange(job.m, msgSetEntryMax);
      ShowKeeps(bus.kinds, job, bus.deviceEnDisCur, msgSetEntry, msgDispEntry, crcs, bus.trace);
      bus.SlaveSDFrame(EVERY, msgDispEntry + 1);
      pc := ShowAgain;
    }

    /** Passes on from an overlay entry, with the next entry loaded. */
    method PassOn()
      requires InLoopNow(true) && S.IsOverlay(job.m, msgDispEntry)
      modifies this`msgDispEntry
      ensures InLoopNow(false) && msgDispEntry == old(msgDispEntry) + 1
    {
      hide Safe, Stocked, S.IsSetMax, Bus.Valid, S.ValidMessage, LoadsAsScheduled;
      S.SetMaxRange(job.m, msgSetEntryMax);
      msgDispEntry := msgDispEntry + 1;
    }

    lemma LoopRange(behind: bool)
      requires InLoopNow(behind)
      ensures msgDispEntry < |job.m| == |crcs| && msgSetEntry <= msgSetEntryMax && |job.m| <= 6
      ensures |job.m| <= msgSetEntryMax < 2 * |job.m|
    {
      hide Safe, Stocked, S.IsSetMax, Bus.Valid, LoadsAsScheduled;
      S.SetMaxRange(job.m, msgSetEntryMax);
    }

    /** From the top of the message loop to the next stop: overlay entries are passed by, loading what comes after them,
        until one is to be shown or has to be waited for. */
    method MsgLoop()
      requires InLoopNow(false)
      modifies this, orBuf, bus`trace, bus.vSlaves
      ensures Inv() && pc != Begin && unchanged(this`intact)
      ensures Looped(old(msgSetEntryMax), old(msgDispEntry), old(msgSetEntry), old(bus.trace))
      ensures pc == NextSet ==> unchanged(this`msgSlaveErrCnt)
    {
      hide Safe, Stocked, Showing, S.IsSetMax, S.HasOverlay, Good, Bus.Valid, S.ValidMessage, LoadsAsScheduled,
        AsScheduled,
        InLoop, CrcNow;
      LoopRange(false);
      while S.IsOverlay(job.m, msgDispEntry)
        invariant InLoopNow(false)
        invariant old(msgDispEntry) <= msgDispEntry < |job.m|
        invariant forall j :: old(msgDispEntry) <= j < msgDispEntry ==> S.IsOverlay(job.m, j)
        invariant msgSetEntry == Least(old(msgSetEntry) + msgDispEntry - old(msgDispEntry), msgSetEntryMax)
        invariant msgDispEntry == old(msgDispEntry) || S.IsOverlay(job.m, msgDispEntry)
                  || old(msgSetEntry) + msgDispEntry - old(msgDispEntry) > msgSetEntryMax
        invariant bus.trace == old(bus.trace) && unchanged(this`intact) && unchanged(this`msgSetEntryMax)
        invariant unchanged(this`msgSlaveErrCnt)
        decreases |job.m| - msgDispEntry
      {
        var waiting := LoadNext();
        if waiting {
          return;
        }
        LoopRange(true);
        PassOn();
        LoopRange(false);
      }
      taskMsgTmrSet := job.m[msgDispEntry].onTime != 0;
      msgSlaveErrCnt := 0;
      ShowEntry();
    }

    /** The start, or restart, of the message: `InitMsgOverlayBuf` and the first entry. */
    method Start()
      requires Ready() && job.SetsASlot()
      modifies this, orBuf, bus`trace, bus.vSlaves
      ensures Inv() && old(bus.trace) <= bus.trace && Begun(old(bus.trace)) && pc != Begin && intact
    {
      hide Safe, Bus.Valid, Good, S.HasOverlay, S.IsSetMax, Stocked, HeldAsScheduled, S.Underlay;
      ClrOrBuf();
      msgOverlay, msgSetEntryMax := S.CountSets(job.m);
      S.SetMaxRange(job.m, msgSetEntryMax);
      msgSetEntry, msgDispEntry := 0, 0;
      crcs, intact := seq(|job.m|, _ => 0), true;
      NothingStocked(job, bus.deviceEnDisCur, crcs, bus.trace);
      if job.m[0].onTime == 0 {
        StartCollecting();
      } else {
        StartSending();
      }
    }

    /** The start of a message of one entry without a time: its slot is shown as it is, which is in order exactly when it
        happens to hold a frame that every slave has confirmed. */
    method StartUnset()
      requires Ready() && |job.m| == 1 && !job.SetsASlot()
      modifies this, orBuf, bus`trace, bus.vSlaves
      ensures bus.Valid()
      ensures var shown := Show(EVERY, if bus.deviceEnDisCur then 1 else 0);
              && bus.trace == old(bus.trace) + [shown]
              && (Safe(bus.kinds, bus.trace) <==> ShowIsReady(bus.kinds, old(bus.trace), shown))
      ensures msgSetEntry == 1 && msgDispEntry == 0 && msgSetEntryMax == 1 && !msgOverlay && orBuf[..] == job.m[0].frame
    {
      hide Safe, Bus.SlaveAgrees, ShowIsReady, ChecksAreSound;
      ClrOrBuf();
      msgOverlay, msgSetEntryMax := S.CountSets(job.m);
      Collect(0);
      msgSetEntry, msgDispEntry := 1, 0;
      ghost var t := bus.trace;
      bus.SlaveSDFrame(EVERY, 1);
      SafeExactly(bus.kinds, t, Show(EVERY, if bus.deviceEnDisCur then 1 else 0));
    }

    ghost predicate Started()
      reads this, orBuf, bus, bus.vSlaves
    {
      && Ready() && job.SetsASlot() && intact
      && msgSetEntry == 0 && msgDispEntry == 0 && |crcs| == |job.m|
      && |job.m| <= msgSetEntryMax < 2 * |job.m|
      && S.IsSetMax(job.m, msgSetEntryMax)
      && Collects(job, 0, msgSetEntryMax, orBuf[..], msgOverlay)
      && HeldAsScheduled(job, 0, -1, crcs) && HeldAsScheduled(job, 0, 0, crcs)
      && Stocked(job, bus.deviceEnDisCur, 0, -1, crcs, bus.trace)
      && Stocked(job, bus.deviceEnDisCur, 0, 0, crcs, bus.trace)
    }

    method StartCollecting()
      requires Started() && job.m[0].onTime == 0
      modifies this, orBuf, bus`trace, bus.vSlaves
      ensures Inv() && old(bus.trace) <= bus.trace && Begun(old(bus.trace)) && pc != Begin && intact
    {
      hide Safe, Stocked, Showing, S.IsSetMax, S.HasOverlay, Bus.Valid, LoadsAsScheduled, AsScheduled, CrcNow,
        Job.Valid,
        InLoop;
      CollectFirst();
      hide Good;
      LoopRange(false);
      MsgLoop();
      assert pc == NextSet && msgSetEntry == msgDispEntry + 1;
      AtNext();
    }

    method CollectFirst()
      requires Started() && job.m[0].onTime == 0
      modifies this`msgSetEntry, orBuf
      ensures InLoopNow(false) && msgSetEntry == 1 && intact && S.IsOverlay(job.m, 0)
    {
      hide Safe, Stocked, Showing, S.IsSetMax, S.HasOverlay, Bus.Valid, Over, Collects, HeldAsScheduled, S.ValidMessage;
      OverlayLoaded(job, bus.deviceEnDisCur, 0, crcs, bus.trace);
      CollectedAsScheduled(job, 0, msgSetEntryMax, crcs, orBuf[..], msgOverlay);
      Collect(0);
      msgSetEntry := 1;
    }

    /** Waiting after overlay entries only is waiting for the first entry with a slot. */
    lemma AtNext()
      requires Inv() && pc == NextSet && msgSetEntry == msgDispEntry + 1
      requires forall j :: 0 <= j < msgSetEntry ==> S.IsOverlay(job.m, j)
      ensures AtFirst()
    {}

    method StartSending()
      requires Started() && job.m[0].onTime != 0
      modifies this, orBuf, bus`trace, bus.vSlaves
      ensures Inv() && old(bus.trace) <= bus.trace && Begun(old(bus.trace)) && pc != Begin && intact
    {
      hide Safe, Stocked, Showing, S.IsSetMax, S.HasOverlay, Bus.SlaveAgrees, Job.Crc, Clean, AllPending,
        S.ValidMessage,
        Collects, HeldAsScheduled, Job.Made, NextCrc;
      SentAsScheduled(job, 0, msgSetEntryMax, 0, crcs, orBuf[..], msgOverlay);
      SendIt(0);
      pc := FirstSet;
    }

    // ----- Resuming -----

    /** Checks for the frame being loaded: 0 when it has arrived. */
    method CheckNext()
      requires Inv() && (pc == FirstSet || pc == NextSet)
      modifies bus`trace, bus`allSlavesNext
      ensures bus.Valid() && bus.allSlavesNext in {-1, 0, 1}
      ensures bus.trace == old(bus.trace) + [CheckedNext(bus.allSlavesNext)]
      ensures bus.allSlavesNext == AllNext(bus.kinds, old(bus.trace))
      ensures Inv()
    {
      hide AsScheduled, Bus.SlaveAgrees, Stocked, Showing, Sending, InOrder;
      NextResults(bus.kinds, bus.trace);
      ghost var t := bus.trace;
      bus.CheckAllSlavesNext();
      QuietKeepsGood(bus.kinds, job, bus.deviceEnDisCur, Now(), t, CheckedNext(bus.allSlavesNext));
    }

    /** Checks what is on display. */
    method CheckCurrent()
      requires Inv() && (pc == ShowCheck || pc == OnTime)
      modifies bus`trace, bus`allSlavesCurrent
      ensures Inv() && msgDispEntry < |job.m| && bus.allSlavesCurrent == AllCurrent(bus.kinds, old(bus.trace))
      ensures bus.trace == old(bus.trace) + [CheckedCurrent(bus.allSlavesCurrent)]
    {
      hide AsScheduled, Bus.SlaveAgrees, Stocked, Showing, Sending;
      ghost var t := bus.trace;
      bus.CheckAllSlavesCurrent();
      QuietKeepsGood(bus.kinds, job, bus.deviceEnDisCur, Now(), t, CheckedCurrent(bus.allSlavesCurrent));
    }

    /** The frame has arrived at all slaves: one more load. */
    ghost method Arrive(t: Trace)
      requires Inv() && (pc == FirstSet || pc == NextSet)
      requires bus.trace == t + [CheckedNext(0)] && AllNext(bus.kinds, t) == 0 && Clean(t)
      requires Good(bus.kinds, job, bus.deviceEnDisCur, Now(), t)
      ensures InLoop(job, bus.deviceEnDisCur, Now().(loads := msgSetEntry + 1), pc == NextSet, bus.trace)
      ensures Clean(bus.trace)
      ensures pc == NextSet && S.IsShown(job.m, msgDispEntry) ==>
                Showing(bus.deviceEnDisCur, msgDispEntry, crcs, bus.trace)
      ensures intact ==> Collects(job, msgSetEntry + 1, msgSetEntryMax, orBuf[..], msgOverlay)
                         && HeldAsScheduled(job, msgSetEntry + 1, -1, crcs)
    {
      hide Safe, Stocked, Showing, S.IsSetMax, S.HasOverlay, Bus.Valid, Sending, Clean, Collects, HeldAsScheduled,
        AsScheduled;
      S.SetMaxRange(job.m, msgSetEntryMax);
      LoadArrives(bus.kinds, job, bus.deviceEnDisCur, Now(), t);
      CleanGrows(t, CheckedNext(0));
      if intact {
        AsScheduledOnArrival();
      }
    }

    lemma AsScheduledOnArrival()
      requires Inv() && (pc == FirstSet || pc == NextSet) && intact
      ensures Collects(job, msgSetEntry + 1, msgSetEntryMax, orBuf[..], msgOverlay)
      ensures HeldAsScheduled(job, msgSetEntry + 1, -1, crcs)
    {
      hide Safe, Stocked, Showing, S.IsSetMax, S.HasOverlay, Bus.Valid, Sending, Clean, Collects, HeldAsScheduled;
      S.SetMaxRange(job.m, msgSetEntryMax);
      ArrivedAsScheduled(job, msgSetEntry, msgSetEntryMax, Loading(job, Now()), crcs, orBuf[..], msgOverlay);
    }

    /** What a check at `FirstSet` comes to. */
    ghost predicate FirstSetDone(v: View, t: Trace)
      requires job.Valid() && orBuf.Length == job.size
      reads this, orBuf, bus
    {
      var r := bus.allSlavesNext;
      r == AllNext(bus.kinds, t) &&
      if r < 0 then Same(v) && bus.trace == t + [CheckedNext(r)]
      else if r == 1 then Same(v) && bus.trace == t + [CheckedNext(1)] + Sent(0)
      else Looped(v.max, 0, 1, t + [CheckedNext(0)])
    }

    method ResumeFirstSet()
      requires Inv() && pc == FirstSet
      modifies this, orBuf, bus`trace, bus`allSlavesNext, bus.vSlaves
      ensures pc != Begin && (old(intact) ==> intact)
      ensures Inv() && old(bus.trace) <= bus.trace && FirstSetDone(old(Now()), old(bus.trace))
    {
      hide Safe, Stocked, Showing, S.IsSetMax, S.HasOverlay, Bus.Valid, Sending, Job.Crc, Collects, HeldAsScheduled,
        CrcNow;
      ghost var t := bus.trace;
      CheckNext();
      if bus.allSlavesNext < 0 {
        return;
      }
      if bus.allSlavesNext == 1 {
        ResendEntry(0);
      } else {
        Arrive(t);
        msgSetEntry := 1;
        MsgLoop();
      }
    }

    /** Sends the frame being loaded once more. */
    method ResendEntry(k: nat)
      requires Inv() && (pc == FirstSet || pc == NextSet) && k == Loading(job, Now())
      modifies this`crcs, bus`trace, bus.vSlaves
      ensures Inv()
      ensures bus.trace == old(bus.trace) + Sent(k)
    {
      hide Safe, Stocked, Showing, S.IsSetMax, S.HasOverlay, Bus.SlaveAgrees, Job.Crc, Clean, AllPending,
        S.ValidMessage,
        Collects, HeldAsScheduled, Job.Made, NextCrc;
      S.SetMaxRange(job.m, msgSetEntryMax);
      if intact {
        AsScheduledAgain(k);
      }
      SendIt(k);
    }

    lemma AsScheduledAgain(k: nat)
      requires Inv() && (pc == FirstSet || pc == NextSet) && intact && k == Loading(job, Now())
      ensures k < |job.m| == |crcs| && CrcNow(k) == NextCrc(job, msgSetEntry, k)
      ensures HeldAsScheduled(job, msgSetEntry, k, crcs[k := NextCrc(job, msgSetEntry, k)])
      ensures Collects(job, msgSetEntry, msgSetEntryMax, orBuf[..], msgOverlay)
    {
      hide Safe, Stocked, Showing, S.IsSetMax, S.HasOverlay, Bus.Valid, Sending, Clean, Collects, HeldAsScheduled,
        Job.Crc, Job.Made, NextCrc, S.ValidMessage;
      S.SetMaxRange(job.m, msgSetEntryMax);
      SentAsScheduled(job, msgSetEntry, msgSetEntryMax, k, crcs, orBuf[..], msgOverlay);
    }

    /** The second half of `SLAVE_SET_STORED_FRAME`. */
    method ResumeShowAgain()
      requires Inv() && pc == ShowAgain
      modifies this`pc, bus`trace, bus.vSlaves
      ensures Inv() && pc == ShowCheck
      ensures bus.trace == old(bus.trace) + Shown(msgDispEntry) + [Clear] && SameCounters(old(Now()))
    {
      hide Safe, Stocked, Showing, S.IsSetMax, S.HasOverlay, Bus.SlaveAgrees, Collects, HeldAsScheduled;
      ShowEntry();
      Forget();
      StartShowCheck();
    }

    method StartShowCheck()
      requires Inv() && pc == ShowAgain && Clean(bus.trace)
      modifies this`pc
      ensures Inv() && pc == ShowCheck
    {
      hide Safe, Stocked, Showing, S.IsSetMax, S.HasOverlay, Bus.Valid, Collects, HeldAsScheduled, Clean;
      pc := ShowCheck;
    }

    /** `ClrAllSlavesRxStatus`. */
    method Forget()
      requires Inv()
      modifies bus`trace, bus.vSlaves
      ensures Inv() && bus.trace == old(bus.trace) + [Clear] && Clean(bus.trace)
    {
      hide AtStop, AsScheduled, Bus.SlaveAgrees;
      ghost var t := bus.trace;
      bus.ClrAllSlavesRxStatus();
      QuietKeepsGood(bus.kinds, job, bus.deviceEnDisCur, Now(), t, Clear);
    }

    /** What a check at `ShowCheck` comes to: nothing yet, a restart, the entry shown again, or the next one loaded. A
        match is noted; one slave in error is counted, and the third time restarts. */
    ghost predicate ShowCheckDone(v: View, errors: int, t: Trace)
      requires job.Valid() && orBuf.Length == job.size && v.disp < |job.m| <= v.max < 2 * |job.m|
      reads this, orBuf, bus
    {
      var r := bus.allSlavesCurrent;
      var t1 := t + [CheckedCurrent(r)];
      r == AllCurrent(bus.kinds, t) &&
      if r < 0 then Same(v) && msgSlaveErrCnt == errors && bus.trace == t1
      else if r == 2 || (r == 3 && errors == 2) then Begun(t1)
      else
        && msgSlaveErrCnt == (if r == 3 then errors + 1 else errors)
        && if job.m[v.disp].onTime >= 10 && r in {1, 3} then
             pc == ShowAgain && SameCounters(v) && bus.trace == t1 + Shown(v.disp)
           else LoadedBehind(v, if r == 0 then t1 + [Backup] else t1)
    }

    /** The check after showing: shown again, restarted, or on to the next entry. */
    method ResumeShowCheck()
      requires Inv() && pc == ShowCheck
      modifies this, orBuf, bus`trace, bus`allSlavesCurrent, bus.vSlaves
      ensures pc != Begin && (old(intact) ==> intact)
      ensures Inv() && old(bus.trace) <= bus.trace
      ensures ShowCheckDone(old(Now()), old(msgSlaveErrCnt), old(bus.trace))
    {
      hide AtStop, Bus.Valid, Safe, AtFirst, S.HasOverlay, Clean, S.ValidMessage, Begun, LoadedBehind, CrcNow;
      CheckCurrent();
      if bus.allSlavesCurrent < 0 {
        return;
      }
      if bus.allSlavesCurrent == 0 {
        NoteShown();
      } else if bus.allSlavesCurrent == 3 {
        msgSlaveErrCnt := msgSlaveErrCnt + 1;
        if msgSlaveErrCnt == 3 {
          Start();
          return;
        }
      }
      if job.m[msgDispEntry].onTime >= 10 && (bus.allSlavesCurrent == 1 || bus.allSlavesCurrent == 3) {
        Reshow();
        return;
      }
      if bus.allSlavesCurrent == 2 {
        Start();
        return;
      }
      LoadBehind();
    }

    /** Shows the current entry once more. */
    method Reshow()
      requires Inv() && pc == ShowCheck
      modifies this`pc, bus`trace, bus.vSlaves
      ensures Inv() && pc == ShowAgain && msgDispEntry < MAX_ENTRIES
      ensures bus.trace == old(bus.trace) + Shown(msgDispEntry)
    {
      hide Safe, Stocked, Showing, Collects, HeldAsScheduled, S.IsSetMax, S.HasOverlay, Bus.Valid, Sending;
      ShowEntry();
    }

    /** With the current entry on display, loads the one after it. */
    method LoadBehind()
      requires Inv() && pc == ShowCheck
      modifies this, orBuf, bus`trace, bus.vSlaves
      ensures pc != Begin && (old(intact) ==> intact)
      ensures Inv() && unchanged(this`msgSlaveErrCnt)
      ensures old(bus.trace) <= bus.trace && LoadedBehind(old(Now()), old(bus.trace))
    {
      hide Safe, Stocked, Showing, Collects, HeldAsScheduled, S.IsSetMax, S.HasOverlay, Bus.Valid, Sending,
        S.ValidMessage, Clean;
      var waiting := LoadNext();
      if !waiting {
        pc := OnTime;
      }
    }

    /** `AllSlavesUpdateCurrentBak`. */
    method NoteShown()
      requires Inv()
      modifies bus`trace, bus.vSlaves
      ensures Inv() && bus.trace == old(bus.trace) + [Backup]
    {
      hide S.HasOverlay, Bus.SlaveAgrees, AtStop;
      ghost var t := bus.trace;
      bus.AllSlavesUpdateCurrentBak();
      QuietKeepsGood(bus.kinds, job, bus.deviceEnDisCur, Now(), t, Backup);
    }

    /** The entry that is being loaded. */
    function DueEntry(): nat
      requires |job.m| > 0
      reads this
    {
      if msgDispEntry == |job.m| - 1 then 0 else msgDispEntry + 1
    }

    /** The entry sent again is another than the one being loaded, and it is sent: the device is on, and either the entry
        exists, or its number lies outside the array, where anything may be found. */
    predicate IsStray(nextEntry: byte)
      requires |job.m| > 0
      reads this, bus
    {
      bus.deviceEnDisCur && nextEntry != DueEntry() && (nextEntry < |job.m| || nextEntry >= MAX_ENTRIES)
    }

    /** The next step sends a stray entry. */
    ghost predicate GoesAstray(nextEntry: byte)
      requires |job.m| > 0
      reads this, bus
    {
      pc == NextSet && AllNext(bus.kinds, bus.trace) == 1 && IsStray(nextEntry)
    }

    /** A stray entry has been sent, and the invariant is gone; nothing is said of what lies outside the array. */
    ghost predicate IsAstray(nextEntry: byte)
      requires |job.m| > 0
      reads this, orBuf, bus, bus.vSlaves
    {
      && bus.Valid() && Safe(bus.kinds, bus.trace) && pc == NextSet && IsStray(nextEntry)
      && (nextEntry < |job.m| ==> !Inv())
    }

    /** What a check at `NextSet` comes to: nothing yet, an entry sent again, or one more load. */
    ghost predicate NextSetDone(v: View, t: Trace, nextEntry: byte)
      requires job.Valid() && orBuf.Length == job.size && v.disp < |job.m|
      reads this, orBuf, bus
    {
      var r := bus.allSlavesNext;
      r == AllNext(bus.kinds, t) &&
      if r < 0 then Same(v) && bus.trace == t + [CheckedNext(r)]
      else if r == 1 then Same(v) && SentAgain(t + [CheckedNext(1)], nextEntry)
      else if S.IsShown(job.m, v.disp) then
        pc == OnTime && msgDispEntry == v.disp && msgSetEntry == v.loads + 1 && msgSetEntryMax == v.max
        && bus.trace == t + [CheckedNext(0)]
      else Looped(v.max, v.disp + 1, v.loads + 1, t + [CheckedNext(0)])
    }

    /** The entry `nextEntry` has been sent again, or nothing where the message has none; what lies outside the array
        is not followed. */
    ghost predicate SentAgain(t: Trace, nextEntry: byte)
      requires job.Valid() && orBuf.Length == job.size
      reads this, orBuf, bus
    {
      bus.trace == t + (if nextEntry < |job.m| && (nextEntry == DueEntry() || bus.deviceEnDisCur) then Sent(nextEntry)
                        else if IsStray(nextEntry) then [] else [Clear])
    }

    /** Waiting for a later entry. `nextEntry` is what the local of that name holds when the wait is over: it was set
        before the wait, and the coroutine keeps no locals. */
    method ResumeNextSet(nextEntry: byte) returns (astray: bool)
      requires Inv() && pc == NextSet
      modifies this, orBuf, bus`trace, bus`allSlavesNext, bus.vSlaves
      ensures astray == old(GoesAstray(nextEntry))
      ensures if astray then IsAstray(nextEntry) && Same(old(Now())) else Inv()
      ensures pc != Begin && (old(intact) ==> intact)
      ensures old(bus.trace) <= bus.trace && NextSetDone(old(Now()), old(bus.trace), nextEntry)
    {
      hide Safe, Stocked, Showing, Collects, HeldAsScheduled, S.IsSetMax, S.HasOverlay, Bus.Valid, Sending, Job.Crc,
        CrcNow;
      ghost var t := bus.trace;
      astray := false;
      CheckNext();
      if bus.allSlavesNext < 0 {
        return;
      }
      if bus.allSlavesNext == 1 {
        astray := SendAgain(nextEntry);
      } else {
        NextArrived(t);
      }
    }

    /** `SlaveSetFrame` of entry `nextEntry`, whichever that is, and `ClrAllSlavesRxStatus`. Frame 0 is never sent, and
        what lies outside the array is not followed. */
    method SendAgain(nextEntry: byte) returns (astray: bool)
      requires Inv() && pc == NextSet
      modifies this`crcs, bus`trace, bus.vSlaves
      ensures astray == IsStray(nextEntry)
      ensures if astray then IsAstray(nextEntry) else Inv()
      ensures SentAgain(old(bus.trace), nextEntry)
    {
      hide Safe, Stocked, Showing, Collects, HeldAsScheduled, S.IsSetMax, S.HasOverlay, Bus.Valid, Sending, Job.Crc,
        CrcNow,
        AsScheduled;
      astray := bus.deviceEnDisCur && nextEntry != DueEntry() && (nextEntry < |job.m| || nextEntry >= MAX_ENTRIES);
      DueIsTurn();
      if nextEntry == DueEntry() {
        ResendEntry(nextEntry);
      } else if !astray {
        Forget();
      } else if nextEntry < |job.m| {
        SendOther(nextEntry);
      } else {
        InvIsSafe();
      }
    }

    lemma DueIsTurn()
      requires Inv() && pc == NextSet
      ensures |job.m| == |crcs| && msgDispEntry < |job.m| <= MAX_ENTRIES
      ensures DueEntry() == S.Turn(job.m, msgSetEntry) == Loading(job, Now())
    {
      S.SetMaxRange(job.m, msgSetEntryMax);
    }

    /** Another entry goes out while entry `DueEntry()` is being loaded. */
    method SendOther(k: nat)
      requires Inv() && pc == NextSet && bus.deviceEnDisCur && k < |job.m| && k != DueEntry()
      modifies this`crcs, bus`trace, bus.vSlaves
      ensures bus.Valid() && Safe(bus.kinds, bus.trace) && !Inv()
      ensures bus.trace == old(bus.trace) + Sent(k)
    {
      hide Safe, Stocked, Showing, Collects, HeldAsScheduled, S.IsSetMax, S.HasOverlay, Bus.SlaveAgrees, Job.Crc,
        CrcNow,
        AsScheduled;
      DueIsTurn();
      ghost var t, e := bus.trace, SetFrame(EVERY, k + 1, CrcNow(k));
      SendEntry(k);
      assert bus.trace == t + [e] + [Clear];
      SafeGrows(bus.kinds, t, e);
      SafeGrows(bus.kinds, t + [e], Clear);
      if Inv() {
        DueIsTurn();
        DueIsPending();
        OtherIsPending(t, k + 1, e.crc, DueEntry() + 1, crcs[DueEntry()]);
      }
    }

    lemma DueIsPending()
      requires Inv() && pc == NextSet && bus.deviceEnDisCur
      ensures DueEntry() < |job.m| == |crcs| <= MAX_ENTRIES && AllPending(bus.trace, DueEntry() + 1, crcs[DueEntry()])
    {
      hide Safe, Stocked, Showing, S.IsSetMax, S.HasOverlay, Bus.Valid, Clean, AllPending, S.ValidMessage, AsScheduled;
      DueIsTurn();
    }

    method NextArrived(ghost t: Trace)
      requires Inv() && pc == NextSet
      requires bus.trace == t + [CheckedNext(0)] && AllNext(bus.kinds, t) == 0 && Clean(t)
      requires Good(bus.kinds, job, bus.deviceEnDisCur, Now(), t)
      modifies this, orBuf, bus`trace, bus.vSlaves
      ensures pc != Begin && (old(intact) ==> intact)
      ensures Inv()
      ensures old(msgDispEntry) < |job.m|
      ensures if S.IsShown(job.m, old(msgDispEntry)) then
                pc == OnTime && msgDispEntry == old(msgDispEntry) && msgSetEntry == old(msgSetEntry) + 1
                && unchanged(this`msgSetEntryMax) && bus.trace == old(bus.trace)
              else Looped(old(msgSetEntryMax), old(msgDispEntry) + 1, old(msgSetEntry) + 1, old(bus.trace))
    {
      hide Safe, Stocked, Showing, S.IsSetMax, S.HasOverlay, Bus.Valid, Sending, Clean, S.ValidMessage,
        LoadsAsScheduled,
        Good, AsScheduled, InLoop, CrcNow;
      CountLoad(t);
      LoopRange(true);
      if S.IsShown(job.m, msgDispEntry) {
        StartOnTime();
      } else {
        PassOn();
        MsgLoop();
      }
    }

    method CountLoad(ghost t: Trace)
      requires Inv() && pc == NextSet
      requires bus.trace == t + [CheckedNext(0)] && AllNext(bus.kinds, t) == 0 && Clean(t)
      requires Good(bus.kinds, job, bus.deviceEnDisCur, Now(), t)
      modifies this`msgSetEntry
      ensures InLoopNow(true) && TimerIsRight() && Clean(bus.trace) && msgSetEntry == old(msgSetEntry) + 1
      ensures S.IsShown(job.m, msgDispEntry) ==> ShowingNow()
    {
      hide Safe, Stocked, Showing, S.IsSetMax, S.HasOverlay, Bus.Valid, Sending, Clean, S.ValidMessage, Collects,
        HeldAsScheduled;
      S.SetMaxRange(job.m, msgSetEntryMax);
      Arrive(t);
      msgSetEntry := msgSetEntry + 1;
    }

    method StartOnTime()
      requires InLoopNow(true) && TimerIsRight() && Clean(bus.trace) && S.IsShown(job.m, msgDispEntry) && ShowingNow()
      modifies this`pc
      ensures Inv() && pc == OnTime
    {
      hide Safe, Stocked, Showing, S.IsSetMax, S.HasOverlay, Bus.Valid, Clean, S.ValidMessage, Collects,
        HeldAsScheduled;
      pc := OnTime;
    }

    /** What a check at `OnTime` comes to: nothing yet, a restart, or, once the time of the entry is over, a blank
        display or the next entry. */
    ghost predicate OnTimeDone(v: View, expired: bool, frmExpired: bool, t: Trace)
      requires job.Valid() && orBuf.Length == job.size && v.disp < |job.m|
      reads this, orBuf, bus
    {
      var r := bus.allSlavesCurrent;
      var t1 := t + [CheckedCurrent(r)];
      r == AllCurrent(bus.kinds, t) &&
      if r < 0 || !frmExpired || (!expired && r == 0) then Same(v) && bus.trace == t1
      else if !expired then Begun(t1)
      else if job.m[v.disp].onTime != 0 && transTime != 0 then
        pc == Fade && SameCounters(v) && taskMsgTmrSet && bus.trace == t1 + [Show(EVERY, 0)]
      else EntryIsDone(v, t1)
    }

    /** The on-time of the current entry: a display that stops matching restarts the message; an expired timer ends it. */
    method ResumeOnTime(msgExpired: bool, frmExpired: bool)
      requires Inv() && pc == OnTime
      modifies this, orBuf, bus`trace, bus`allSlavesCurrent, bus.vSlaves
      ensures pc != Begin && (old(intact) ==> intact)
      ensures Inv() && old(bus.trace) <= bus.trace
      ensures OnTimeDone(old(Now()), old(taskMsgTmrSet) && msgExpired, frmExpired, old(bus.trace))
    {
      hide AtStop, Bus.Valid, Safe, AtFirst, S.HasOverlay, Clean, S.ValidMessage, Begun, EntryIsDone, CrcNow;
      CheckCurrent();
      if bus.allSlavesCurrent < 0 || !frmExpired {
        return;
      }
      var expired := taskMsgTmrSet && msgExpired;
      if !expired {
        if bus.allSlavesCurrent != 0 {
          Start();
        }
      } else if job.m[msgDispEntry].onTime != 0 && transTime != 0 {
        taskMsgTmrSet := true;
        FadeOut();
      } else {
        EntryDone();
      }
    }

    method FadeOut()
      requires Inv() && pc == OnTime && job.m[msgDispEntry].onTime != 0
      modifies this`pc, bus`trace, bus.vSlaves
      ensures Inv() && pc == Fade && bus.trace == old(bus.trace) + [Show(EVERY, 0)]
    {
      hide Safe, Stocked, Showing, Collects, HeldAsScheduled, S.IsSetMax, S.HasOverlay, Bus.SlaveAgrees, Clean,
        S.ValidMessage;
      ghost var t := bus.trace;
      bus.SlaveSDFrame(EVERY, 0);
      QuietKeeps(bus.kinds, job, bus.deviceEnDisCur, msgSetEntry, -1, crcs, t, Show(EVERY, 0));
      pc := Fade;
    }

    method ResumeFade()
      requires Inv() && pc == Fade
      modifies this`pc, bus`trace, bus.vSlaves
      ensures Inv() && pc == FadeEnd && bus.trace == old(bus.trace) + [Show(EVERY, 0)] + [Clear] + [Backup]
      ensures SameCounters(old(Now()))
    {
      hide AtStop, AsScheduled, Bus.SlaveAgrees;
      ShowBlank();
      Forget();
      NoteShown();
      StartFadeEnd();
    }

    method StartFadeEnd()
      requires Inv() && pc == Fade
      modifies this`pc
      ensures Inv() && pc == FadeEnd
    {
      pc := FadeEnd;
    }

    /** `SlaveDisplayFrame` of the blank slot. */
    method ShowBlank()
      requires Inv() && pc == Fade
      modifies bus`trace, bus.vSlaves
      ensures Inv() && bus.trace == old(bus.trace) + [Show(EVERY, 0)]
    {
      hide Safe, Stocked, Showing, Collects, HeldAsScheduled, S.IsSetMax, S.HasOverlay, Bus.SlaveAgrees, Clean,
        S.ValidMessage;
      ghost var t := bus.trace;
      bus.SlaveSDFrame(EVERY, 0);
      QuietKeeps(bus.kinds, job, bus.deviceEnDisCur, msgSetEntry, -1, crcs, t, Show(EVERY, 0));
    }

    method ResumeFadeEnd(msgExpired: bool)
      requires Inv() && pc == FadeEnd
      modifies this, orBuf, bus`trace, bus.vSlaves
      ensures pc != Begin && (old(intact) ==> intact)
      ensures Inv() && old(bus.trace) <= bus.trace
      ensures if msgExpired then EntryIsDone(old(Now()), old(bus.trace))
              else Same(old(Now())) && bus.trace == old(bus.trace)
    {
      if msgExpired {
        EntryDone();
      }
    }

    method EntryDone()
      requires Inv() && (pc == OnTime || pc == FadeEnd)
      modifies this, orBuf, bus`trace, bus.vSlaves
      ensures pc != Begin && (old(intact) ==> intact)
      ensures Inv() && old(bus.trace) <= bus.trace && EntryIsDone(old(Now()), old(bus.trace))
    {
      hide Safe, Stocked, Showing, Collects, HeldAsScheduled, S.IsSetMax, S.HasOverlay, Bus.Valid, Clean;
      S.SetMaxRange(job.m, msgSetEntryMax);
      if msgDispEntry == |job.m| - 1 {
        pc := RoundEnd;
      } else {
        msgDispEntry := msgDispEntry + 1;
        MsgLoop();
      }
    }

    method ResumeRoundEnd()
      requires Inv() && pc == RoundEnd
      modifies this, orBuf, bus`trace, bus.vSlaves
      ensures pc != Begin && (old(intact) ==> intact)
      ensures Inv() && old(bus.trace) <= bus.trace
      ensures Looped(old(msgSetEntryMax), 0, old(msgSetEntry), old(bus.trace))
    {
      hide Safe, Stocked, Showing, Collects, HeldAsScheduled, S.HasOverlay, Bus.Valid, Clean;
      S.SetMaxRange(job.m, msgSetEntryMax);
      msgDispEntry := 0;
      MsgLoop();
    }

    /** What a call does from stop v.pc on. */
    ghost predicate StepDone(v: View, errors: int, expired: bool, frmExpired: bool, msgExpired: bool, nextEntry: byte,
                             t: Trace)
      requires job.Valid() && orBuf.Length == job.size
      requires v.pc != Begin ==> v.disp < |job.m| <= v.max < 2 * |job.m|
      reads this, orBuf, bus
    {
      match v.pc
      case Begin => Begun(t)
      case FirstSet => FirstSetDone(v, t)
      case ShowAgain => pc == ShowCheck && SameCounters(v) && bus.trace == t + Shown(v.disp) + [Clear]
      case ShowCheck => ShowCheckDone(v, errors, t)
      case NextSet => NextSetDone(v, t, nextEntry)
      case OnTime => OnTimeDone(v, expired, frmExpired, t)
      case Fade => pc == FadeEnd && SameCounters(v) && bus.trace == t + [Show(EVERY, 0)] + [Clear] + [Backup]
      case FadeEnd => if msgExpired then EntryIsDone(v, t) else Same(v) && bus.trace == t
      case RoundEnd => Looped(v.max, 0, v.loads, t)
    }

    /** One call of `TaskMsg`, run from where it stopped to where it stops next. The inputs say whether its two timers,
        if set, have expired, and what its local is worth after a wait. */
    method Resume(msgExpired: bool, frmExpired: bool, nextEntry: byte) returns (astray: bool)
      requires Inv() && job.SetsASlot()
      modifies this, orBuf, bus`trace, bus`allSlavesNext, bus`allSlavesCurrent, bus.vSlaves
      ensures astray == old(GoesAstray(nextEntry))
      ensures if astray then IsAstray(nextEntry) else Inv()
      ensures old(bus.trace) <= bus.trace && pc != Begin
      ensures StepDone(old(Now()), old(msgSlaveErrCnt), old(taskMsgTmrSet) && msgExpired, frmExpired, msgExpired,
                       nextEntry, old(bus.trace))
      ensures old(intact) || old(pc) == Begin ==> intact
    {
      hide Good, Bus.Valid, Safe, S.HasOverlay, FirstSetDone, ShowCheckDone, NextSetDone, OnTimeDone, EntryIsDone,
        Looped,
        Begun;
      astray := false;
      match pc {
        case Begin => Start();
        case FirstSet => ResumeFirstSet();
        case ShowAgain => ResumeShowAgain();
        case ShowCheck => ResumeShowCheck();
        case NextSet => astray := ResumeNextSet(nextEntry);
        case OnTime => ResumeOnTime(msgExpired, frmExpired);
        case Fade => ResumeFade();
        case FadeEnd => ResumeFadeEnd(msgExpired);
        case RoundEnd => ResumeRoundEnd();
      }
    }

    // ----- Between two calls -----

    /** A status reply comes in. */
    method OnReply(data: seq<bv8>)
      requires Inv() && |data| >= 2
      modifies bus`trace, bus.vSlaves
      ensures Inv() && bus.trace == old(bus.trace) + [Reply(data)]
    {
      hide AtStop, AsScheduled, Bus.SlaveAgrees;
      ghost var t := bus.trace;
      bus.StatusRpl(data);
      QuietKeepsGood(bus.kinds, job, bus.deviceEnDisCur, Now(), t, Reply(data));
    }

    /** `TaskRqstSlave` asks a slave for its status. */
    method OnRequest(slvindex: nat)
      requires Inv() && slvindex < |bus.vSlaves|
      modifies bus`trace, bus.vSlaves
      ensures Inv() && bus.trace == old(bus.trace) + [Request(slvindex)]
    {
      hide AtStop, AsScheduled, Bus.SlaveAgrees;
      ghost var t := bus.trace;
      bus.RqstStatus(slvindex);
      QuietKeepsGood(bus.kinds, job, bus.deviceEnDisCur, Now(), t, Request(slvindex));
    }

    /** Power-up forgets the replies. */
    method OnPowerUp()
      requires Inv()
      modifies bus`trace, bus.vSlaves
      ensures Inv() && bus.trace == old(bus.trace) + [Clear]
    {
      Forget();
    }

    /** `EnDisDevice`: a device that is enabled or disabled starts its message again. */
    method EnDisDevice(on: bool)
      requires Inv()
      modifies this, bus`deviceEnDisCur
      ensures Inv() && bus.deviceEnDisCur == on && bus.trace == old(bus.trace)
      ensures on != old(bus.deviceEnDisCur) ==> pc == Begin && msgSetEntry == msgDispEntry == msgSetEntryMax == 0
      ensures on == old(bus.deviceEnDisCur) ==> unchanged(this)
    {
      hide AtStop;
      if on != bus.deviceEnDisCur {
        pc, msgDispEntry, msgSetEntryMax, msgSetEntry := Begin, 0, 0, 0;
        bus.deviceEnDisCur := on;
      }
    }
  }

  // ----- What it amounts to -----

  /** While an entry is on display and a check finds nothing wrong, every real slave has itself reported, since the last
      command to any slave, that it shows the slot of that entry with the checksum last sent for it; and that is the one
      of its frame as the schedule composes it, unless the message has been wiped on the way. */
  lemma {:induction false} EntryIsSeen(kinds: seq<Kind>, job: Job, v: View, under: Pixels, overlay: bool, t: Trace,
                                       i: nat)
    requires job.Valid() && Good(kinds, job, true, v, t) && (v.pc == ShowCheck || v.pc == OnTime)
    requires i < |kinds| && !kinds[i].sim && AllCurrent(kinds, t) == 0
    ensures LastReport(kinds, i, t).Some?
    ensures LastReport(kinds, i, t).value.currentId == v.disp + 1
    ensures LastReport(kinds, i, t).value.currentCrc == v.crcs[v.disp]
    ensures AsScheduled(job, v, under, overlay) ==> v.crcs[v.disp] == job.HeldCrc(v.loads, v.disp)
  {
    hide Safe, Stocked, Job.HeldCrc, Collects;
    S.SetMaxRange(job.m, v.max);
    ShownIsSeen(kinds, i, t, v.disp + 1, v.crcs[v.disp]);
  }

  /** Once the set counter has reached its maximum, an entry on display is seen composed over all overlay entries of the
      message, when its last entry has a time; otherwise over the overlay entries before it, from the first load on. */
  lemma OverlaysAreSeen(job: Job, v: View)
    requires job.Valid() && InOrder(job, v) && (v.pc == ShowCheck || v.pc == OnTime)
    ensures job.m[|job.m| - 1].onTime != 0 && v.loads == v.max ==>
              job.HeldCrc(v.loads, v.disp)
                == job.Crc(v.disp, S.Composed(job.depth, job.m, v.disp, S.Underlay(job.depth, job.m, job.size, |job.m|)))
    ensures job.m[|job.m| - 1].onTime == 0 ==>
              job.HeldCrc(v.loads, v.disp)
                == job.Crc(v.disp, S.Composed(job.depth, job.m, v.disp, S.Underlay(job.depth, job.m, job.size, v.disp)))
  {
    hide Job.Crc, S.Underlay, S.Composed, S.IsSetMax;
    if job.m[|job.m| - 1].onTime == 0 {
      S.OneRound(job.m, v.max);
    } else if v.loads == v.max {
      S.HeldInTheEnd(job.depth, job.m, job.size, v.max, v.disp);
    }
  }
}
