/** The three display tasks of a group as `NormalMode` calls them (src/sign/Group.cpp), on one bus: the plan task and the
    heads of the other two on the fields that `HandOver` speaks about, and behind the heads the coroutines themselves. */
module DisplayTasks {
  import opened Bytes
  import opened Delivery
  import opened GroupBus
  import opened GroupDisplay
  import opened SlaveBus
  import opened Wrappers
  import A = DisplayArbiter
  import F = FrameTask
  import H = HandOver
  import M = MessageTask

  // ----- A message that is not defined -----

  datatype BlankPc = Begin | ShowAgain | Watch

  /** The loop in which `TaskMsg` shows nothing, when the message asked for by the facility switch or an external input is
      not defined. */
  class BlankTask {
    const bus: Bus
    var pc: BlankPc

    ghost predicate Inv()
      reads this, bus, bus.vSlaves
    {
      bus.Valid() && Safe(bus.kinds, bus.trace) && (pc == Watch ==> Clean(bus.trace))
    }

    constructor (bus: Bus)
      requires bus.Valid() && Safe(bus.kinds, bus.trace)
      ensures Inv() && pc == Begin && this.bus == bus
    {
      this.bus, pc := bus, Begin;
    }

    lemma InvIsSafe()
      requires Inv()
      ensures bus.Valid() && Safe(bus.kinds, bus.trace)
    {}

    /** What `Inv` says when the history of the bus is `t`. */
    ghost predicate InvAt(t: Trace)
      reads this
    {
      Safe(bus.kinds, t) && (pc == Watch ==> Clean(t))
    }

    lemma InvNow()
      ensures Inv() <==> bus.Valid() && InvAt(bus.trace)
    {
      hide Bus.Valid, Safe;
    }

    lemma QuietInvAt(t: Trace, e: Event)
      requires InvAt(t) && !e.IsCommand() && CheckIsSound(bus.kinds, t, e)
      ensures InvAt(t + [e])
    {
      hide Safe, Clean, CheckIsSound;
      SafeGrows(bus.kinds, t, e);
      CleanGrows(t, e);
    }

    /** `SlaveSetStoredFrame` of slot 0. */
    method ShowNothing()
      requires bus.Valid() && Safe(bus.kinds, bus.trace)
      modifies this`pc, bus`trace, bus.vSlaves
      ensures Inv() && pc == ShowAgain && bus.trace == old(bus.trace) + [Show(EVERY, 0)]
    {
      hide Safe, Bus.SlaveAgrees;
      SafeGrows(bus.kinds, bus.trace, Show(EVERY, 0));
      bus.SlaveSDFrame(EVERY, 0);
      pc := ShowAgain;
    }

    /** What a call does from line `was` on: the blank slot is shown twice, and again when a check finds something
        wrong. */
    ghost predicate Stepped(was: BlankPc, frmExpired: bool, t: Trace)
      reads this, bus
    {
      var r := bus.allSlavesCurrent;
      match was
      case Begin => pc == ShowAgain && bus.trace == t + [Show(EVERY, 0)]
      case ShowAgain => pc == Watch && bus.trace == t + [Show(EVERY, 0)] + [Clear]
      case Watch =>
        && r == AllCurrent(bus.kinds, t)
        && (if r > 0 && frmExpired then pc == ShowAgain && bus.trace == t + [CheckedCurrent(r)] + [Show(EVERY, 0)]
            else pc == Watch && bus.trace == t + [CheckedCurrent(r)])
    }

    method Resume(frmExpired: bool)
      requires Inv()
      modifies this`pc, bus`trace, bus`allSlavesCurrent, bus.vSlaves
      ensures Inv() && pc != Begin && old(bus.trace) <= bus.trace
      ensures Stepped(old(pc), frmExpired, old(bus.trace))
    {
      hide Safe, Clean, Bus.SlaveAgrees;
      match pc {
        case Begin => ShowNothing();
        case ShowAgain =>
          ShowNothing();
          ghost var t := bus.trace;
          bus.ClrAllSlavesRxStatus();
          SafeGrows(bus.kinds, t, Clear);
          CleanGrows(t, Clear);
          pc := Watch;
        case Watch =>
          ghost var t := bus.trace;
          bus.CheckAllSlavesCurrent();
          SafeGrows(bus.kinds, t, CheckedCurrent(bus.allSlavesCurrent));
          CleanGrows(t, CheckedCurrent(bus.allSlavesCurrent));
          if bus.allSlavesCurrent > 0 && frmExpired {
            ShowNothing();
          }
      }
    }
  }

  // ----- The tasks -----

  /** What a tick finds: the fault state, timers and the external input; the device switch as set; the plan's minute; the
      message of the id asked for, if it is defined, and whether it lets the group load; the frame id it has on display;
      what the local of the message task holds after a wait; and the packets made of the frame, or the frames, to be
      shown. */
  datatype TickInput = TickInput(fatal: bool, extExpired: bool, emergency: bool, device: bool, minute: H.Minute,
                                 slept: bool, message: Option<(M.Job, nat)>, ready: bool, frame: byte, nextEntry: byte,
                                 msgExpired: bool, frmExpired: bool, refreshExpired: bool,
                                 packet: Packet, packets: seq<Packet>)
  {
    ghost predicate IsPossible(slaves: nat) {
      minute.Valid() && |packets| == slaves && (message.Some? ==> message.value.0.Valid())
    }

    function Base(): A.Input {
      A.Input(fatal, extExpired, emergency, message.None?, ready)
    }

    function Found(overlay: bool, again: bool): H.Finding {
      H.Finding(Base(), device, minute, slept, overlay, frame, again)
    }
  }

  /** Where a run is followed no further: the message task goes on although the frame task has overtaken it, a message is
      begun that never sets the slot it shows, another entry is sent in place of the one being loaded, or slot 1 is shown
      under a blank order. */
  datatype Stop = NoStop | Overtaken | Unset | Astray | Lit

  /** What may happen: a tick, a command or an input, a system reset, a status reply coming in or asked for, and the
      end of a power-up, which forgets the replies. */
  datatype Input = OneTick(tick: TickInput) | OneCommand(command: A.Command) | OneReset | ReplyIn(data: seq<bv8>)
    | Poll(index: nat) | PowerUp
  {
    ghost predicate IsPossible(slaves: nat) {
      match this
      case OneTick(tick) => tick.IsPossible(slaves)
      case OneCommand(c) => A.CommandFits(c, slaves)
      case ReplyIn(data) => |data| >= 2
      case Poll(index) => index < slaves
      case _ => true
    }

    predicate BeginsUnset() {
      OneTick? && tick.message.Some? && !tick.message.value.0.SetsASlot()
    }
  }

  /** A line of the message task or of its blank loop. */
  datatype Line = OfMessage(view: M.View, errors: int, timed: bool) | OfBlank(pc: BlankPc) | NoLine

  class GroupTasks {
    const display: Display
    const bus: Bus
    const frm: F.FrmTask
    var msg: M.MsgTask?
    var blank: BlankTask?
    var marks: H.Marks
    ghost var frmSince: bool
    ghost var msgSince: bool
    ghost var begun: byte

    ghost function View(): H.Panel
      reads this`marks, this`frmSince, this`msgSince, this`begun, display.Repr()
    {
      H.Panel(display.View(), marks, frmSince, msgSince, begun)
    }

    ghost function MsgRepr(): set<object>
      reads this`msg, this`blank
    {
      (if msg == null then {} else {msg, msg.orBuf}) + (if blank == null then {} else {blank})
    }

    /** Everything that belongs to the tasks and not to the display. */
    ghost function TaskRepr(): set<object>
      reads this`msg, this`blank
    {
      {this, frm, bus} + (set s | s in bus.vSlaves) + MsgRepr()
    }

    /** Each coroutine is where the marks say; the one that ran last keeps what holds at its stops. */
    ghost predicate TasksMatch(msgRuns: bool, frmRuns: bool, overlay: bool, on: bool)
      reads this`msg, this`blank, this`frmSince, this`msgSince, this`begun
      reads frm, bus, bus.vSlaves, MsgRepr()
    {
      && bus.Valid() && F.DistinctIds(bus.kinds) && Safe(bus.kinds, bus.trace) && bus.deviceEnDisCur == on
      && frm.bus == bus && (frmRuns <==> frm.pc != F.Begin) && (!msgSince ==> frm.Inv())
      && (frmRuns && !msgSince ==> frm.order.ShownId() == begun)
      && (msg != null ==> msg.job.Valid() && msg.orBuf.Length == msg.job.size)
      && (msgRuns ==> (msg == null) != (blank == null))
      && (msgRuns && !frmSince ==> msgSince)
      && (msgRuns && !frmSince && msg != null ==>
            msg.bus == bus && msg.Inv() && msg.pc != M.Begin && overlay == msg.msgOverlay)
      && (msgRuns && !frmSince && blank != null ==> blank.bus == bus && blank.Inv() && blank.pc != Begin && !overlay)
    }

    ghost predicate Valid()
      reads this, TaskRepr(), display.Repr()
    {
      && display.Valid() && TaskRepr() !! display.Repr()
      && TasksMatch(marks.msgRuns, marks.frmRuns, marks.overlay, marks.on)
    }

    constructor (bus: Bus, display: Display)
      requires bus.Valid() && F.DistinctIds(bus.kinds) && Safe(bus.kinds, bus.trace)
      requires display.Valid() && A.Fresh(display.View())
      ensures Valid() && H.FreshPanel(View()) && this.bus == bus && this.display == display && fresh(frm)
              && MsgRepr() == {}
    {
      this.bus, this.display := bus, display;
      frm := new F.FrmTask(bus);
      msg, blank := null, null;
      marks := H.Marks(0, false, 0, false, 0, false, 0, false, false, false, false, bus.deviceEnDisCur);
      frmSince, msgSince, begun := false, false, 0;
    }

    /** `EnDisDevice`. */
    method EnDisDevice(on: bool)
      requires Valid()
      modifies this`marks, frm, bus`deviceEnDisCur
      ensures Valid() && marks == old(marks).(msgRuns := false, frmRuns := false, on := on)
      ensures View() == old(View()).(marks := marks) && bus.trace == old(bus.trace)
    {
      hide Safe, F.DistinctIds, Display.Valid, F.FrmTask.Inv, M.MsgTask.Inv, BlankTask.Inv, Display.View,
        Bus.Valid;
      bus.EnDisDevice(on);
      frm.Reset();
      marks := marks.(msgRuns := false, frmRuns := false, on := on);
    }

    /** The fault state, and what is loaded. */
    method LoadDs(i: TickInput)
      requires Valid()
      modifies display.Repr()
      ensures Valid() && View() == old(View()).(display := A.Loading(A.Faults(old(View()).display, i.fatal), i.Base()))
    {
      hide TasksMatch, A.Faults, A.Loading, Display.Repr;
      display.CheckFault(i.fatal);
      display.LoadIfReady(i.Base());
    }

    /** The first part of `NormalMode`. */
    method LoadDisplay(i: TickInput)
      requires Valid()
      modifies this`marks, frm, bus`deviceEnDisCur, display.Repr()
      ensures Valid() && View() == H.Loads(old(View()), i.Found(false, false)) && bus.trace == old(bus.trace)
    {
      hide TasksMatch, A.Faults, A.Loading, Display.Repr;
      LoadDs(i);
      if (!display.fatalError.value.IsLow() || display.readyToLoad) && i.device != marks.on {
        EnDisDevice(i.device);
      }
    }

    /** Where the message task stands: its line and counters, the errors counted, and whether its timer is set; or the
        line of the blank loop. */
    ghost function MsgLine(): Line
      reads this`msg, this`blank, MsgRepr()
    {
      if msg != null then OfMessage(msg.Now(), msg.msgSlaveErrCnt, msg.taskMsgTmrSet)
      else if blank != null then OfBlank(blank.pc) else NoLine
    }

    /** The message task has made one step from there. */
    ghost predicate MsgStepped(was: Line, i: TickInput, t: Trace)
      reads this`msg, this`blank, bus, MsgRepr()
    {
      match was
      case OfMessage(v, errors, timed) =>
        && msg != null && msg.bus == bus && msg.job.Valid() && msg.orBuf.Length == msg.job.size
        && (v.pc != M.Begin ==> v.disp < |msg.job.m| <= v.max < 2 * |msg.job.m|)
        && msg.StepDone(v, errors, timed && i.msgExpired, i.frmExpired, i.msgExpired, i.nextEntry, t)
      case OfBlank(pc) => blank != null && blank.bus == bus && blank.Stepped(pc, i.frmExpired, t)
      case NoLine => false
    }

    /** The message task has begun message `job`. */
    ghost predicate MsgBegun(job: M.Job, transTime: nat, t: Trace)
      reads this`msg, this`blank, bus, MsgRepr()
    {
      && msg != null && msg.bus == bus && msg.job == job && msg.transTime == transTime
      && job.Valid() && msg.orBuf.Length == job.size && msg.Begun(t)
    }

    /** What its first line does: the message that is asked for is begun; where there is none, nothing is shown, or the
        group gives it up. */
    ghost predicate FirstLineDone(q: H.Panel, i: TickInput, t: Trace)
      reads this`msg, this`blank, bus, MsgRepr()
    {
      if q.marks.msgId != 0 && i.message.Some? then MsgBegun(i.message.value.0, i.message.value.1, t)
      else if q.Kind() == A.FSW || q.Kind() == A.EXT then
        msg == null && blank != null && blank.bus == bus && blank.Stepped(Begin, i.frmExpired, t)
      else bus.trace == t
    }

    // ----- TaskPln -----

    /** `ClrOrBuf`: a message that goes on has its overlays wiped. */
    method ClrOrBuf()
      requires Valid()
      modifies this`marks, MsgRepr()
      ensures Valid() && marks == old(marks).(overlay := false) && View() == old(View()).(marks := marks)
      ensures MsgLine() == old(MsgLine())
    {
      hide Bus.Valid, Safe, F.DistinctIds, Display.Valid, F.FrmTask.Inv, M.MsgTask.Inv, BlankTask.Inv, Display.View,
        M.MsgTask.Now, M.Job.Valid;
      if msg != null {
        msg.Wipe();
      }
      marks := marks.(overlay := false);
    }

    /** A reload is taken up: the overlays of a message that goes on are wiped. */
    method TakeReload()
      requires Valid()
      modifies this`marks, MsgRepr(), display`reloadCurrent
      ensures Valid() && marks == old(marks).(overlay := old(marks.overlay && !display.reloadCurrent))
      ensures View() == old(View()).(display := old(View()).display.(reload := false), marks := marks)
      ensures MsgLine() == old(MsgLine())
    {
      hide Valid, View, MsgLine;
      Fields();
      if display.reloadCurrent {
        ReloadCurrent(false);
        ClrOrBuf();
      }
    }

    /** What the plan task makes of the minute it finds: both other tasks begin when it asks for something else than is on
        display. */
    method CheckMinute(m: H.Marks, minute: H.Minute) returns (now: H.Marks)
      requires Valid()
      ensures Valid() && View() == old(View()) && now == H.Checked(m, minute)
    {
      hide Valid, View;
      now := m;
      match minute {
        case Free =>
          if m.plnId != 0 || m.msgId != 0 || m.frmId != 0 {
            now := m.(frmRuns := false, msgRuns := false, plnId := 0, newMsg := false, msgId := 0, newFrm := true,
                      entryIsMsg := false, entryId := 0);
          }
        case FrameEntry(plan, id) =>
          if m.plnId != plan || m.msgId != 0 || m.frmId != id {
            now := m.(frmRuns := false, msgRuns := false, plnId := plan, newMsg := false, msgId := 0, newFrm := true,
                      entryIsMsg := false, entryId := id);
          }
        case MessageEntry(plan, id) =>
          if m.plnId != plan || m.msgId != id {
            now := m.(frmRuns := false, msgRuns := false, plnId := plan, newMsg := true, entryIsMsg := true,
                      entryId := id);
          }
      }
    }

    /** The plan task from its head to its next wait. */
    method PassPln(i: TickInput) returns (now: H.Marks)
      requires Valid()
      ensures Valid() && View() == old(View()) && now == H.PlnTaken(marks, display.reloadCurrent, i.slept, i.minute)
    {
      hide Valid, View, H.Checked;
      now := marks;
      if display.reloadCurrent {
        now := now.(overlay := false, plnWaits := false);
      }
      if !now.plnWaits || i.slept {
        now := CheckMinute(now, i.minute);
        now := now.(plnWaits := true);
      }
    }

    method TaskPln(i: TickInput)
      requires Valid()
      modifies this`marks, frm, MsgRepr(), display`reloadCurrent
      ensures Valid() && View() == H.RunPln(old(View()), i.Found(false, false)) && bus.trace == old(bus.trace)
    {
      hide Valid, View, H.PlnTaken;
      Fields();
      if display.dsCurrent.dispType == A.PLN && display.readyToLoad {
        var now := PassPln(i);
        H.PlnTakesLines(marks, display.reloadCurrent, i.slept, i.minute);
        TakeReload();
        Become(now);
      }
    }

    /** Takes over new marks; a coroutine that is to begin is sent to its first line. */
    method Become(now: H.Marks)
      requires Valid() && now.overlay == marks.overlay && now.on == marks.on
      requires (now.msgRuns ==> marks.msgRuns) && (now.frmRuns ==> marks.frmRuns)
      modifies this`marks, frm
      ensures Valid() && marks == now && View() == old(View()).(marks := now) && MsgLine() == old(MsgLine())
      ensures !now.frmRuns ==> frm.Inv()
      ensures if now.frmRuns then unchanged(frm) else frm.pc == F.Begin
    {
      hide Bus.Valid, Safe, F.DistinctIds, Display.Valid, F.FrmTask.Inv, M.MsgTask.Inv, BlankTask.Inv, Display.View;
      if !now.frmRuns {
        frm.Reset();
      }
      marks := now;
    }

    lemma Fields()
      requires Valid()
      ensures var d := View().display;
              && d.Valid() && d.cur.kind == display.dsCurrent.dispType && d.cur.ids == display.dsCurrent.fmpid[..]
              && d.ready == display.readyToLoad && d.reload == display.reloadCurrent
      ensures View().marks == marks && View().frmSince == frmSince && View().msgSince == msgSince && View().begun == begun
    {
      hide TasksMatch;
    }

    method ReloadCurrent(v: bool)
      requires Valid()
      modifies display`reloadCurrent
      ensures Valid() && View() == old(View()).(display := old(View()).display.(reload := v))
    {
      hide TasksMatch;
      display.reloadCurrent := v;
    }

    // ----- TaskMsg -----

    /** What the head of the message task notes: which message it is to begin with, and for whom. */
    method PassMsgHead() returns (now: H.Marks)
      requires Valid()
      ensures Valid() && View() == old(View()) && display.Valid()
      ensures now == H.MsgTaken(marks, display.reloadCurrent, display.dsCurrent.dispType, display.dsCurrent.fmpid[0])
      ensures now.overlay == (marks.overlay && !display.reloadCurrent) && now.on == marks.on
      ensures (now.msgRuns ==> marks.msgRuns) && now.frmRuns == marks.frmRuns
    {
      hide View, TasksMatch;
      Fields();
      now := marks;
      if display.reloadCurrent {
        now := now.(newMsg := true, overlay := false);
      }
      if now.newMsg {
        now := now.(msgRuns := false, newMsg := false);
        if display.dsCurrent.dispType == A.PLN {
          now := now.(msgId := now.entryId);
        } else {
          now := now.(plnId := 0, msgId := display.dsCurrent.fmpid[0]);
        }
      }
    }

    method MsgHead()
      requires Valid()
      modifies this`marks, frm, MsgRepr(), display`reloadCurrent
      ensures Valid() && View() == H.MsgTakes(old(View())) && bus.trace == old(bus.trace)
      ensures MsgLine() == old(MsgLine())
    {
      hide Valid, View, H.MsgTaken, MsgLine;
      Fields();
      var now := PassMsgHead();
      TakeReload();
      Become(now);
    }

    /** The group is to show the plan instead. */
    method GiveUp()
      requires Valid()
      modifies display.dsCurrent, display.dsCurrent.fmpid, display`reloadCurrent
      ensures Valid() && View() == H.GivenUp(old(View()))
    {
      hide TasksMatch;
      display.dsCurrent.Become(A.PLN, 0);
      display.reloadCurrent := true;
    }

    /** What the group notes once the message task has run. */
    method NoteMsgRan(overlay: bool, i: TickInput)
      requires display.Valid() && TaskRepr() !! display.Repr() && (marks.msgRuns || !frmSince)
      requires F.DistinctIds(bus.kinds) && frm.bus == bus && (marks.frmRuns <==> frm.pc != F.Begin)
      requires MsgHasRun(overlay)
      modifies this`marks, this`msgSince, display`readyToLoad
      ensures Valid() && View() == H.MsgRan(old(View()), false, i.ready, i.frame, overlay) && marks.overlay == overlay
    {
      hide Bus.Valid, Safe, F.DistinctIds, Display.Valid, F.FrmTask.Inv, M.MsgTask.Inv, BlankTask.Inv;
      display.readyToLoad := i.ready;
      marks := marks.(msgRuns := true, frmId := i.frame, overlay := overlay);
      msgSince := true;
    }

    /** The message task sends a stray entry in its next step. */
    ghost predicate MsgGoesAstray(nextEntry: byte)
      reads this`msg, this`blank, bus, MsgRepr()
    {
      msg != null && msg.bus == bus && |msg.job.m| > 0 && msg.GoesAstray(nextEntry)
    }

    /** It has. */
    ghost predicate MsgIsAstray(nextEntry: byte)
      reads this`msg, this`blank, bus, bus.vSlaves, MsgRepr()
    {
      msg != null && msg.bus == bus && |msg.job.m| > 0 && msg.IsAstray(nextEntry)
    }

    /** The message task has run, and nothing since. */
    ghost predicate MsgHasRun(overlay: bool)
      reads this`msg, this`blank, this`marks, this`frmSince, bus, bus.vSlaves, MsgRepr()
    {
      && bus.Valid() && Safe(bus.kinds, bus.trace) && bus.deviceEnDisCur == marks.on && !frmSince
      && (msg == null) != (blank == null)
      && (msg != null ==> msg.bus == bus && msg.Inv() && msg.pc != M.Begin && overlay == msg.msgOverlay
                          && msg.orBuf.Length == msg.job.size && msg.job.Valid())
      && (blank != null ==> blank.bus == bus && blank.Inv() && blank.pc != Begin && !overlay)
    }

    method StartTask(i: TickInput, job: M.Job, transTime: nat) returns (task: M.MsgTask)
      requires bus.Valid() && Safe(bus.kinds, bus.trace) && job.Valid() && job.SetsASlot()
      requires TaskRepr() !! display.Repr()
      modifies bus`trace, bus`allSlavesNext, bus`allSlavesCurrent, bus.vSlaves
      ensures fresh(task) && fresh(task.orBuf) && task.bus == bus && task.Inv() && task.pc != M.Begin
      ensures {task, task.orBuf} !! display.Repr() && View() == old(View())
      ensures bus.Valid() && Safe(bus.kinds, bus.trace) && old(bus.trace) <= bus.trace
      ensures task.job.Valid() && task.orBuf.Length == task.job.size
      ensures task.job == job && task.transTime == transTime && task.Begun(old(bus.trace))
    {
      hide Bus.Valid, Safe, M.MsgTask.Inv, M.MsgTask.FirstSetDone, M.MsgTask.ShowCheckDone, M.MsgTask.NextSetDone,
        M.MsgTask.OnTimeDone, M.MsgTask.EntryIsDone, M.MsgTask.Looped, M.MsgTask.Begun;
      task := new M.MsgTask(bus, job, transTime);
      var _ := task.Resume(i.msgExpired, i.frmExpired, i.nextEntry);
      task.InvIsSafe();
    }

    method Adopt(task: M.MsgTask, i: TickInput)
      requires display.Valid() && TaskRepr() !! display.Repr() && {task, task.orBuf} !! display.Repr()
      requires F.DistinctIds(bus.kinds) && frm.bus == bus && (marks.frmRuns <==> frm.pc != F.Begin)
      requires task.bus == bus && task.Inv() && task.pc != M.Begin && bus.deviceEnDisCur == marks.on
      modifies this, display`readyToLoad
      ensures Valid() && View() == H.MsgRan(old(View()), true, i.ready, i.frame, task.msgOverlay)
      ensures marks.overlay == task.msgOverlay && MsgRepr() == {task, task.orBuf} && msg == task
    {
      hide Bus.Valid, Safe, F.DistinctIds, Display.Valid, M.MsgTask.Inv, Display.Repr, F.FrmTask.Inv;
      task.InvIsSafe();
      msg, blank, frmSince := task, null, false;
      NoteMsgRan(task.msgOverlay, i);
    }

    method BeginMsg(i: TickInput, job: M.Job, transTime: nat)
      requires Valid() && job.Valid() && job.SetsASlot()
      modifies this, bus`trace, bus`allSlavesNext, bus`allSlavesCurrent, bus.vSlaves, display`readyToLoad
      ensures Valid() && old(bus.trace) <= bus.trace
      ensures View() == H.MsgRan(old(View()), true, i.ready, i.frame, marks.overlay)
      ensures fresh(MsgRepr()) && MsgBegun(job, transTime, old(bus.trace))
    {
      hide Bus.Valid, Safe, F.DistinctIds, Display.Valid, F.FrmTask.Inv, M.MsgTask.Inv, BlankTask.Inv, Display.View,
        H.MsgRan, Display.Repr;
      var task := StartTask(i, job, transTime);
      Adopt(task, i);
    }

    method BeginBlank(i: TickInput)
      requires Valid()
      modifies this, bus`trace, bus`allSlavesCurrent, bus.vSlaves, display`readyToLoad
      ensures Valid() && old(bus.trace) <= bus.trace && !marks.overlay
      ensures View() == H.MsgRan(old(View()), true, i.ready, i.frame, false)
      ensures fresh(MsgRepr()) && msg == null && blank != null && blank.bus == bus
      ensures blank.Stepped(Begin, i.frmExpired, old(bus.trace))
    {
      hide Bus.Valid, Safe, F.DistinctIds, Display.Valid, F.FrmTask.Inv, M.MsgTask.Inv, BlankTask.Inv, Display.View,
        H.MsgRan, Display.Repr;
      var task := StartBlank(i);
      AdoptBlank(task, i);
    }

    method StartBlank(i: TickInput) returns (task: BlankTask)
      requires bus.Valid() && Safe(bus.kinds, bus.trace) && TaskRepr() !! display.Repr()
      modifies bus`trace, bus`allSlavesCurrent, bus.vSlaves
      ensures fresh(task) && task.bus == bus && task.Inv() && task.pc != Begin
      ensures task !in display.Repr() && View() == old(View())
      ensures bus.Valid() && Safe(bus.kinds, bus.trace) && old(bus.trace) <= bus.trace
      ensures task.Stepped(Begin, i.frmExpired, old(bus.trace))
    {
      hide Bus.Valid, Safe, BlankTask.Inv, BlankTask.Stepped;
      task := new BlankTask(bus);
      task.Resume(i.frmExpired);
      task.InvIsSafe();
    }

    method AdoptBlank(task: BlankTask, i: TickInput)
      requires display.Valid() && TaskRepr() !! display.Repr() && task !in display.Repr()
      requires F.DistinctIds(bus.kinds) && frm.bus == bus && (marks.frmRuns <==> frm.pc != F.Begin)
      requires task.bus == bus && task.Inv() && task.pc != Begin && bus.deviceEnDisCur == marks.on
      modifies this, display`readyToLoad
      ensures Valid() && View() == H.MsgRan(old(View()), true, i.ready, i.frame, false) && !marks.overlay
      ensures MsgRepr() == {task} && msg == null && blank == task
    {
      hide Bus.Valid, Safe, F.DistinctIds, Display.Valid, Display.Repr, F.FrmTask.Inv;
      msg, blank, frmSince := null, task, false;
      NoteMsgRan(false, i);
    }

    /** The message task runs from its own line. */
    method GoOn(i: TickInput) returns (astray: bool)
      requires Valid() && marks.msgRuns && !frmSince
      modifies this`marks, this`msgSince, MsgRepr(), bus`trace, bus`allSlavesNext, bus`allSlavesCurrent, bus.vSlaves
      modifies display`readyToLoad
      ensures bus.Valid() && Safe(bus.kinds, bus.trace) && old(bus.trace) <= bus.trace
      ensures astray == old(MsgGoesAstray(i.nextEntry)) && (astray ==> MsgIsAstray(i.nextEntry))
      ensures !astray ==> Valid() && View() == H.MsgRan(old(View()), false, i.ready, i.frame, marks.overlay)
      ensures MsgStepped(old(MsgLine()), i, old(bus.trace))
    {
      hide F.DistinctIds, Display.Valid, F.FrmTask.Inv, Display.View, H.MsgRan, Bus.Valid, Safe, M.MsgTask.Inv,
        BlankTask.Inv, Display.Repr, MsgGoesAstray, MsgIsAstray, MsgStepped;
      var overlay;
      overlay, astray := RunOn(i);
      if !astray {
        NoteMsgRan(overlay, i);
        ValidIsSafe();
      }
    }

    method RunOn(i: TickInput) returns (overlay: bool, astray: bool)
      requires Valid() && marks.msgRuns && !frmSince
      modifies MsgRepr(), bus`trace, bus`allSlavesNext, bus`allSlavesCurrent, bus.vSlaves
      ensures bus.Valid() && Safe(bus.kinds, bus.trace) && old(bus.trace) <= bus.trace && View() == old(View())
      ensures astray == old(MsgGoesAstray(i.nextEntry)) && (astray ==> MsgIsAstray(i.nextEntry))
      ensures !astray ==> MsgHasRun(overlay)
      ensures marks.frmRuns <==> frm.pc != F.Begin
      ensures MsgStepped(old(MsgLine()), i, old(bus.trace))
    {
      hide F.DistinctIds, Display.Valid, F.FrmTask.Inv, Display.View, Bus.Valid, Safe, M.MsgTask.Inv, BlankTask.Inv,
        M.MsgTask.GoesAstray, M.MsgTask.IsAstray, M.MsgTask.StepDone, BlankTask.Stepped;
      astray := false;
      if msg != null {
        msg.InvIsSafe();
        msg.LineIsInRange();
        astray := msg.Resume(i.msgExpired, i.frmExpired, i.nextEntry);
        overlay := msg.msgOverlay;
        if astray {
          AstrayIsSafe(i.nextEntry);
        } else {
          msg.InvIsSafe();
        }
      } else {
        blank.Resume(i.frmExpired);
        blank.InvIsSafe();
        overlay := false;
      }
    }

    lemma AstrayIsSafe(nextEntry: byte)
      requires MsgIsAstray(nextEntry)
      ensures bus.Valid() && Safe(bus.kinds, bus.trace)
    {
      hide Bus.Valid, Safe;
    }

    /** `TaskMsg`. The test of `msgId` is not the source's: it tells when the source goes on at a line that the frame task
        has overtaken. */
    method TaskMsg(i: TickInput, ghost p: H.Panel) returns (stop: Stop)
      requires Valid() && p == View() && H.OwnLine(p) && i.IsPossible(|bus.kinds|)
      modifies this, frm, MsgRepr(), bus`trace, bus`allSlavesNext, bus`allSlavesCurrent, bus.vSlaves
      modifies display`readyToLoad, display`reloadCurrent, display.dsCurrent, display.dsCurrent.fmpid
      ensures bus.Valid() && Safe(bus.kinds, bus.trace) && old(bus.trace) <= bus.trace
      ensures stop == NoStop ==> Valid() && View() == H.RunMsg(p, i.Found(marks.overlay, false))
      ensures p.display.Valid()
      ensures if p.MsgHas() then
                var q := H.MsgTakes(p);
                if !q.marks.msgRuns then stop == NoStop ==> FirstLineDone(q, i, old(bus.trace))
                else !p.frmSince ==> MsgStepped(old(MsgLine()), i, old(bus.trace))
              else bus.trace == old(bus.trace)
      ensures stop == Overtaken <==> H.IsOvertaken(p)
      ensures stop == Overtaken || stop == Unset ==> bus.trace == old(bus.trace)
      ensures stop == Astray ==> MsgIsAstray(i.nextEntry)
      ensures stop != Lit
      ensures stop == Unset ==> i.message.Some? && !i.message.value.0.SetsASlot()
      ensures msg == old(msg) || msg == null || (fresh(msg) && fresh(msg.orBuf))
      ensures blank == old(blank) || blank == null || fresh(blank)
    {
      hide Valid, View, H.MsgTakes, H.MsgBody, H.OwnLine, Bus.Valid, Safe, MsgIsAstray, MsgStepped, FirstLineDone,
        MsgLine;
      stop := NoStop;
      Fields();
      ValidIsSafe();
      OwnLineTells(p);
      if H.OfMsg(display.dsCurrent.dispType) || (display.dsCurrent.dispType == A.PLN && marks.entryIsMsg) {
        MsgHead();
        Fields();
        stop := MsgBody(i, H.MsgTakes(p));
      }
    }

    /** `TaskMsg` behind its head. */
    method MsgBody(i: TickInput, ghost q: H.Panel) returns (stop: Stop)
      requires Valid() && q == View() && (marks.msgRuns ==> (frmSince <==> marks.msgId == 0)) && i.IsPossible(|bus.kinds|)
      modifies this, MsgRepr(), bus`trace, bus`allSlavesNext, bus`allSlavesCurrent, bus.vSlaves
      modifies display`readyToLoad, display`reloadCurrent, display.dsCurrent, display.dsCurrent.fmpid
      ensures bus.Valid() && Safe(bus.kinds, bus.trace) && old(bus.trace) <= bus.trace
      ensures stop == NoStop ==> Valid() && View() == H.MsgBody(q, i.Found(marks.overlay, false))
      ensures stop == Overtaken <==> old(marks.msgRuns && frmSince)
      ensures stop == Overtaken || stop == Unset ==> bus.trace == old(bus.trace)
      ensures old(marks.msgRuns && !frmSince) ==> MsgStepped(old(MsgLine()), i, old(bus.trace))
      ensures !old(marks.msgRuns) && stop == NoStop ==> FirstLineDone(q, i, old(bus.trace))
      ensures stop == Astray <==> old(marks.msgRuns && !frmSince && MsgGoesAstray(i.nextEntry))
      ensures stop == Astray ==> MsgIsAstray(i.nextEntry)
      ensures stop != Lit
      ensures stop == Unset ==> i.message.Some? && !i.message.value.0.SetsASlot()
      ensures msg == old(msg) || msg == null || (fresh(msg) && fresh(msg.orBuf))
      ensures blank == old(blank) || blank == null || fresh(blank)
    {
      hide Valid, View, H.MsgBody, TickInput.IsPossible, Bus.Valid, Safe, MsgIsAstray, MsgGoesAstray, MsgStepped,
        FirstLineDone;
      ValidIsSafe();
      if !marks.msgRuns {
        stop := FirstLine(i, q);
        ValidIsSafe();
      } else if marks.msgId == 0 {
        stop := Overtaken;
      } else {
        var astray := OwnLineGoesOn(i, q);
        stop := if astray then Astray else NoStop;
      }
    }

    method OwnLineGoesOn(i: TickInput, ghost q: H.Panel) returns (astray: bool)
      requires Valid() && q == View() && marks.msgRuns && !frmSince
      modifies this`marks, this`msgSince, MsgRepr(), bus`trace, bus`allSlavesNext, bus`allSlavesCurrent, bus.vSlaves
      modifies display`readyToLoad
      ensures bus.Valid() && Safe(bus.kinds, bus.trace) && old(bus.trace) <= bus.trace
      ensures astray == old(MsgGoesAstray(i.nextEntry)) && (astray ==> MsgIsAstray(i.nextEntry))
      ensures !astray ==> Valid() && View() == H.MsgBody(q, i.Found(marks.overlay, false))
      ensures MsgStepped(old(MsgLine()), i, old(bus.trace))
    {
      hide Valid, View, H.MsgRan, Bus.Valid, Safe, MsgIsAstray, MsgGoesAstray, MsgStepped;
      Fields();
      astray := GoOn(i);
    }

    /** The message task at its first line. */
    method FirstLine(i: TickInput, ghost q: H.Panel) returns (stop: Stop)
      requires Valid() && q == View() && !marks.msgRuns && i.IsPossible(|bus.kinds|)
      modifies this, bus`trace, bus`allSlavesNext, bus`allSlavesCurrent, bus.vSlaves
      modifies display`readyToLoad, display`reloadCurrent, display.dsCurrent, display.dsCurrent.fmpid
      ensures Valid() && old(bus.trace) <= bus.trace && (stop == NoStop || stop == Unset)
      ensures stop == NoStop ==> View() == H.MsgBody(q, i.Found(marks.overlay, false))
      ensures stop != NoStop ==> bus.trace == old(bus.trace)
      ensures stop == NoStop ==> FirstLineDone(q, i, old(bus.trace))
      ensures stop == Unset ==> i.message.Some? && !i.message.value.0.SetsASlot()
      ensures msg == old(msg) || msg == null || (fresh(msg) && fresh(msg.orBuf))
      ensures blank == old(blank) || blank == null || fresh(blank)
    {
      hide Valid, View, H.MsgRan, H.GivenUp, MsgBegun, BlankTask.Stepped;
      Fields();
      stop := NoStop;
      if marks.msgId == 0 || i.message.None? {
        NoMessage(i, q);
      } else if !i.message.value.0.SetsASlot() {
        stop := Unset;
      } else {
        BeginMsg(i, i.message.value.0, i.message.value.1);
      }
    }

    method NoMessage(i: TickInput, ghost q: H.Panel)
      requires Valid() && q == View() && !marks.msgRuns && (marks.msgId == 0 || i.message.None?)
      modifies this, bus`trace, bus`allSlavesCurrent, bus.vSlaves
      modifies display`readyToLoad, display`reloadCurrent, display.dsCurrent, display.dsCurrent.fmpid
      ensures Valid() && old(bus.trace) <= bus.trace
      ensures View() == H.MsgBody(q, i.Found(marks.overlay, false)) && FirstLineDone(q, i, old(bus.trace))
      ensures msg == old(msg) || msg == null || (fresh(msg) && fresh(msg.orBuf))
      ensures blank == old(blank) || blank == null || fresh(blank)
    {
      hide Valid, View, H.MsgRan, H.GivenUp, H.MsgBody, BlankTask.Stepped;
      Fields();
      WithoutMessage(q, i.Found(false, false));
      if display.dsCurrent.dispType == A.FSW || display.dsCurrent.dispType == A.EXT {
        BeginBlank(i);
      } else {
        GiveUp();
      }
    }

    static lemma WithoutMessage(q: H.Panel, f: H.Finding)
      requires q.display.Valid() && !q.marks.msgRuns && H.Undefined(q, f) && !f.overlay
      ensures H.MsgBody(q, f) == if q.Kind() == A.FSW || q.Kind() == A.EXT
                                 then H.MsgRan(q, true, f.base.ready, f.frame, false)
                                 else H.MsgBody(q, f.(overlay := true))
      ensures q.Kind() != A.FSW && q.Kind() != A.EXT ==> H.MsgBody(q, f) == H.GivenUp(q)
    {
      hide H.MsgRan, H.GivenUp;
    }

    static lemma OwnLineTells(p: H.Panel)
      requires p.display.Valid() && H.OwnLine(p)
      ensures var q := H.MsgTakes(p);
              && q.display.Valid() && q.frmSince == p.frmSince && q.Kind() == p.Kind()
              && (q.marks.msgRuns ==> (p.frmSince <==> q.marks.msgId == 0))
    {
      H.MsgTakesAway(p);
    }

    // ----- TaskFrm -----

    /** What the head of the frame task notes. */
    method PassFrmHead() returns (now: H.Marks)
      requires Valid()
      ensures Valid() && View() == old(View()) && now == H.FrmTaken(marks, display.reloadCurrent)
    {
      hide Valid, View;
      now := marks;
      if display.reloadCurrent {
        now := now.(newFrm := true, overlay := false);
      }
      if now.newFrm {
        now := now.(frmRuns := false, newFrm := false, msgId := 0);
      }
    }

    method FrmHead()
      requires Valid()
      modifies this`marks, frm, MsgRepr(), display`reloadCurrent
      ensures Valid() && View() == H.FrmTakes(old(View())) && bus.trace == old(bus.trace)
      ensures marks.frmRuns || frm.Inv()
      ensures if marks.frmRuns then unchanged(frm) else frm.pc == F.Begin
    {
      hide Valid, View, H.FrmTaken;
      Fields();
      var now := PassFrmHead();
      H.FrmTakesLines(marks, display.reloadCurrent);
      TakeReload();
      Become(now);
    }

    /** `TaskFrm` behind its head. */
    method FrmBody(i: TickInput) returns (again: bool, lit: bool)
      requires Valid() && frm.Inv() && i.IsPossible(|bus.kinds|)
      requires A.HasFrames(View().display.cur, |bus.kinds|)
      requires marks.frmRuns ==> !msgSince && (marks.frmId == begun || begun == 0)
      modifies this`marks, this`frmSince, this`msgSince, this`begun, frm
      modifies bus`trace, bus`allSlavesNext, bus`allSlavesCurrent, bus.vSlaves
      ensures bus.Valid() && old(bus.trace) <= bus.trace
      ensures old(View()).display.Valid()
      ensures FrmStepped(old(frm.pc), old(frm.order), OrderOf(old(View()), i), old(marks.frmId), i, old(bus.trace))
      ensures lit ==> LitUp(bus.kinds, bus.trace) && old(marks.frmRuns && marks.frmId != begun) && !again
      ensures !lit ==> Valid() && View() == H.FrmBody(old(View()), i.Found(false, again))
    {
      hide Bus.Valid, Safe, F.DistinctIds, F.FrmTask.Inv, M.MsgTask.Inv, BlankTask.Inv, H.FrmBegun, View, Valid,
        LitUp, A.HasFrames, H.FrmBody, TickInput.IsPossible, Display.Valid, F.Order.Fits, OrderOf, F.Sends, F.StopsAt;
      var shown, order := LookUp(i);
      Fields();
      ghost var q := View();
      again, lit := RunFrmTask(i, order);
      FrmBodyIs(q, i.Found(false, again));
      if !lit {
        NoteFrmRan(if again then shown else marks, if again then shown.frmId else begun);
      }
    }

    static lemma FrmBodyIs(q: H.Panel, f: H.Finding)
      requires q.display.Valid()
      ensures var shown := H.FrmBegun(q.marks, q.Kind(), q.display.cur.ids[0]);
              H.FrmBody(q, f) == if q.marks.frmRuns && !f.again then q.(frmSince := true, msgSince := false)
                                 else q.(marks := shown, frmSince := true, msgSince := false, begun := shown.frmId)
    {
      hide H.FrmBegun;
    }

    /** What the frame task would begin with. */
    static ghost function OrderOf(q: H.Panel, i: TickInput): F.Order
      requires q.display.Valid()
    {
      var id := H.FrmBegun(q.marks, q.Kind(), q.display.cur.ids[0]).frmId;
      if q.Kind() == A.ATF then F.Atomic(q.display.cur.ids, i.packets) else if id == 0 then F.Blank
      else F.Single(id, i.packet)
    }

    /** What the frame task notes in its first step. */
    method BeginFrm() returns (now: H.Marks)
      requires Valid()
      ensures Valid() && View() == old(View()) && display.Valid()
      ensures now == H.FrmBegun(marks, display.dsCurrent.dispType, display.dsCurrent.fmpid[0])
    {
      hide View, TasksMatch;
      var d := display.dsCurrent;
      now := marks.(frmRuns := true);
      if d.dispType == A.ATF {
        now := now.(plnId := 0, frmId := 1);
      } else if d.dispType == A.FRM {
        now := now.(plnId := 0, frmId := d.fmpid[0]);
      } else if d.dispType == A.PLN {
        now := now.(frmId := now.entryId);
      } else {
        now := now.(plnId := 0, frmId := 0);
      }
    }

    /** What is to be shown, as the first step of the coroutine looks it up. */
    method LookUp(i: TickInput) returns (shown: H.Marks, order: F.Order)
      requires Valid() && i.IsPossible(|bus.kinds|) && A.HasFrames(View().display.cur, |bus.kinds|)
      ensures Valid() && View() == old(View()) && display.Valid()
      ensures shown == H.FrmBegun(marks, display.dsCurrent.dispType, display.dsCurrent.fmpid[0])
      ensures shown.frmRuns && shown.msgRuns == marks.msgRuns && shown.on == marks.on
      ensures order.Fits(|bus.kinds|) && order.ShownId() == shown.frmId
      ensures View().display.Valid() && order == OrderOf(View(), i)
    {
      hide View, TasksMatch, H.FrmBegun, A.HasFrames;
      Fields();
      var kind := display.dsCurrent.dispType;
      shown := BeginFrm();
      order := if kind == A.ATF then F.Atomic(display.dsCurrent.fmpid[..], i.packets)
               else if shown.frmId == 0 then F.Blank else F.Single(shown.frmId, i.packet);
      H.FrmMarks(marks, kind, display.dsCurrent.fmpid[0]);
      H.AtomicId(marks, kind, display.dsCurrent.fmpid[0]);
      OrderFits(order, View().display.cur, |bus.kinds|, shown.frmId);
    }

    static lemma OrderFits(order: F.Order, d: A.Disp, n: nat, id: byte)
      requires A.HasFrames(d, n)
      requires match order
               case Blank => true
               case Single(k, _) => k == id != 0
               case Atomic(ids, packets) => d.kind == A.ATF && ids == d.ids && |packets| == n
      ensures order.Fits(n)
    {}

    /** What the group notes once the frame task has run. */
    method NoteFrmRan(now: H.Marks, ghost id: byte)
      requires display.Valid() && TaskRepr() !! display.Repr()
      requires bus.Valid() && F.DistinctIds(bus.kinds) && Safe(bus.kinds, bus.trace) && bus.deviceEnDisCur == now.on
      requires frm.bus == bus && frm.Inv() && now.frmRuns && frm.pc != F.Begin && frm.order.ShownId() == id
      requires msg != null ==> msg.job.Valid() && msg.orBuf.Length == msg.job.size
      requires now.msgRuns ==> (msg == null) != (blank == null)
      modifies this`marks, this`frmSince, this`msgSince, this`begun
      ensures Valid() && View() == old(View()).(marks := now, frmSince := true, msgSince := false, begun := id)
    {
      hide Bus.Valid, Safe, F.DistinctIds, F.FrmTask.Inv, M.MsgTask.Inv, BlankTask.Inv, Display.View, Display.Valid,
        Display.Repr;
      marks, frmSince, msgSince, begun := now, true, false, id;
    }

    /** The frame task has made one step from line `pc` of order `was`; `now` is what it begins with. */
    ghost predicate FrmStepped(pc: F.Pc, was: F.Order, now: F.Order, id: byte, i: TickInput, t: Trace)
      reads frm, bus
    {
      && now.Fits(|bus.kinds|) && (pc != F.Begin ==> was.Fits(|bus.kinds|))
      && (pc == F.FrameSet ==> was.Single?) && (pc in {F.AtomicBus, F.AtomicSet} ==> was.Atomic?)
      && bus.trace == t + F.Sends(bus.kinds, was, bus.deviceEnDisCur, pc, now, id, i.frmExpired, bus.allSlavesNext,
                                  bus.allSlavesCurrent, frm.sATF)
      && frm.pc == F.StopsAt(|bus.kinds|, pc, now, i.frmExpired, i.refreshExpired, bus.allSlavesNext,
                             bus.allSlavesCurrent,
                             frm.sATF)
    }

    method RunFrmTask(i: TickInput, order: F.Order) returns (again: bool, lit: bool)
      requires Valid() && frm.Inv() && order.Fits(|bus.kinds|)
      requires marks.frmRuns ==> !msgSince && (marks.frmId == begun || begun == 0)
      modifies frm, bus`trace, bus`allSlavesNext, bus`allSlavesCurrent, bus.vSlaves
      ensures bus.Valid() && old(bus.trace) <= bus.trace && (again || marks.frmRuns)
      ensures FrmStepped(old(frm.pc), old(frm.order), order, marks.frmId, i, old(bus.trace))
      ensures lit ==> LitUp(bus.kinds, bus.trace) && marks.frmRuns && marks.frmId != begun && !again
      ensures !lit ==> Safe(bus.kinds, bus.trace) && frm.Inv() && frm.pc != F.Begin
                       && frm.order.ShownId() == if again then order.ShownId() else begun
      ensures F.DistinctIds(bus.kinds) && frm.bus == bus && bus.deviceEnDisCur == marks.on && View() == old(View())
      ensures display.Valid() && TaskRepr() !! display.Repr()
      ensures msg != null ==> msg.job.Valid() && msg.orBuf.Length == msg.job.size
      ensures marks.msgRuns ==> (msg == null) != (blank == null)
    {
      hide Bus.Valid, Safe, F.DistinctIds, F.FrmTask.Inv, M.MsgTask.Inv, BlankTask.Inv, LitUp, F.Order.Fits, F.Sends,
        F.StopsAt, F.FrmTask.IsNextUnsent;
      OrderFollows();
      again, lit := frm.Resume(i.frmExpired, i.refreshExpired, order, marks.frmId);
      if !lit {
        frm.InvIsSafe();
      }
    }

    lemma OrderFollows()
      requires Valid() && frm.Inv() && (marks.frmRuns ==> !msgSince && (marks.frmId == begun || begun == 0))
      ensures frm.pc == F.Begin || (frm.Follows(marks.frmId) && frm.order.ShownId() == begun)
      ensures frm.pc == F.Begin <==> !marks.frmRuns
      ensures frm.order.Fits(|bus.kinds|)
      ensures (frm.pc == F.FrameSet ==> frm.order.Single?) && (frm.pc in {F.AtomicBus, F.AtomicSet} ==> frm.order.Atomic?)
    {
      hide Bus.Valid, Safe, F.DistinctIds, M.MsgTask.Inv, BlankTask.Inv, Display.Valid, Display.Repr, F.EachShown,
        F.EachPending,
        F.EachConfirmed;
    }

    method TaskFrm(i: TickInput) returns (again: bool, lit: bool)
      requires Valid() && H.FrmIsRight(View()) && H.IdIsRight(View()) && i.IsPossible(|bus.kinds|)
      requires A.AtomicsFit(View().display, |bus.kinds|)
      modifies this`marks, this`frmSince, this`msgSince, this`begun, frm, MsgRepr(), display`reloadCurrent
      modifies bus`trace, bus`allSlavesNext, bus`allSlavesCurrent, bus.vSlaves
      ensures bus.Valid() && old(bus.trace) <= bus.trace && old(View()).display.Valid()
      ensures if old(View()).FrmHas() then
                var q := H.FrmTakes(old(View()));
                FrmStepped(if q.marks.frmRuns then old(frm.pc) else F.Begin, old(frm.order), OrderOf(q, i),
                           q.marks.frmId, i, old(bus.trace))
              else bus.trace == old(bus.trace)
      ensures lit ==> LitUp(bus.kinds, bus.trace) && H.IsMisled(old(View())) && !again
      ensures !lit ==> Valid() && View() == H.RunFrm(old(View()), i.Found(false, again))
    {
      hide Valid, View, H.FrmTakes, H.FrmBody, H.FrmIsRight, H.IdIsRight, TickInput.IsPossible, Bus.Valid, LitUp,
        A.AtomicsFit,
        OrderOf, FrmStepped;
      again, lit := false, false;
      Fields();
      ValidIsSafe();
      if H.OfFrm(display.dsCurrent.dispType) || (display.dsCurrent.dispType == A.PLN && !marks.entryIsMsg) {
        again, lit := FrmHasDisplay(i, View());
      }
    }

    /** `TaskFrm` when the display is its own. */
    method FrmHasDisplay(i: TickInput, ghost p: H.Panel) returns (again: bool, lit: bool)
      requires Valid() && p == View() && p.display.Valid() && p.FrmHas()
      requires H.FrmIsRight(p) && H.IdIsRight(p) && i.IsPossible(|bus.kinds|) && A.AtomicsFit(p.display, |bus.kinds|)
      modifies this`marks, this`frmSince, this`msgSince, this`begun, frm, MsgRepr(), display`reloadCurrent
      modifies bus`trace, bus`allSlavesNext, bus`allSlavesCurrent, bus.vSlaves
      ensures bus.Valid() && old(bus.trace) <= bus.trace
      ensures var q := H.FrmTakes(p);
              FrmStepped(if q.marks.frmRuns then old(frm.pc) else F.Begin, old(frm.order), OrderOf(q, i),
                         q.marks.frmId, i, old(bus.trace))
      ensures lit ==> LitUp(bus.kinds, bus.trace) && H.IsMisled(p) && !again
      ensures !lit ==> Valid() && View() == H.FrmBody(H.FrmTakes(p), i.Found(false, again))
    {
      hide Valid, View, H.FrmTakes, H.FrmBody, H.FrmIsRight, H.IdIsRight, TickInput.IsPossible, Bus.Valid, LitUp,
        A.HasFrames,
        OrderOf, FrmStepped;
      FrmTaskIsRight(p);
      FrmHead();
      Fields();
      FrmIsCurrent();
      ghost var pc, was, q := frm.pc, frm.order, View();
      again, lit := FrmBody(i);
      BeginsAnew(pc, was, old(frm.order), OrderOf(q, i), q.marks.frmId, i, old(bus.trace));
    }

    /** A first step does not depend on the order before it. */
    lemma BeginsAnew(pc: F.Pc, was: F.Order, any: F.Order, now: F.Order, id: byte, i: TickInput, t: Trace)
      requires FrmStepped(pc, was, now, id, i, t) && (pc == F.Begin || any == was)
      ensures FrmStepped(pc, any, now, id, i, t)
    {}

    lemma FrmIsCurrent()
      requires Valid() && (marks.frmRuns ==> !msgSince) && (marks.frmRuns || frm.Inv())
      ensures frm.Inv()
    {}

    static lemma FrmTaskIsRight(p: H.Panel)
      requires p.display.Valid() && H.FrmIsRight(p) && p.FrmHas()
      ensures H.FrmTakes(p).marks.frmRuns ==> !H.FrmTakes(p).msgSince
      ensures H.FrmTakes(p).display.Valid() && H.FrmTakes(p).display.cur == p.display.cur
      ensures H.FrmTakes(p).begun == p.begun && H.FrmTakes(p).marks.frmId == p.marks.frmId
      ensures H.IdIsRight(p) && H.FrmTakes(p).marks.frmRuns ==> p.marks.frmId == p.begun || p.begun == 0
    {
      if H.FrmTakes(p).marks.frmRuns {
        H.FrmTakesAway(p);
      }
    }

    // ----- Between two ticks -----

    /** The coroutine that ran last keeps what holds at its stops when the history of the bus is `t`. */
    ghost predicate HoldsAt(t: Trace)
      reads this, frm, MsgRepr(), bus`deviceEnDisCur
    {
      && Safe(bus.kinds, t)
      && frm.bus == bus && (!msgSince ==> frm.InvAt(t))
      && (marks.msgRuns && !frmSince && msg != null ==> msg.bus == bus && msg.InvAt(t))
      && (marks.msgRuns && !frmSince && blank != null ==> blank.bus == bus && blank.InvAt(t))
    }

    lemma HoldsNow()
      requires Valid()
      ensures HoldsAt(bus.trace)
    {
      hide Safe, F.DistinctIds, Bus.Valid, F.FrmTask.Inv, F.FrmTask.InvAt, M.MsgTask.Inv, M.MsgTask.InvAt,
        BlankTask.Inv,
        BlankTask.InvAt;
      if !msgSince {
        frm.InvNow();
      } else if marks.msgRuns && !frmSince {
        if msg != null {
          msg.InvNow();
        } else {
          blank.InvNow();
        }
      }
    }

    lemma QuietHolds(t: Trace, e: Event)
      requires HoldsAt(t) && !e.IsCommand() && CheckIsSound(bus.kinds, t, e)
      ensures HoldsAt(t + [e])
    {
      hide Safe, CheckIsSound, F.FrmTask.InvAt, M.MsgTask.InvAt, BlankTask.InvAt;
      SafeGrows(bus.kinds, t, e);
      if !msgSince {
        frm.QuietInvAt(t, e);
      }
      if marks.msgRuns && !frmSince && msg != null {
        msg.QuietInvAt(t, e);
      }
      if marks.msgRuns && !frmSince && blank != null {
        blank.QuietInvAt(t, e);
      }
    }

    /** What does not depend on the history. */
    ghost predicate Frame()
      reads this, frm, MsgRepr(), bus`deviceEnDisCur
    {
      && display.Valid() && TaskRepr() !! display.Repr()
      && F.DistinctIds(bus.kinds) && bus.deviceEnDisCur == marks.on
      && (marks.frmRuns <==> frm.pc != F.Begin)
      && (marks.frmRuns && !msgSince ==> frm.order.ShownId() == begun)
      && (msg != null ==> msg.job.Valid() && msg.orBuf.Length == msg.job.size)
      && (marks.msgRuns ==> (msg == null) != (blank == null))
      && (marks.msgRuns && !frmSince ==> msgSince)
      && (marks.msgRuns && !frmSince && msg != null ==> msg.pc != M.Begin && marks.overlay == msg.msgOverlay)
      && (marks.msgRuns && !frmSince && blank != null ==> blank.pc != Begin && !marks.overlay)
    }

    lemma FrameNow()
      requires Valid()
      ensures Frame()
    {
      hide Safe, F.DistinctIds, Bus.Valid, F.FrmTask.Inv, M.MsgTask.Inv, BlankTask.Inv, Display.Valid, Display.Repr;
    }

    lemma ValidAgain()
      requires Frame() && bus.Valid() && HoldsAt(bus.trace)
      ensures Valid()
    {
      hide Safe, F.DistinctIds, Bus.Valid, F.FrmTask.Inv, F.FrmTask.InvAt, M.MsgTask.Inv, M.MsgTask.InvAt,
        BlankTask.Inv,
        BlankTask.InvAt, Display.Valid, Display.Repr;
      if !msgSince {
        frm.InvNow();
      }
      if marks.msgRuns && !frmSince && msg != null {
        msg.InvNow();
      }
      if marks.msgRuns && !frmSince && blank != null {
        blank.InvNow();
      }
    }

    /** A status reply comes in. */
    method OnReply(data: seq<bv8>)
      requires Valid() && |data| >= 2
      modifies bus`trace, bus.vSlaves
      ensures Valid() && View() == old(View()) && bus.trace == old(bus.trace) + [Reply(data)]
    {
      hide HoldsAt, Bus.SlaveAgrees;
      HoldsNow();
      FrameNow();
      ghost var t := bus.trace;
      bus.StatusRpl(data);
      QuietHolds(t, Reply(data));
      ValidAgain();
    }

    /** `TaskRqstSlave` asks a slave for its status. */
    method OnRequest(slvindex: nat)
      requires Valid() && slvindex < |bus.kinds|
      modifies bus`trace, bus.vSlaves
      ensures Valid() && View() == old(View()) && bus.trace == old(bus.trace) + [Request(slvindex)]
    {
      hide HoldsAt, Bus.SlaveAgrees;
      HoldsNow();
      FrameNow();
      ghost var t := bus.trace;
      bus.RqstStatus(slvindex);
      QuietHolds(t, Request(slvindex));
      ValidAgain();
    }

    /** Power-up forgets the replies. */
    method OnPowerUp()
      requires Valid()
      modifies bus`trace, bus.vSlaves
      ensures Valid() && View() == old(View()) && bus.trace == old(bus.trace) + [Clear]
    {
      hide HoldsAt, Bus.SlaveAgrees;
      HoldsNow();
      FrameNow();
      ghost var t := bus.trace;
      bus.ClrAllSlavesRxStatus();
      QuietHolds(t, Clear);
      ValidAgain();
    }

    /** A command or an input. */
    method Perform(c: A.Command)
      requires Valid()
      modifies display.Repr()
      ensures Valid() && View() == H.OnePanelStep(old(View()), H.Commanded(c)) && bus.trace == old(bus.trace)
    {
      hide TasksMatch, Display.Repr, A.Apply;
      display.Perform(c);
    }

    /** `SystemReset` from level 1 on, as far as the display is concerned. */
    method SystemReset1()
      requires Valid()
      modifies this`marks, display.Repr()
      ensures Valid() && View() == H.OnePanelStep(old(View()), H.Level1Reset) && bus.trace == old(bus.trace)
    {
      hide TasksMatch, Display.Repr, A.Apply;
      display.Perform(A.Reset);
      marks := marks.(plnId := 0, frmId := 1);
    }

    /** A tick up to the message task. */
    method StartTick(i: TickInput)
      requires Valid()
      modifies this`marks, frm, MsgRepr(), bus`deviceEnDisCur, display.Repr()
      ensures Valid() && bus.trace == old(bus.trace) && View() == H.BeforeMsg(old(View()), i.Found(false, false))
    {
      hide Valid, View, H.Loads, H.RunPln;
      Fields();
      LoadDisplay(i);
      Fields();
      TaskPln(i);
    }

    /** What holds of the panel between any two steps. */
    static ghost predicate Whole(p: H.Panel, ticked: bool, n: nat) {
      H.Inv(p, ticked) && H.IdKept(p) && A.AtomicsFit(p.display, n)
    }

    /** One tick of `NormalMode`. */
    method Tick(i: TickInput, ghost p: H.Panel, ghost ticked: bool) returns (stop: Stop, ghost f: H.Finding)
      requires Valid() && p == View() && Whole(p, ticked, |bus.kinds|) && i.IsPossible(|bus.kinds|)
      modifies this, frm, MsgRepr(), bus, bus.vSlaves, display.Repr()
      ensures bus.Valid() && old(bus.trace) <= bus.trace
      ensures msg == old(msg) || msg == null || (fresh(msg) && fresh(msg.orBuf))
      ensures blank == old(blank) || blank == null || fresh(blank)
      ensures f == i.Found(f.overlay, f.again)
      ensures if stop == Lit then LitUp(bus.kinds, bus.trace) && H.Misleads(p, f) else Safe(bus.kinds, bus.trace)
      ensures stop == NoStop ==> Valid() && View() == H.PanelTick(p, f) && Whole(View(), true, |bus.kinds|)
      ensures stop == Overtaken <==> H.Overtakes(p, f)
      ensures stop == Unset ==> i.message.Some? && !i.message.value.0.SetsASlot()
      ensures stop == Astray ==> MsgIsAstray(i.nextEntry)
    {
      hide Valid, View, Whole, H.BeforeMsg, H.RunMsg, H.PanelTick, H.Overtakes, H.Misleads, Bus.Valid, Safe, LitUp,
        MsgIsAstray;
      InvIsWhole(p, ticked, |bus.kinds|);
      stop := MsgTick(i, p, ticked);
      f := i.Found(false, false);
      ghost var m, b := msg, blank;
      if stop == NoStop {
        var lit;
        lit, f := EndTick(i, p, ticked);
        stop := if lit then Lit else NoStop;
        assert msg == m && blank == b;
      }
    }

    method MsgTick(i: TickInput, ghost p: H.Panel, ghost ticked: bool) returns (stop: Stop)
      requires Valid() && p == View() && Whole(p, ticked, |bus.kinds|) && i.IsPossible(|bus.kinds|)
      modifies this, frm, MsgRepr(), bus, bus.vSlaves, display.Repr()
      ensures bus.Valid() && Safe(bus.kinds, bus.trace) && old(bus.trace) <= bus.trace && stop != Lit
      ensures msg == old(msg) || msg == null || (fresh(msg) && fresh(msg.orBuf))
      ensures blank == old(blank) || blank == null || fresh(blank)
      ensures stop == NoStop ==>
                Valid() && View() == H.RunMsg(H.BeforeMsg(p, i.Found(false, false)), i.Found(marks.overlay, false))
      ensures stop == Overtaken <==> H.Overtakes(p, i.Found(false, false))
      ensures stop == Unset ==> i.message.Some? && !i.message.value.0.SetsASlot()
      ensures stop == Astray ==> MsgIsAstray(i.nextEntry)
    {
      hide Valid, View, H.Inv, H.IdKept, A.AtomicsFit, H.BeforeMsg, H.RunMsg, H.OwnLine, H.FrmIsRight, H.MsgIsRight,
        H.IsOvertaken, Bus.Valid, Safe, MsgIsAstray;
      InvIsWhole(p, ticked, |bus.kinds|);
      StartTick(i);
      Fields();
      H.OneTick(p, i.Found(false, false), ticked);
      stop := TaskMsg(i, H.BeforeMsg(p, i.Found(false, false)));
    }

    /** A tick from the message task on; `p` is how it began. */
    method EndTick(i: TickInput, ghost p: H.Panel, ghost ticked: bool) returns (lit: bool, ghost f: H.Finding)
      requires Valid() && Whole(p, ticked, |bus.kinds|) && i.IsPossible(|bus.kinds|)
      requires View() == H.RunMsg(H.BeforeMsg(p, i.Found(false, false)), i.Found(marks.overlay, false))
      modifies this`marks, this`frmSince, this`msgSince, this`begun, frm, MsgRepr(), display`reloadCurrent
      modifies bus`trace, bus`allSlavesNext, bus`allSlavesCurrent, bus.vSlaves
      ensures bus.Valid() && old(bus.trace) <= bus.trace && f == i.Found(f.overlay, f.again)
      ensures if lit then LitUp(bus.kinds, bus.trace) && H.Misleads(p, f) else Safe(bus.kinds, bus.trace)
      ensures !lit ==> Valid() && View() == H.PanelTick(p, f) && Whole(View(), true, |bus.kinds|)
      ensures H.Overtakes(p, f) == H.Overtakes(p, i.Found(false, false))
      ensures msg == old(msg) && blank == old(blank)
    {
      hide Valid, View, H.Inv, H.IdKept, A.AtomicsFit, H.BeforeMsg, H.RunMsg, H.RunFrm, H.FrmIsRight, H.IdIsRight,
        H.IsOvertaken, H.IsMisled, Bus.Valid, Safe, LitUp;
      ghost var overlay, found := marks.overlay, i.Found(false, false);
      Fields();
      InvIsWhole(p, ticked, |bus.kinds|);
      BeforeFrmIsRight(p, found, overlay, ticked, |bus.kinds|);
      var again;
      again, lit := TaskFrm(i);
      f := i.Found(overlay, again);
      AfterFrm(p, found, overlay, again, ticked, |bus.kinds|);
      if !lit {
        ValidIsSafe();
      }
    }

    static lemma BeforeFrmIsRight(p: H.Panel, found: H.Finding, overlay: bool, ticked: bool, n: nat)
      requires Whole(p, ticked, n) && found.minute.Valid() && !found.overlay && !found.again
      ensures var q := H.RunMsg(H.BeforeMsg(p, found), found.(overlay := overlay));
              && p.display.Valid() && q == H.BeforeFrm(p, found.(overlay := overlay))
              && H.FrmIsRight(q) && H.IdIsRight(q) && A.AtomicsFit(q.display, n)
    {
      hide H.Inv, H.IdKept, A.AtomicsFit, H.BeforeMsg, H.RunMsg, H.RunFrm, H.FrmIsRight, H.IdIsRight, H.OwnLine,
        H.MsgIsRight;
      InvIsWhole(p, ticked, n);
      var f := found.(overlay := overlay);
      H.BeforeMsgAgrees(p, found, overlay, false);
      H.OneTick(p, f, ticked);
      H.TickKeepsId(p, f, ticked);
      H.TickFits(p, f, n);
    }

    static lemma AfterFrm(p: H.Panel, found: H.Finding, overlay: bool, again: bool, ticked: bool, n: nat)
      requires Whole(p, ticked, n) && found.minute.Valid() && !found.overlay && !found.again && p.display.Valid()
      ensures var f := found.(overlay := overlay, again := again);
              var q := H.RunMsg(H.BeforeMsg(p, found), found.(overlay := overlay));
              && H.PanelTick(p, f) == H.RunFrm(q, found.(again := again)) && Whole(H.PanelTick(p, f), true, n)
              && H.Overtakes(p, f) == H.Overtakes(p, found) && H.Misleads(p, f) == H.IsMisled(q)
    {
      hide H.Inv, H.IdKept, A.AtomicsFit, H.BeforeMsg, H.RunMsg, H.RunFrm, H.IsOvertaken, H.IsMisled, H.IdIsRight;
      var f := found.(overlay := overlay, again := again);
      H.BeforeMsgAgrees(p, found, overlay, again);
      H.MsgAgrees(H.BeforeMsg(p, f), found.(overlay := overlay), again);
      H.FrmAgrees(H.BeforeFrm(p, f), found.(again := again), overlay);
      H.TickKeeps(p, f, ticked);
      H.TickKeepsId(p, f, ticked);
      H.TickFits(p, f, n);
    }

    static lemma InvIsWhole(p: H.Panel, ticked: bool, n: nat)
      requires Whole(p, ticked, n)
      ensures p.display.Valid()
    {}

    // ----- Every run -----

    /** No tick of the run lets the message task go on where the frame task has overtaken it. */
    static ghost predicate NoneOvertakes(p: H.Panel, steps: seq<H.PanelStep>)
      requires p.display.Valid()
    {
      forall n :: 0 <= n < |steps| && steps[n].Ticked? ==> !H.Overtakes(H.AfterSteps(p, steps[..n]), steps[n].finding)
    }

    static lemma {:induction false} NoneOvertakesYet(p: H.Panel, steps: seq<H.PanelStep>, step: H.PanelStep)
      requires p.display.Valid() && NoneOvertakes(p, steps)
      requires step.Ticked? ==> !H.Overtakes(H.AfterSteps(p, steps), step.finding)
      ensures NoneOvertakes(p, steps + [step])
      ensures H.AfterSteps(p, steps + [step]) == H.OnePanelStep(H.AfterSteps(p, steps), step)
    {
      hide H.Overtakes, H.OnePanelStep;
      H.OneMore(p, steps, step);
      var more := steps + [step];
      forall n | 0 <= n < |more| && more[n].Ticked?
        ensures !H.Overtakes(H.AfterSteps(p, more[..n]), more[n].finding)
      {
        assert more[..n] == steps[..n];
        assert n == |steps| ==> steps[..n] == steps;
      }
    }

    /** The steps that an input comes to. */
    static predicate Makes(input: Input, made: seq<H.PanelStep>) {
      match input
      case OneTick(tick) => |made| == 1 && made[0].Ticked? && IsFinding(tick, made[0].finding)
      case OneCommand(c) => made == [H.Commanded(c)]
      case OneReset => made == [H.Level1Reset]
      case _ => made == []
    }

    static predicate IsFinding(tick: TickInput, f: H.Finding) {
      f == tick.Found(f.overlay, f.again)
    }

    /** The steps of a run are those of its inputs, in order. */
    static ghost predicate AreStepsOf(inputs: seq<Input>, steps: seq<H.PanelStep>)
      decreases |inputs|
    {
      if inputs == [] then steps == []
      else exists k :: 0 <= k <= |steps| && AreStepsOf(inputs[..|inputs| - 1], steps[..k])
                       && Makes(inputs[|inputs| - 1], steps[k..])
    }

    static lemma {:induction false} OneMoreInput(inputs: seq<Input>, n: nat, steps: seq<H.PanelStep>,
                                                 made: seq<H.PanelStep>)
      requires n < |inputs| && AreStepsOf(inputs[..n], steps) && Makes(inputs[n], made)
      ensures AreStepsOf(inputs[..n + 1], steps + made)
    {
      hide Makes;
      var more, all := inputs[..n + 1], steps + made;
      assert more[..|more| - 1] == inputs[..n];
      assert all[..|steps|] == steps && all[|steps|..] == made;
    }

    static lemma StillValid(steps: seq<H.PanelStep>, step: H.PanelStep)
      requires H.StepsAreValid(steps) && (step.Ticked? ==> step.finding.minute.Valid())
      ensures H.StepsAreValid(steps + [step])
    {}

    /** One input, after the steps of the inputs before it. */
    method TakeInput(input: Input, ghost p: H.Panel, ghost steps: seq<H.PanelStep>)
      returns (stop: Stop, ghost made: seq<H.PanelStep>, ghost f: H.Finding)
      requires Valid() && H.FreshPanel(p) && H.StepsAreValid(steps) && View() == H.AfterSteps(p, steps)
      requires A.AtomicsFit(View().display, |bus.kinds|)
      requires NoneOvertakes(p, steps) && input.IsPossible(|bus.kinds|)
      modifies this, frm, MsgRepr(), bus, bus.vSlaves, display.Repr()
      ensures bus.Valid() && old(bus.trace) <= bus.trace
      ensures msg == old(msg) || msg == null || (fresh(msg) && fresh(msg.orBuf))
      ensures blank == old(blank) || blank == null || fresh(blank)
      ensures H.StepsAreValid(steps + made) && NoneOvertakes(p, steps + made)
      ensures if stop == NoStop then
                && Valid() && Makes(input, made) && View() == H.AfterSteps(p, steps + made)
                && A.AtomicsFit(View().display, |bus.kinds|)
              else input.OneTick? && IsFinding(input.tick, f) && made == []
      ensures if stop == Lit then LitUp(bus.kinds, bus.trace) && H.Misleads(H.AfterSteps(p, steps), f)
              else Safe(bus.kinds, bus.trace)
      ensures stop == Overtaken ==> H.Overtakes(H.AfterSteps(p, steps), f)
      ensures stop == Unset ==> input.BeginsUnset()
      ensures stop == Astray ==> MsgIsAstray(input.tick.nextEntry)
    {
      hide Valid, View, H.FreshPanel, H.AfterSteps, NoneOvertakes, H.Overtakes, H.Misleads, H.PanelTick, H.Inv,
        H.IdKept,
        A.Apply, A.AtomicsFit, A.CommandFits, Bus.Valid, Safe, LitUp, MsgIsAstray, H.StepsAreValid, H.HasTicked;
      stop, made, f := NoStop, [], H.Calm(H.Free, false);
      assert steps + [] == steps;
      FreshIsWhole(p);
      match input {
        case OneTick(tick) =>
          H.EveryRunKeeps(p, steps);
          H.EveryRunKeepsId(p, steps);
          stop, f := Tick(tick, H.AfterSteps(p, steps), H.HasTicked(steps));
          if stop == NoStop {
            made := [H.Ticked(f)];
            NoneOvertakesYet(p, steps, H.Ticked(f));
            StillValid(steps, H.Ticked(f));
            ValidIsSafe();
          }
        case _ =>
          made := TakeOther(input, p, steps);
          ValidIsSafe();
      }
    }

    /** An input that is no tick. */
    method TakeOther(input: Input, ghost p: H.Panel, ghost steps: seq<H.PanelStep>) returns (ghost made: seq<H.PanelStep>)
      requires Valid() && H.FreshPanel(p) && H.StepsAreValid(steps) && View() == H.AfterSteps(p, steps)
      requires A.AtomicsFit(View().display, |bus.kinds|)
      requires NoneOvertakes(p, steps) && input.IsPossible(|bus.kinds|) && !input.OneTick?
      modifies this`marks, bus, bus.vSlaves, display.Repr()
      ensures Valid() && old(bus.trace) <= bus.trace
      ensures H.StepsAreValid(steps + made) && NoneOvertakes(p, steps + made)
      ensures Makes(input, made) && View() == H.AfterSteps(p, steps + made)
      ensures A.AtomicsFit(View().display, |bus.kinds|)
    {
      hide Valid, View, H.FreshPanel, H.AfterSteps, NoneOvertakes, H.Overtakes, H.PanelTick, H.Inv, A.Apply,
        A.AtomicsFit,
        A.CommandFits, Bus.Valid, Safe;
      made := [];
      assert steps + [] == steps;
      FreshIsWhole(p);
      ghost var q := View();
      match input {
        case OneCommand(c) =>
          Perform(c);
          made := [H.Commanded(c)];
          NoneOvertakesYet(p, steps, H.Commanded(c));
          A.ApplyFits(q.display, c, |bus.kinds|);
        case OneReset =>
          SystemReset1();
          made := [H.Level1Reset];
          NoneOvertakesYet(p, steps, H.Level1Reset);
          ResetFits(q.display, |bus.kinds|);
        case ReplyIn(data) => OnReply(data);
        case Poll(index) => OnRequest(index);
        case PowerUp => OnPowerUp();
      }
    }

    static lemma ResetFits(s: A.State, n: nat)
      requires s.Valid() && A.AtomicsFit(s, n)
      ensures A.AtomicsFit(A.Apply(s, A.Reset), n)
    {
      hide A.AtomicsFit, A.Apply;
      A.ApplyFits(s, A.Reset, n);
    }

    /** Every run from start-up, with any commands, resets, faults, plans, timers and replies: all checks are sound and no
        slave is told to show a frame it has not confirmed, up to the first tick in which the message task goes on at a
        line that the frame task has overtaken, or begins a message that never sets its slot, or sends a stray entry; or
        in which slot 1 is shown under a blank order, which is in order exactly when every slave had confirmed a frame
        there. `steps` is what the first `n` inputs, all of them unless the run stops, come to on the marks. */
    method Run(inputs: seq<Input>, ghost p: H.Panel)
      returns (stop: Stop, n: nat, ghost steps: seq<H.PanelStep>, ghost f: H.Finding)
      requires Valid() && p == View() && H.FreshPanel(p)
      requires forall k :: 0 <= k < |inputs| ==> inputs[k].IsPossible(|bus.kinds|)
      modifies this, frm, MsgRepr(), bus, bus.vSlaves, display.Repr()
      ensures bus.Valid() && old(bus.trace) <= bus.trace
      ensures if stop == Lit then LitUp(bus.kinds, bus.trace) && H.Misleads(H.AfterSteps(p, steps), f)
              else Safe(bus.kinds, bus.trace)
      ensures n <= |inputs| && AreStepsOf(inputs[..n], steps) && H.StepsAreValid(steps) && NoneOvertakes(p, steps)
      ensures if stop == NoStop then n == |inputs| && View() == H.AfterSteps(p, steps)
              else n < |inputs| && inputs[n].OneTick? && IsFinding(inputs[n].tick, f)
      ensures stop == Overtaken ==> H.Overtakes(H.AfterSteps(p, steps), f)
      ensures stop == Unset ==> inputs[n].BeginsUnset()
      ensures stop == Astray ==> MsgIsAstray(inputs[n].tick.nextEntry)
    {
      hide Valid, View, H.FreshPanel, NoneOvertakes, H.Overtakes, H.Misleads, Input.IsPossible, Input.BeginsUnset,
        Makes,
        IsFinding, H.StepsAreValid, AreStepsOf, H.AfterSteps, Safe, Bus.Valid, LitUp, A.AtomicsFit, MsgIsAstray;
      stop, steps, f, n := NoStop, [], H.Calm(H.Free, false), 0;
      FreshIsWhole(p);
      FreshFits(p, |bus.kinds|);
      NothingOvertakes(p);
      assert inputs[..0] == [];
      while n < |inputs|
        invariant 0 <= n <= |inputs| && stop == NoStop && Valid() && old(bus.trace) <= bus.trace
        invariant msg == old(msg) || msg == null || (fresh(msg) && fresh(msg.orBuf))
        invariant blank == old(blank) || blank == null || fresh(blank)
        invariant AreStepsOf(inputs[..n], steps) && H.StepsAreValid(steps) && NoneOvertakes(p, steps)
        invariant View() == H.AfterSteps(p, steps) && A.AtomicsFit(View().display, |bus.kinds|)
      {
        ghost var made;
        stop, made, f := TakeInput(inputs[n], p, steps);
        if stop != NoStop {
          return;
        }
        OneMoreInput(inputs, n, steps, made);
        steps := steps + made;
        n := n + 1;
      }
      assert inputs[..n] == inputs;
      ValidIsSafe();
    }

    static lemma FreshFits(p: H.Panel, n: nat)
      requires H.FreshPanel(p)
      ensures A.AtomicsFit(p.display, n)
    {}

    lemma ValidIsSafe()
      requires Valid()
      ensures bus.Valid() && Safe(bus.kinds, bus.trace)
    {}

    static lemma FreshIsWhole(p: H.Panel)
      requires H.FreshPanel(p)
      ensures p.display.Valid()
    {}

    static lemma {:induction false} NothingOvertakes(p: H.Panel)
      requires p.display.Valid()
      ensures NoneOvertakes(p, []) && H.AfterSteps(p, []) == p && H.StepsAreValid([]) && AreStepsOf([], [])
    {}
  }
}
