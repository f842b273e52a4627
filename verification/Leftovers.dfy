/** What one display task may leave behind for the next (src/sign/Group.cpp, 385-535 and 819-893): a line at which a task
    goes on although another has had the display, an entry of the plan that is no longer due, and overlays. */
module Leftovers {
  import opened Bytes
  import opened DisplayArbiter
  import opened Edges
  import opened HandOver

  // ----- Who goes on where -----

  /** The frame task goes on at a line it has left before. */
  predicate FrmGoesOn(p: Panel, i: Finding)
    requires p.display.Valid()
  {
    var q := BeforeFrm(p, i);
    q.FrmHas() && FrmTakes(q).marks.frmRuns
  }

  predicate MsgGoesOn(p: Panel, i: Finding)
    requires p.display.Valid()
  {
    var q := BeforeMsg(p, i);
    q.MsgHas() && MsgTakes(q).marks.msgRuns
  }

  /** In every run, the frame task never goes on at an old line after the message task has had the display. */
  lemma {:induction false} FrmStartsAgain(p: Panel, steps: seq<PanelStep>, i: Finding)
    requires FreshPanel(p) && StepsAreValid(steps) && i.minute.Valid()
    ensures var q := AfterSteps(p, steps);
            FrmGoesOn(q, i) ==> !BeforeFrm(q, i).msgSince
  {
    var q := AfterSteps(p, steps);
    EveryRunKeeps(p, steps);
    OneTick(q, i, HasTicked(steps));
    hide FreshPanel, AfterSteps, Inv, BeforeFrm, FrmTakes;
    if FrmGoesOn(q, i) {
      FrmTakesAway(BeforeFrm(q, i));
    }
  }

  /** The message task can: in every run, it goes on at an old line after the frame task has had the display exactly when
      `onDispMsgId` is then 0. */
  lemma {:induction false} MsgMayGoOn(p: Panel, steps: seq<PanelStep>, i: Finding)
    requires FreshPanel(p) && StepsAreValid(steps) && i.minute.Valid()
    ensures var q := AfterSteps(p, steps);
            MsgGoesOn(q, i) ==> (BeforeMsg(q, i).frmSince <==> BeforeMsg(q, i).marks.msgId == 0)
  {
    var q := AfterSteps(p, steps);
    EveryRunKeeps(p, steps);
    OneTick(q, i, HasTicked(steps));
    hide FreshPanel, AfterSteps, Inv, BeforeMsg, MsgTakes;
    if MsgGoesOn(q, i) {
      MsgTakesAway(BeforeMsg(q, i));
    }
  }

  /** Nothing is on display and the plan has nothing to show, but its last entry was a message that has begun. */
  predicate NothingResets(p: Panel, minute: Minute) {
    && p.marks.plnId == 0 && p.marks.msgId == 0 && p.marks.frmId == 0
    && p.marks.entryIsMsg && p.marks.msgRuns && minute == Free
  }

  /** When the frame task has had the display, the next tick lets the message task go on at its old line exactly when it
      loads the plan in a free minute, with all three ids 0 and the last entry of the plan a message that has begun. */
  lemma WhenNothingResets(p: Panel, i: Finding)
    requires Inv(p, true) && p.FrmHas() && i.minute.Valid()
    ensures MsgGoesOn(p, i) <==> Loads(p, i).Kind() == PLN && NothingResets(Loads(p, i), i.minute)
  {
    LoadsKeep(p, i, true);
    var q := Loads(p, i);
    assert q.marks.msgId == 0 && !q.marks.newMsg && (if p.Kind() == PLN then !q.marks.entryIsMsg else q.marks.plnId == 0);
    hide Loads, RunPln, MsgTakes, Inv, DisplayIsRight;
    assert q.display.Valid();
    if q.Kind() != PLN {
      OtherLoaded(q, i);
    } else if q.marks.entryIsMsg {
      PlanLoaded(q, i);
    } else {
      PlanStays(q, i);
    }
  }

  lemma OtherLoaded(q: Panel, i: Finding)
    requires q.display.Valid() && q.Kind() != PLN && (OfMsg(q.Kind()) ==> q.display.reload)
    ensures var r := RunPln(q, i); !(r.MsgHas() && MsgTakes(r).marks.msgRuns)
  {}

  lemma PlanLoaded(q: Panel, i: Finding)
    requires q.display.Valid() && q.Kind() == PLN && q.display.reload && q.display.ready && i.minute.Valid()
    requires q.marks.plnId == 0 && q.marks.msgId == 0 && q.marks.entryIsMsg && !q.marks.newMsg
    ensures var r := RunPln(q, i); r.MsgHas() && MsgTakes(r).marks.msgRuns <==> NothingResets(q, i.minute)
  {}

  lemma PlanStays(q: Panel, i: Finding)
    requires q.display.Valid() && q.Kind() == PLN && !q.marks.entryIsMsg
    ensures var r := RunPln(q, i); !(r.MsgHas() && MsgTakes(r).marks.msgRuns)
  {
    MsgAskedFor(q.marks, q.display.reload, i.slept, i.minute);
    MsgTakesAway(RunPln(q, i));
    hide PlnTaken, MsgTakes;
  }

  lemma MsgAskedFor(m: Marks, reload: bool, slept: bool, minute: Minute)
    requires !m.entryIsMsg
    ensures var n := PlnTaken(m, reload, slept, minute); n.entryIsMsg ==> !n.msgRuns
  {}

  // ----- Such a run -----

  const None := Disp(NA, [0])

  function Started(): Panel {
    Panel(State(None, Disp(BLK, [0]), None, None, Low, true, false, false),
          Marks(0, false, 0, false, 0, false, 0, false, false, false, false, true), false, false, 0)
  }

  function Asking(): Panel {
    Panel(State(None, Disp(FRM, [0]), None, None, Low, true, false, false),
          Marks(0, false, 0, false, 0, false, 0, false, false, false, false, true), false, false, 0)
  }

  /** Message 3 of plan 1 is shown. */
  function Showing(): Panel {
    Panel(State(Disp(PLN, [0]), None, None, None, Low, false, false, false),
          Marks(1, true, 3, false, 3, false, 5, true, true, false, false, true), false, true, 0)
  }

  /** A fault has blanked the display. */
  function Blanked(): Panel {
    Panel(State(Disp(BLK, [0]), None, Disp(PLN, [0]), None, High, false, false, false),
          Marks(0, true, 3, false, 0, false, 0, true, true, true, false, true), true, false, 0)
  }

  /** Frame 0 asks for the plan, the plan for message 3; a fault comes up, and the plan's minute passes. */
  function FaultOverPlan(): seq<PanelStep> {
    [] + [Commanded(ShowFrame(0, true, false))] + [Ticked(Calm(MessageEntry(1, 3), false))] + [Ticked(Calm(Free, true))]
  }

  /** When the fault ends, the message task goes on where the fault found it, with the frame task's commands in
      between. */
  lemma MsgGoesOnAfterFault()
    ensures FreshPanel(Started()) && StepsAreValid(FaultOverPlan())
    ensures var q := AfterSteps(Started(), FaultOverPlan());
            Overtakes(q, Calm(Free, false))
  {
    assert FreshPanel(Started()) && StepsAreValid(FaultOverPlan());
    var s1, s2 := Commanded(ShowFrame(0, true, false)), Ticked(Calm(MessageEntry(1, 3), false));
    PlanIsAskedFor();
    PlanStarts();
    FaultStrikes();
    FaultPasses();
    hide OnePanelStep, Started, Asking, Showing, Blanked, Calm, Overtakes;
    OneMore(Started(), [], s1);
    OneMore(Started(), [] + [s1], s2);
    OneMore(Started(), [] + [s1] + [s2], Ticked(Calm(Free, true)));
  }

  lemma PlanIsAskedFor()
    ensures OnePanelStep(Started(), Commanded(ShowFrame(0, true, false))) == Asking()
  {
    assert None.ids[0 := 0] == [0];
  }

  lemma PlanStarts()
    ensures OnePanelStep(Asking(), Ticked(Calm(MessageEntry(1, 3), false))) == Showing()
  {
    var p, i := Asking(), Calm(MessageEntry(1, 3), false);
    assert Loads(p, i) == p.(display := Showing().display.(reload := true, ready := true)) by {
      assert None.ids[0 := 0] == [0];
    }
  }

  lemma FaultStrikes()
    ensures OnePanelStep(Showing(), Ticked(Calm(Free, true))) == Blanked()
  {
    var p, i := Showing(), Calm(Free, true);
    assert Loads(p, i) == p.(display := Blanked().display.(reload := true)) by {
      assert None.ids[0 := 0] == [0];
    }
  }

  lemma FaultPasses()
    ensures Overtakes(Blanked(), Calm(Free, false))
  {}

  // ----- What the plan's minute comes to -----

  /** The message or frame of a plan is the one of its entry. */
  predicate EntryShows(m: Marks) {
    !m.newFrm && (m.plnId != 0 ==> if m.entryIsMsg then m.msgId == m.entryId else m.frmId == m.entryId)
  }

  /** The plan asks for another. */
  predicate EntryIsNew(m: Marks) {
    if m.entryIsMsg then m.newMsg && !m.newFrm else m.newFrm
  }

  lemma EntryChecked(m: Marks, reload: bool, slept: bool, minute: Minute)
    requires EntryShows(m) && minute.Valid()
    ensures var n := PlnTaken(m, reload, slept, minute); EntryShows(n) || EntryIsNew(n)
  {}

  lemma EntryBegins(p: Panel, i: Finding)
    requires p.display.Valid()
    requires EntryShows(p.marks) || (p.Kind() == PLN && EntryIsNew(p.marks) && !p.marks.entryIsMsg)
    ensures EntryShows(RunFrm(p, i).marks)
  {}

  lemma MsgLeavesEntry(p: Panel, i: Finding)
    requires DisplayIsRight(p.display) && OwnLine(p) && MsgIsRight(p)
    requires EntryShows(p.marks) || (p.Kind() == PLN && EntryIsNew(p.marks))
    ensures var q := RunMsg(p, i);
            EntryShows(q.marks) || (q.Kind() == PLN && EntryIsNew(q.marks) && !q.marks.entryIsMsg)
  {
    if p.MsgHas() {
      MsgTakesKeeps(p);
      MsgTakenEntry(p.marks, p.display.reload, p.Kind(), p.display.cur.ids[0]);
    }
    hide DisplayIsRight, OwnLine, MsgIsRight, MsgTaken;
  }

  lemma MsgTakenEntry(m: Marks, reload: bool, kind: DispType, id: byte)
    ensures var n := MsgTaken(m, reload, kind, id);
            && n.newFrm == m.newFrm && n.entryIsMsg == m.entryIsMsg && n.entryId == m.entryId && n.frmId == m.frmId
            && (kind == PLN ==> n.plnId == m.plnId && n.msgId in {m.msgId, m.entryId} && (m.newMsg ==>
                                                                                          n.msgId == m.entryId))
  {}

  lemma TickKeepsEntry(p: Panel, i: Finding, ticked: bool)
    requires Inv(p, ticked) && EntryShows(p.marks) && i.minute.Valid()
    ensures EntryShows(PanelTick(p, i).marks)
  {
    LoadsKeep(p, i, ticked);
    var q := Loads(p, i);
    EntryChecked(q.marks, q.display.reload, i.slept, i.minute);
    PlnKeeps(q, i);
    PlnDisplay(q, i);
    MsgLeavesEntry(BeforeMsg(p, i), i);
    EntryBegins(BeforeFrm(p, i), i);
    hide Loads, PlnTaken, RunMsg, RunFrm, OwnLine, FrmIsRight, MsgIsRight, PlanIsRight, Kept, IdsAreSet, Settled,
      DisplayIsRight;
  }

  lemma {:induction false} EveryRunShowsEntry(p: Panel, steps: seq<PanelStep>)
    requires FreshPanel(p) && StepsAreValid(steps)
    ensures EntryShows(AfterSteps(p, steps).marks)
    decreases |steps|
  {
    if steps != [] {
      var before, step := steps[..|steps| - 1], steps[|steps| - 1];
      EveryRunShowsEntry(p, before);
      EveryRunKeeps(p, before);
      hide Inv, FreshPanel, PanelTick, Apply;
      if step.Ticked? {
        TickKeepsEntry(AfterSteps(p, before), step.finding, HasTicked(before));
      }
    }
  }

  /** The plan has nothing to show and nothing is on display, but its last entry was a frame. */
  predicate EntryStays(m: Marks, minute: Minute) {
    m.plnId == 0 && m.msgId == 0 && m.frmId == 0 && !m.entryIsMsg && m.entryId != 0 && minute == Free
  }

  /** The frame that is on display once the tasks have run in the plan's minute. */
  function FrameThen(m: Marks, minute: Minute, again: bool): byte {
    if EntryStays(m, minute) && (again || !m.frmRuns) then m.entryId
    else if minute.FrameEntry? then minute.id
    else 0
  }

  /** The plan has nothing to show and nothing is on display, but its last entry was a message. */
  predicate MessageStays(m: Marks, minute: Minute) {
    m.plnId == 0 && m.msgId == 0 && m.frmId == 0 && m.entryIsMsg && minute == Free
  }

  lemma MinuteMarks(m: Marks, reload: bool, slept: bool, minute: Minute, again: bool, id: byte)
    requires EntryShows(m) && (reload || !m.plnWaits || slept)
    requires if m.entryIsMsg then m.entryId != 0 else m.msgId == 0 || m.plnId == 0
    requires minute.Valid()
    ensures var n := PlnTaken(m, reload, slept, minute);
            var t := FrmTaken(n, false);
            && (n.entryIsMsg <==> minute.MessageEntry? || MessageStays(m, minute))
            && (minute.MessageEntry? ==> n.entryId == minute.id && (n.newMsg || n.msgId == minute.id))
            && (!n.entryIsMsg ==>
                  (if t.frmRuns && !again then t else FrmBegun(t, PLN, id)).frmId == FrameThen(m, minute, again))
  {}

  lemma FrmOfEntry(p: Panel, i: Finding)
    requires p.display.Valid() && p.Kind() == PLN && !p.marks.entryIsMsg && !p.display.reload
    ensures var t := FrmTaken(p.marks, false);
            RunFrm(p, i).marks == if t.frmRuns && !i.again then t else FrmBegun(t, PLN, p.display.cur.ids[0])
  {
    hide FrmTaken, FrmBegun;
  }

  lemma MsgOfEntry(p: Panel, i: Finding)
    requires p.display.Valid() && p.Kind() == PLN && p.marks.entryIsMsg && !p.display.reload
    ensures var r := RunFrm(RunMsg(p, i), i);
            !r.FrmHas() && r.marks.msgId == if p.marks.newMsg then p.marks.entryId else p.marks.msgId
  {
    var q := MsgTakes(p);
    hide MsgBody, RunFrm;
    MsgBodyOfEntry(q, i);
    NoFrm(MsgBody(q, i), i);
  }

  lemma MsgBodyOfEntry(q: Panel, i: Finding)
    requires q.display.Valid() && q.Kind() == PLN && q.marks.entryIsMsg
    ensures var r := MsgBody(q, i); !r.FrmHas() && r.marks.msgId == q.marks.msgId
  {}

  lemma NoFrm(r: Panel, i: Finding)
    requires r.display.Valid() && !r.FrmHas()
    ensures RunFrm(r, i) == r
  {}

  /** Once the tasks have run: the plan's message is on display when the minute asks for one, and the frame task has the
      display when it does not; in a free minute in which nothing is on display, a message or a frame may have stayed
      behind. */
  ghost predicate ShowsMinute(m: Marks, minute: Minute, again: bool, r: Panel) {
    && (r.FrmHas() <==> !minute.MessageEntry? && !MessageStays(m, minute))
    && (r.FrmHas() ==> r.marks.frmId == FrameThen(m, minute, again))
    && (minute.MessageEntry? ==> r.marks.msgId == minute.id)
  }

  lemma PlnLeaves(q: Panel, i: Finding)
    requires q.display.Valid() && q.Kind() == PLN && q.display.ready
    ensures var p := RunPln(q, i);
            && p.Kind() == PLN && !p.display.reload && p.display.cur == q.display.cur
            && p.marks == PlnTaken(q.marks, q.display.reload, i.slept, i.minute)
  {
    hide PlnTaken;
  }

  lemma MinuteComesTo(q: Panel, i: Finding)
    requires q.display.Valid() && q.Kind() == PLN && q.display.ready && i.minute.Valid()
    requires q.display.reload || !q.marks.plnWaits || i.slept
    requires EntryShows(q.marks) && PlanIsRight(q) && OwnLine(q)
    ensures ShowsMinute(q.marks, i.minute, i.again, RunFrm(RunMsg(RunPln(q, i), i), i))
  {
    var p := RunPln(q, i);
    PlnLeaves(q, i);
    hide RunPln;
    MinuteMarks(q.marks, q.display.reload, i.slept, i.minute, i.again, q.display.cur.ids[0]);
    hide PlnTaken, FrmTaken, FrmBegun, RunMsg, RunFrm, PlanIsRight, EntryShows, FrameThen, MessageStays, OwnLine;
    if p.marks.entryIsMsg {
      MsgOfEntry(p, i);
    } else {
      NoMsg(p, i);
      FrmOfEntry(p, i);
    }
  }

  /** In every run: when the plan task has looked at the plan's minute, what is then on display is what the minute asks
      for, with two exceptions. In a free minute in which nothing is on display, the frame task shows the last frame of
      the plan when it begins in this tick, and the last message of the plan keeps the display from it. */
  lemma {:induction false} MinuteIsShown(p: Panel, steps: seq<PanelStep>, i: Finding)
    requires FreshPanel(p) && StepsAreValid(steps) && i.minute.Valid()
    requires var q := Loads(AfterSteps(p, steps), i);
             q.Kind() == PLN && q.display.ready && (q.display.reload || !q.marks.plnWaits || i.slept)
    ensures var s := AfterSteps(p, steps);
            ShowsMinute(Loads(s, i).marks, i.minute, i.again, PanelTick(s, i))
  {
    var s := AfterSteps(p, steps);
    EveryRunKeeps(p, steps);
    EveryRunShowsEntry(p, steps);
    LoadsKeep(s, i, HasTicked(steps));
    hide Loads, Inv, FreshPanel, AfterSteps, DisplayIsRight, MsgIsRight, PlanIsRight, OwnLine;
    MinuteComesTo(Loads(s, i), i);
  }

  /** Frame 7 of plan 1 is shown. */
  function ShowingFrame(): Panel {
    Panel(State(Disp(PLN, [0]), None, None, None, Low, true, false, false),
          Marks(1, false, 7, false, 0, false, 7, true, false, true, false, true), true, false, 7)
  }

  /** A fault has blanked the display. */
  function BlankedFrame(): Panel {
    Panel(State(Disp(BLK, [0]), None, Disp(PLN, [0]), None, High, true, false, false),
          Marks(0, false, 7, false, 0, false, 0, true, false, true, false, true), true, false, 0)
  }

  function FaultOverFrame(): seq<PanelStep> {
    [] + [Commanded(ShowFrame(0, true, false))] + [Ticked(Calm(FrameEntry(1, 7), false))] + [Ticked(Calm(Free, true))]
  }

  lemma FaultComesUp()
    ensures FreshPanel(Started()) && StepsAreValid(FaultOverFrame())
    ensures AfterSteps(Started(), FaultOverFrame()) == BlankedFrame()
  {
    assert FreshPanel(Started()) && StepsAreValid(FaultOverFrame());
    var s1, s2 := Commanded(ShowFrame(0, true, false)), Ticked(Calm(FrameEntry(1, 7), false));
    PlanIsAskedFor();
    FrameStarts();
    FaultStrikesFrame();
    hide OnePanelStep, Started, Asking, ShowingFrame, BlankedFrame, Calm;
    OneMore(Started(), [], s1);
    OneMore(Started(), [] + [s1], s2);
    OneMore(Started(), [] + [s1] + [s2], Ticked(Calm(Free, true)));
  }

  /** Such a run: the plan's minute passes during a fault, and when the frame task begins again as the fault ends, it
      shows the frame of that minute. */
  lemma OldEntryIsShown()
    ensures FreshPanel(Started()) && StepsAreValid(FaultOverFrame())
    ensures PanelTick(AfterSteps(Started(), FaultOverFrame()), Calm(Free, false).(again := true)).marks.frmId == 7
  {
    FaultComesUp();
    FaultPassesFrame();
    hide PanelTick, Started, BlankedFrame, Calm, FaultOverFrame, AfterSteps;
  }

  lemma FrameStarts()
    ensures OnePanelStep(Asking(), Ticked(Calm(FrameEntry(1, 7), false))) == ShowingFrame()
  {
    var p, i := Asking(), Calm(FrameEntry(1, 7), false);
    assert Loads(p, i) == p.(display := ShowingFrame().display.(reload := true, ready := true)) by {
      assert None.ids[0 := 0] == [0];
    }
  }

  lemma FaultStrikesFrame()
    ensures OnePanelStep(ShowingFrame(), Ticked(Calm(Free, true))) == BlankedFrame()
  {
    var p, i := ShowingFrame(), Calm(Free, true);
    assert Loads(p, i) == p.(display := BlankedFrame().display.(reload := true, ready := true)) by {
      assert None.ids[0 := 0] == [0];
    }
  }

  lemma FaultPassesFrame()
    ensures PanelTick(BlankedFrame(), Calm(Free, false).(again := true)).marks.frmId == 7
  {
    var p, i := BlankedFrame(), Calm(Free, false).(again := true);
    assert Loads(p, i) == p.(display := ShowingFrame().display.(reload := true)) by {
      assert None.ids[0 := 0] == [0];
    }
    MinuteComesTo(Loads(p, i), i);
    hide Loads, RunPln, RunMsg, RunFrm;
  }

  // ----- A reset that reaches the frame task -----

  /** In every run: when the frame task goes on and `onDispFrmId` is not what it began with, it shows nothing, in a
      fault, and the id is that of a system reset. */
  lemma {:induction false} OnlyResetsMislead(p: Panel, steps: seq<PanelStep>, i: Finding)
    requires FreshPanel(p) && StepsAreValid(steps) && i.minute.Valid()
    requires Misleads(AfterSteps(p, steps), i)
    ensures var q := BeforeFrm(AfterSteps(p, steps), i);
            q.display.fault == High && q.Kind() == BLK && q.begun == 0 && q.marks.frmId == 1
  {
    var s := AfterSteps(p, steps);
    EveryRunKeeps(p, steps);
    EveryRunKeepsId(p, steps);
    TickKeepsId(s, i, HasTicked(steps));
    OneTick(s, i, HasTicked(steps));
    hide Inv, FreshPanel, AfterSteps, BeforeFrm, IdIsRight, FrmIsRight, IsMisled, PanelTick, IdKept, OwnLine,
      MsgIsRight;
    OnlyBlankIsMisled(BeforeFrm(s, i));
  }

  /** A system reset from level 1 on misleads the frame task in the next tick exactly when it arrives in a fault that is
      still there, and the device is not switched: everywhere else the frame task begins anew or has not the display. */
  lemma WhenResetMisleads(p: Panel, i: Finding, ticked: bool)
    requires Inv(p, ticked) && IdKept(p) && i.minute.Valid()
    ensures Misleads(OnePanelStep(p, Level1Reset), i) <==>
            p.display.fault == High && i.base.fatal && i.device == p.marks.on
  {
    var r := OnePanelStep(p, Level1Reset);
    ResetKeeps(p, ticked);
    CommandKeepsId(p, Level1Reset);
    TickKeepsId(r, i, ticked);
    OneTick(r, i, ticked);
    assert r.display.fault == p.display.fault && r.Kind() == p.Kind() && r.marks.on == p.marks.on;
    FaultIsBlank(p, ticked);
    if p.display.fault == High && i.base.fatal {
      FaultGoesOn(r, i, ticked);
    } else if Misleads(r, i) {
      OnlyBlankIsMisled(BeforeFrm(r, i));
      FaultsLoadAnew(r, i, ticked);
    }
  }

  lemma FaultIsBlank(p: Panel, ticked: bool)
    requires Inv(p, ticked) && IdKept(p)
    ensures p.display.fault == Low || p.display.fault == High
    ensures p.display.fault == High ==> p.Kind() == BLK && p.FrmHas() && p.begun == 0
    ensures p.display.fault == High ==> p.marks.frmRuns && !p.display.reload && !p.marks.newFrm
  {}

  /** A fault that stays leaves the display alone, and the frame task goes on unless the device is switched. */
  lemma FaultGoesOn(r: Panel, i: Finding, ticked: bool)
    requires Inv(r, ticked) && IdKept(r) && r.display.fault == High && i.base.fatal
    ensures BeforeFrm(r, i) == Loads(r, i) && Loads(r, i).display == r.display
    ensures Loads(r, i).marks == if i.device == r.marks.on then r.marks
                                 else r.marks.(msgRuns := false, frmRuns := false, on := i.device)
    ensures Loads(r, i).begun == r.begun
  {
    FaultIsBlank(r, ticked);
    FaultsTake(r.display, true);
    hide Faults, Load, Inv;
  }

  /** A fault that comes up blanks the display anew. */
  lemma FaultsLoadAnew(r: Panel, i: Finding, ticked: bool)
    requires Inv(r, ticked) && !(r.display.fault == High && i.base.fatal)
    requires BeforeFrm(r, i).display.fault == High
    ensures BeforeFrm(r, i).display.reload && BeforeFrm(r, i).Kind() == BLK
  {
    FaultsTake(r.display, i.base.fatal);
    LoadingFault(Faults(r.display, i.base.fatal), i.base);
    var q := Loads(r, i);
    hide Faults, Loading, Inv;
    TasksLeaveFault(q, i);
  }

  lemma LoadingFault(s: State, i: Input)
    requires s.Valid() && (s.fault == Low || s.fault == High)
    ensures Loading(s, i).fault == s.fault && (s.fault == High ==> Loading(s, i) == s)
  {
    hide Load;
    LoadKeepsFault(s);
    LoadKeepsFault(s.(ready := true, reload := false));
    LoadKeepsFault(Backup(s.(ready := true, reload := false, timed := false)));
  }

  lemma LoadKeepsFault(s: State)
    requires s.Valid()
    ensures Load(s).fault == s.fault
  {}

  lemma TasksLeaveFault(q: Panel, i: Finding)
    requires q.display.Valid()
    ensures RunMsg(RunPln(q, i), i).display.fault == q.display.fault
    ensures q.Kind() == BLK ==> RunMsg(RunPln(q, i), i) == q
  {
    hide PlnTaken, MsgTaken;
  }

  /** Until the frame task begins again. */
  lemma MisledUntilItBegins(p: Panel, i: Finding)
    requires p.display.Valid() && BeforeFrm(p, i).FrmHas()
    requires FrmIsRight(BeforeFrm(p, i))
    ensures IdChanged(PanelTick(p, i)) <==> Misleads(p, i) && !i.again
  {
    hide BeforeFrm, FrmBegun;
  }

  /** Such a run: a fault blanks the display, and a reset of level 1 arrives. */
  lemma ResetInFault()
    ensures FreshPanel(Started()) && StepsAreValid(FaultOverFrame() + [Level1Reset])
    ensures Misleads(AfterSteps(Started(), FaultOverFrame() + [Level1Reset]), Calm(Free, true))
  {
    hide Inv, IdKept, OnePanelStep, AfterSteps, Misleads, Started, FaultOverFrame, BlankedFrame, Calm, FreshPanel;
    FaultComesUp();
    FaultIsThere();
    EveryRunKeeps(Started(), FaultOverFrame());
    EveryRunKeepsId(Started(), FaultOverFrame());
    OneMore(Started(), FaultOverFrame(), Level1Reset);
    WhenResetMisleads(BlankedFrame(), Calm(Free, true), HasTicked(FaultOverFrame()));
  }

  lemma FaultIsThere()
    ensures Started().display.Valid()
    ensures BlankedFrame().display.Valid() && BlankedFrame().display.fault == High && BlankedFrame().marks.on
    ensures var i := Calm(Free, true); i.base.fatal && i.device && i.minute.Valid()
  {}

  // ----- Overlays left behind -----

  /** The frame task begins while `msgOverlay` is still set: its frame is composed over what a message has collected. */
  predicate FrmBeginsOverlaid(p: Panel, i: Finding)
    requires p.display.Valid()
  {
    var q := BeforeFrm(p, i);
    q.FrmHas() && !FrmTakes(q).marks.frmRuns && FrmTakes(q).marks.overlay
  }

  /** While a message is at its own line, that happens in the next tick exactly when the plan moves on from it in the
      course of time: only a display that is loaded clears the overlays. */
  lemma WhenOverlaysStay(p: Panel, i: Finding)
    requires Inv(p, true) && p.MsgHas() && p.marks.msgRuns && !p.frmSince && i.minute.Valid()
    ensures var q := Loads(p, i);
            FrmBeginsOverlaid(p, i) <==>
            && q.Kind() == PLN && q.display.ready && !q.display.reload
            && (q.marks.plnWaits ==> i.slept) && q.marks.overlay && !i.minute.MessageEntry?
  {
    LoadsKeep(p, i, true);
    var q := Loads(p, i);
    hide Loads, Inv, DisplayIsRight, RunMsg, RunPln;
    assert q.display.Valid() && q.marks.msgId != 0 && (q.Kind() == PLN && p.Kind() == PLN ==> q.marks.entryIsMsg);
    if q.Kind() == PLN {
      PlanMovesOn(q, i);
    } else {
      OthersClear(q, i);
    }
  }

  lemma OthersClear(q: Panel, i: Finding)
    requires q.display.Valid() && q.Kind() != PLN && (OfFrm(q.Kind()) ==> q.display.reload)
    ensures var s := RunMsg(RunPln(q, i), i); !(s.FrmHas() && FrmTakes(s).marks.overlay)
  {}

  lemma PlanMovesOn(q: Panel, i: Finding)
    requires q.display.Valid() && q.Kind() == PLN && q.marks.msgId != 0 && !q.marks.newMsg
    requires q.marks.entryIsMsg || (q.display.reload && q.display.ready)
    ensures var s := RunMsg(RunPln(q, i), i);
            s.FrmHas() && !FrmTakes(s).marks.frmRuns && FrmTakes(s).marks.overlay <==>
            && q.display.ready && !q.display.reload
            && (q.marks.plnWaits ==> i.slept) && q.marks.overlay && !i.minute.MessageEntry?
  {
    hide RunMsg, PlnTaken, FrmTaken;
    var r := RunPln(q, i);
    MovesOn(q.marks, q.display.reload, i.slept, i.minute);
    if r.MsgHas() {
      MsgKeepsReload(r, i);
    } else {
      NoMsg(r, i);
    }
  }

  lemma MovesOn(m: Marks, reload: bool, slept: bool, minute: Minute)
    requires m.msgId != 0 && !m.newMsg && (m.entryIsMsg || reload)
    ensures var n := PlnTaken(m, reload, slept, minute);
            !n.entryIsMsg && !FrmTaken(n, false).frmRuns && FrmTaken(n, false).overlay <==>
            !reload && (m.plnWaits ==> slept) && m.overlay && !minute.MessageEntry?
  {}

  /** A message task that gives up has its successor reload. */
  lemma MsgKeepsReload(r: Panel, i: Finding)
    requires r.display.Valid() && r.MsgHas()
    ensures RunMsg(r, i).FrmHas() ==> !FrmTakes(RunMsg(r, i)).marks.overlay
  {}
}
