/** How the display goes from one coroutine to the other (src/sign/Group.cpp, `TaskPln` and the heads of `TaskMsg` and
    `TaskFrm`): the plan task, the message task and the frame task run one after the other in every tick of
    `NormalMode`, and what each of them does depends on flags that another may already have taken. */
module HandOver {
  import opened Bytes
  import opened DisplayArbiter
  import opened Edges

  // ----- The state -----

  /** What the plan asks for in a minute. A plan has an id, and so has a message that a plan names. */
  datatype Minute = Free | FrameEntry(plan: byte, id: byte) | MessageEntry(plan: byte, id: byte)
  {
    ghost predicate Valid() {
      Free? || (plan != 0 && (MessageEntry? ==> id != 0))
    }
  }

  /** `onDispPlnId`, `onDispPlnEntryType` and `Id`, `onDispNewMsg`, `onDispMsgId`, `onDispNewFrm` and `onDispFrmId`;
      whether the plan task waits for its timer; whether the other two are past their first line; whether `msgOverlay`
      is set; and the device switch. */
  datatype Marks = Marks(plnId: byte, entryIsMsg: bool, entryId: byte, newMsg: bool, msgId: byte, newFrm: bool,
                         frmId: byte, plnWaits: bool, msgRuns: bool, frmRuns: bool, overlay: bool, on: bool)

  /** The kinds of display that only the message task shows, and those that only the frame task shows. */
  predicate OfMsg(kind: DispType) { kind == MSG || kind == FSW || kind == EXT }

  predicate OfFrm(kind: DispType) { kind == FRM || kind == BLK || kind == ATF }

  /** `frmSince`: the frame task has run since the message task last left its first line; `msgSince`: the message task has
      run since the frame task last ran. `begun`: what `onDispFrmId` was when the frame task last began. */
  datatype Panel = Panel(display: State, marks: Marks, frmSince: bool, msgSince: bool, begun: byte)
  {
    function Kind(): DispType { display.cur.kind }

    predicate MsgHas() {
      OfMsg(Kind()) || (Kind() == PLN && marks.entryIsMsg)
    }

    predicate FrmHas() {
      OfFrm(Kind()) || (Kind() == PLN && !marks.entryIsMsg)
    }
  }

  /** What a tick finds: what `DisplayArbiter` needs; the device switch as set; the plan's minute, and whether the plan
      task has slept enough; whether `msgOverlay` is set and which frame is on display once the message task has run;
      and whether the frame task begins its loop again. */
  datatype Finding = Finding(base: Input, device: bool, minute: Minute, slept: bool, overlay: bool, frame: byte,
                             again: bool)

  // ----- A tick -----

  /** Faults, the device switch, and loading. */
  function Loads(p: Panel, i: Finding): (r: Panel)
    requires p.display.Valid()
    ensures r.display.Valid()
  {
    var d := Loading(Faults(p.display, i.base.fatal), i.base);
    var switches := (d.fault.IsLow() ==> d.ready) && i.device != p.marks.on;
    p.(display := d,
       marks := if switches then p.marks.(msgRuns := false, frmRuns := false, on := i.device) else p.marks)
  }

  /** What the plan task makes of a minute. */
  function Checked(m: Marks, minute: Minute): Marks {
    match minute
    case Free =>
      if m.plnId == 0 && m.msgId == 0 && m.frmId == 0 then m
      else m.(msgRuns := false, frmRuns := false, plnId := 0, newMsg := false, msgId := 0, newFrm := true,
              entryIsMsg := false, entryId := 0)
    case FrameEntry(plan, id) =>
      if m.plnId == plan && m.msgId == 0 && m.frmId == id then m
      else m.(msgRuns := false, frmRuns := false, plnId := plan, newMsg := false, msgId := 0, newFrm := true,
              entryIsMsg := false, entryId := id)
    case MessageEntry(plan, id) =>
      if m.plnId == plan && m.msgId == id then m
      else m.(msgRuns := false, frmRuns := false, plnId := plan, newMsg := true, entryIsMsg := true, entryId := id)
  }

  function PlnTaken(m: Marks, reload: bool, slept: bool, minute: Minute): Marks {
    var n := if reload then m.(plnWaits := false, overlay := false) else m;
    if n.plnWaits && !slept then n else Checked(n, minute).(plnWaits := true)
  }

  function RunPln(p: Panel, i: Finding): (r: Panel)
    requires p.display.Valid()
    ensures r.display.Valid()
  {
    if p.Kind() != PLN || !p.display.ready then p
    else
      p.(display := p.display.(reload := false), marks := PlnTaken(p.marks, p.display.reload, i.slept, i.minute))
  }

  /** The head of `TaskMsg`. */
  function MsgTaken(m: Marks, reload: bool, kind: DispType, id: byte): Marks {
    var n := if reload then m.(newMsg := true, overlay := false) else m;
    if !n.newMsg then n
    else if kind == PLN then n.(newMsg := false, msgRuns := false, msgId := n.entryId)
    else n.(newMsg := false, msgRuns := false, plnId := 0, msgId := id)
  }

  function MsgTakes(p: Panel): (r: Panel)
    requires p.display.Valid()
    ensures r.display.Valid()
  {
    p.(display := p.display.(reload := false),
       marks := MsgTaken(p.marks, p.display.reload, p.Kind(), p.display.cur.ids[0]))
  }

  /** There is no message 0. */
  predicate Undefined(p: Panel, i: Finding) {
    p.marks.msgId == 0 || i.base.undefinedMsg
  }

  /** The message task gives up when its message is not defined, unless it was asked for by the switch or an external
      input. */
  predicate GivesUp(p: Panel, i: Finding) {
    !p.marks.msgRuns && Undefined(p, i) && p.Kind() != FSW && p.Kind() != EXT
  }

  /** The group is to show the plan instead. */
  function GivenUp(q: Panel): (r: Panel)
    requires q.display.Valid()
    ensures r.display.Valid()
  {
    q.(display := q.display.(cur := q.display.cur.Become(PLN, 0), reload := true))
  }

  /** The message task has run, from its first line or from another. */
  function MsgRan(q: Panel, begins: bool, ready: bool, frame: byte, overlay: bool): (r: Panel)
    requires q.display.Valid()
    ensures r.display.Valid()
  {
    q.(display := q.display.(ready := ready), marks := q.marks.(msgRuns := true, frmId := frame, overlay := overlay),
       msgSince := true, frmSince := q.frmSince && !begins)
  }

  /** `TaskMsg` behind its head. */
  function MsgBody(q: Panel, i: Finding): (r: Panel)
    requires q.display.Valid()
    ensures r.display.Valid()
  {
    if GivesUp(q, i) then GivenUp(q) else MsgRan(q, !q.marks.msgRuns, i.base.ready, i.frame, i.overlay)
  }

  function RunMsg(p: Panel, i: Finding): (r: Panel)
    requires p.display.Valid()
    ensures r.display.Valid()
  {
    if p.MsgHas() then MsgBody(MsgTakes(p), i) else p
  }

  /** The head of `TaskFrm`. */
  function FrmTaken(m: Marks, reload: bool): Marks {
    var n := if reload then m.(newFrm := true, overlay := false) else m;
    if n.newFrm then n.(newFrm := false, frmRuns := false, msgId := 0) else n
  }

  function FrmTakes(p: Panel): (r: Panel)
    requires p.display.Valid()
    ensures r.display.Valid()
  {
    p.(display := p.display.(reload := false), marks := FrmTaken(p.marks, p.display.reload))
  }

  /** The first step of `TaskFrm`: what is to be shown. */
  function FrmBegun(m: Marks, kind: DispType, id: byte): Marks {
    if kind == PLN then m.(frmRuns := true, frmId := m.entryId)
    else m.(frmRuns := true, plnId := 0, frmId := if kind == ATF then 1 else if kind == FRM then id else 0)
  }

  /** `TaskFrm` behind its head. */
  function FrmBody(q: Panel, i: Finding): (r: Panel)
    requires q.display.Valid()
    ensures r.display.Valid()
  {
    if q.marks.frmRuns && !i.again then q.(frmSince := true, msgSince := false)
    else
      var begun := FrmBegun(q.marks, q.Kind(), q.display.cur.ids[0]);
      q.(marks := begun, frmSince := true, msgSince := false, begun := begun.frmId)
  }

  function RunFrm(p: Panel, i: Finding): (r: Panel)
    requires p.display.Valid()
    ensures r.display.Valid()
  {
    if p.FrmHas() then FrmBody(FrmTakes(p), i) else p
  }

  function BeforeMsg(p: Panel, i: Finding): (r: Panel)
    requires p.display.Valid()
    ensures r.display.Valid()
  {
    RunPln(Loads(p, i), i)
  }

  function BeforeFrm(p: Panel, i: Finding): (r: Panel)
    requires p.display.Valid()
    ensures r.display.Valid()
  {
    RunMsg(BeforeMsg(p, i), i)
  }

  function PanelTick(p: Panel, i: Finding): (r: Panel)
    requires p.display.Valid()
    ensures r.display.Valid()
  {
    RunFrm(BeforeFrm(p, i), i)
  }

  /** Between ticks: commands and inputs, of which a system reset from level 1 on also makes the frame on display look
      like another. */
  datatype PanelStep = Commanded(command: Command) | Level1Reset | Ticked(finding: Finding)

  function OnePanelStep(p: Panel, step: PanelStep): (r: Panel)
    requires p.display.Valid()
    ensures r.display.Valid()
  {
    match step
    case Commanded(c) => p.(display := Apply(p.display, c))
    case Level1Reset => p.(display := Apply(p.display, Reset), marks := p.marks.(plnId := 0, frmId := 1))
    case Ticked(i) => PanelTick(p, i)
  }

  function AfterSteps(p: Panel, steps: seq<PanelStep>): (r: Panel)
    requires p.display.Valid()
    ensures r.display.Valid()
    decreases |steps|
  {
    if steps == [] then p else OnePanelStep(AfterSteps(p, steps[..|steps| - 1]), steps[|steps| - 1])
  }

  // ----- What the tasks note, case by case -----

  /** While the minute asks for what is on display nothing is noted. Otherwise both other tasks begin with what it asks
      for; only for a message the frame on display and the message begun last stay noted. */
  lemma PlanTakesUp(m: Marks, minute: Minute)
    ensures var n := Checked(m, minute);
            match minute
            case Free =>
              n == if m.plnId == 0 && m.msgId == 0 && m.frmId == 0 then m
                   else Marks(0, false, 0, false, 0, true, m.frmId, m.plnWaits, false, false, m.overlay, m.on)
            case FrameEntry(plan, id) =>
              n == if m.plnId == plan && m.msgId == 0 && m.frmId == id then m
                   else Marks(plan, false, id, false, 0, true, m.frmId, m.plnWaits, false, false, m.overlay, m.on)
            case MessageEntry(plan, id) =>
              n == if m.plnId == plan && m.msgId == id then m
                   else Marks(plan, true, id, true, m.msgId, m.newFrm, m.frmId, m.plnWaits, false, false, m.overlay, m.on)
  {}

  /** The plan task looks at the minute when it has slept enough, and at once when the plan has just been loaded. */
  lemma PlanWaits(m: Marks, reload: bool, slept: bool, minute: Minute)
    ensures var n := PlnTaken(m, reload, slept, minute);
            && n.plnWaits && n.overlay == (m.overlay && !reload)
            && (m.plnWaits && !slept && !reload ==> n == m)
            && (!m.plnWaits || slept || reload ==> n.(overlay := m.overlay) == Checked(m, minute).(plnWaits := true))
  {}

  /** The message task begins when the display has been loaded or the plan has asked for a message, with the message of
      the plan, or with the one asked for in place of any plan. */
  lemma MessageIsTaken(m: Marks, reload: bool, kind: DispType, id: byte)
    ensures var n := MsgTaken(m, reload, kind, id);
            if reload || m.newMsg then
              n == Marks(if kind == PLN then m.plnId else 0, m.entryIsMsg, m.entryId, false,
                         if kind == PLN then m.entryId else id, m.newFrm, m.frmId, m.plnWaits, false, m.frmRuns,
                         m.overlay && !reload, m.on)
            else n == m
  {}

  /** The frame task begins when the display has been loaded or the plan has asked for a frame, and no message is on
      display then. */
  lemma FrameIsTaken(m: Marks, reload: bool)
    ensures var n := FrmTaken(m, reload);
            if reload || m.newFrm then
              n == Marks(m.plnId, m.entryIsMsg, m.entryId, m.newMsg, 0, false, m.frmId, m.plnWaits, m.msgRuns, false,
                         m.overlay && !reload, m.on)
            else n == m
  {}

  /** Its first step notes what it shows: the frame of the plan, or in place of any plan the frame asked for, 1 for atomic
      frames, 0 for nothing. */
  lemma FrameIsNoted(m: Marks, kind: DispType, id: byte)
    ensures var n := FrmBegun(m, kind, id);
            && n == Marks(n.plnId, m.entryIsMsg, m.entryId, m.newMsg, m.msgId, m.newFrm, n.frmId, m.plnWaits,
                          m.msgRuns, true,
                          m.overlay, m.on)
            && (kind == PLN ==> n.plnId == m.plnId && n.frmId == m.entryId)
            && (kind != PLN ==> n.plnId == 0)
            && (kind == FRM ==> n.frmId == id) && (kind == ATF ==> n.frmId == 1) && (kind == BLK ==> n.frmId == 0)
  {}

  /** The message task notes which frame it has put on display, and whether overlays are composed; that it is past its
      first line; and that the group may, or may not, load. A group that gives up a message loads the plan. */
  lemma MessageIsNoted(q: Panel, begins: bool, ready: bool, frame: byte, overlay: bool)
    requires q.display.Valid()
    ensures var r := MsgRan(q, begins, ready, frame, overlay);
            && r.display == q.display.(ready := ready)
            && r.marks == q.marks.(msgRuns := true, frmId := frame, overlay := overlay)
    ensures var r := GivenUp(q);
            && r.marks == q.marks && r.display == q.display.(cur := r.display.cur, reload := true)
            && r.Kind() == PLN && r.display.cur.ids == q.display.cur.ids[0 := 0]
  {}

  // ----- What holds between any two steps -----

  ghost predicate HasId(d: Disp) {
    d.kind == FSW || d.kind == EXT ==> |d.ids| > 0 && d.ids[0] != 0
  }

  ghost predicate IdsAreSet(s: State) {
    HasId(s.cur) && HasId(s.next) && HasId(s.bak) && HasId(s.ext)
  }

  /** The frame task is at its own line whenever it has the display; the message task is at a line that the frame task has
      overtaken exactly when `onDispMsgId` is 0. */
  ghost predicate Kept(p: Panel) {
    && (p.marks.entryIsMsg ==> p.marks.entryId != 0)
    && !p.marks.newMsg
    && (p.FrmHas() ==> !p.msgSince && p.marks.msgId == 0)
    && (OfFrm(p.Kind()) ==> p.marks.plnId == 0)
    && (OfMsg(p.Kind()) ==> p.marks.plnId == 0 && p.marks.msgId != 0)
    && (p.marks.msgRuns ==> (p.frmSince <==> p.marks.msgId == 0))
  }

  ghost predicate Inv(p: Panel, ticked: bool) {
    && Sound(p.display, ticked) && IdsAreSet(p.display)
    && Kept(p) && (!ticked ==> !p.msgSince && p.marks.msgId == 0)
  }

  ghost predicate FreshPanel(p: Panel) {
    && Fresh(p.display)
    && p.marks == Marks(0, false, 0, false, 0, false, 0, false, false, false, false, p.marks.on)
    && !p.frmSince && !p.msgSince && p.begun == 0
  }

  lemma FaultsKeepIds(s: State, fatal: bool)
    requires s.Valid() && IdsAreSet(s)
    ensures IdsAreSet(Faults(s, fatal))
  {}

  lemma LoadKeepsIds(s: State)
    requires s.Valid() && IdsAreSet(s)
    ensures IdsAreSet(Load(s)) && Load(s).ready == s.ready
    ensures Load(s).cur.kind != s.cur.kind ==> Load(s).reload
  {}

  lemma LoadingKeepsIds(s: State, i: Input)
    requires s.Valid() && IdsAreSet(s)
    ensures IdsAreSet(Loading(s, i))
    ensures Loading(s, i).cur.kind != s.cur.kind ==> Loading(s, i).reload && Loading(s, i).ready
  {
    hide Load;
    var ready := s.ready || (s.ext.kind == EXT && 3 <= s.ext.ids[0] <= 6 && i.emergency);
    LoadKeepsIds(s.(ready := ready, reload := false));
    LoadKeepsIds(Backup(s.(ready := ready, reload := false, timed := false)));
  }

  // ----- One tick -----

  /** What `DisplayArbiter` keeps of the display. */
  ghost predicate DisplayIsRight(d: State) {
    && d.Valid() && (d.fault == Low || d.fault == High) && (d.fault == High ==> d.cur.kind == BLK)
    && Settled(d.cur) && IdsAreSet(d)
  }

  lemma FlagsDoNotMatter(d: State, reload: bool, ready: bool)
    requires DisplayIsRight(d)
    ensures DisplayIsRight(d.(reload := reload, ready := ready))
  {}

  lemma GivingUpIsRight(d: State)
    requires DisplayIsRight(d) && (d.cur.kind == MSG || d.cur.kind == PLN)
    ensures DisplayIsRight(d.(cur := d.cur.Become(PLN, 0), reload := true))
  {}

  lemma MessagesHaveIds(d: State)
    requires DisplayIsRight(d) && OfMsg(d.cur.kind)
    ensures d.cur.ids[0] != 0
  {}

  ghost predicate OwnLine(p: Panel) {
    && (p.marks.entryIsMsg ==> p.marks.entryId != 0)
    && (p.marks.msgRuns ==> (p.frmSince <==> p.marks.msgId == 0))
  }

  /** Before the tasks run: what `Kept` says still holds, unless something has been loaded. */
  ghost predicate FrmIsRight(p: Panel) {
    && (p.FrmHas() ==> p.display.reload || p.marks.newFrm || (!p.msgSince && p.marks.msgId == 0))
    && (OfFrm(p.Kind()) ==> p.display.reload || p.marks.plnId == 0)
  }

  ghost predicate MsgIsRight(p: Panel) {
    OfMsg(p.Kind()) ==> p.display.reload || (p.marks.plnId == 0 && p.marks.msgId != 0)
  }

  /** A plan without a message entry was reached from the frame task or from a message of its own. */
  ghost predicate PlanIsRight(p: Panel) {
    p.Kind() == PLN && !p.marks.entryIsMsg ==>
      (!p.msgSince && p.marks.msgId == 0) || (p.marks.plnId == 0 && p.marks.msgId != 0)
  }

  lemma LoadsDisplay(s: State, i: Input, ticked: bool)
    requires Sound(s, ticked) && IdsAreSet(s)
    ensures var d := Loading(Faults(s, i.fatal), i);
            DisplayIsRight(d) && (d.cur.kind != s.cur.kind ==> d.reload && (d.cur.kind == PLN ==> d.ready))
  {
    hide Loading, Load;
    var f := Faults(s, i.fatal);
    FaultsKeepIds(s, i.fatal);
    FaultsLoad(s, i.fatal);
    LoadingKeepsIds(f, i);
    LoadingSettles(f, i);
  }

  lemma LoadsKeep(p: Panel, i: Finding, ticked: bool)
    requires Inv(p, ticked)
    ensures var q := Loads(p, i);
            && DisplayIsRight(q.display) && OwnLine(q) && FrmIsRight(q) && MsgIsRight(q) && PlanIsRight(q)
            && (q.Kind() != p.Kind() ==> q.display.reload && (q.Kind() == PLN ==> q.display.ready))
            && q.msgSince == p.msgSince && q.frmSince == p.frmSince
            && !q.marks.newMsg && q.marks == p.marks.(msgRuns := q.marks.msgRuns, frmRuns := q.marks.frmRuns,
                                                      on := q.marks.on)
            && (q.marks.msgRuns ==> p.marks.msgRuns)
  {
    LoadsDisplay(p.display, i.base, ticked);
    hide Loading, Faults, DisplayIsRight, IdsAreSet, Settled;
  }

  lemma FaultsLoad(s: State, fatal: bool)
    requires s.Valid() && s.fault in {Low, High}
    ensures Faults(s, fatal).cur.kind in {s.cur.kind, BLK, NA}
    ensures Faults(s, fatal).cur.kind == BLK && s.cur.kind != BLK ==>
              Faults(s, fatal).reload && Faults(s, fatal).fault == High
  {}

  lemma PlnKeeps(p: Panel, i: Finding)
    requires p.display.Valid() && i.minute.Valid()
    requires OwnLine(p) && FrmIsRight(p) && MsgIsRight(p) && PlanIsRight(p)
    requires !p.marks.newMsg
    ensures var q := RunPln(p, i); OwnLine(q) && FrmIsRight(q) && MsgIsRight(q) && (q.marks.newMsg ==> q.MsgHas())
  {
    if p.Kind() == PLN && p.display.ready {
      PlnMarks(p.marks, p.frmSince, p.msgSince, p.display.reload, i.slept, i.minute);
      hide PlnTaken;
    }
  }

  lemma PlnTakesLines(m: Marks, reload: bool, slept: bool, minute: Minute)
    ensures var n := PlnTaken(m, reload, slept, minute);
            && n.overlay == (m.overlay && !reload) && n.on == m.on
            && (n.msgRuns ==> m.msgRuns) && (n.frmRuns ==> m.frmRuns)
  {}

  lemma FrmTakesLines(m: Marks, reload: bool)
    ensures var n := FrmTaken(m, reload);
            && n.overlay == (m.overlay && !reload) && n.on == m.on
            && (n.frmRuns ==> m.frmRuns) && n.msgRuns == m.msgRuns
  {}

  /** What a task finds plays no part in what runs before it. */
  lemma BeforeMsgAgrees(p: Panel, i: Finding, overlay: bool, again: bool)
    requires p.display.Valid()
    ensures BeforeMsg(p, i.(overlay := overlay, again := again)) == BeforeMsg(p, i)
  {
    hide Faults, DisplayArbiter.Loading, PlnTaken;
    assert Loads(p, i.(overlay := overlay, again := again)) == Loads(p, i);
  }

  lemma MsgAgrees(q: Panel, i: Finding, again: bool)
    requires q.display.Valid()
    ensures RunMsg(q, i.(again := again)) == RunMsg(q, i)
  {
    hide MsgTakes, MsgRan, GivenUp;
  }

  lemma FrmAgrees(q: Panel, i: Finding, overlay: bool)
    requires q.display.Valid()
    ensures RunFrm(q, i.(overlay := overlay)) == RunFrm(q, i)
  {
    hide FrmTakes, FrmBegun;
  }

  lemma PlnMarks(m: Marks, frmSince: bool, msgSince: bool, reload: bool, slept: bool, minute: Minute)
    requires minute.Valid() && !m.newMsg && (m.entryIsMsg ==> m.entryId != 0)
    requires m.msgRuns ==> (frmSince <==> m.msgId == 0)
    requires !m.entryIsMsg ==> (!msgSince && m.msgId == 0) || (m.plnId == 0 && m.msgId != 0)
    requires !m.entryIsMsg ==> reload || m.newFrm || (!msgSince && m.msgId == 0)
    ensures var n := PlnTaken(m, reload, slept, minute);
            && (n.entryIsMsg ==> n.entryId != 0)
            && (n.msgRuns ==> (frmSince <==> n.msgId == 0))
            && (!n.entryIsMsg ==> n.newFrm || (!msgSince && n.msgId == 0))
            && (n.newMsg ==> n.entryIsMsg)
  {}

  lemma PlnDisplay(p: Panel, i: Finding)
    requires DisplayIsRight(p.display)
    ensures DisplayIsRight(RunPln(p, i).display)
  {
    FlagsDoNotMatter(p.display, false, p.display.ready);
  }

  /** The message task is at its own line, or at one the frame task has overtaken, or at its first. */
  ghost predicate MsgHasTaken(p: Panel) {
    && DisplayIsRight(p.display) && OwnLine(p) && !p.display.reload && p.MsgHas() && !p.marks.newMsg
    && (OfMsg(p.Kind()) ==> p.marks.plnId == 0 && p.marks.msgId != 0)
  }

  lemma MsgTakesKeeps(p: Panel)
    requires DisplayIsRight(p.display) && OwnLine(p) && MsgIsRight(p) && p.MsgHas()
    ensures MsgHasTaken(MsgTakes(p)) && MsgTakes(p).Kind() == p.Kind()
    ensures MsgTakes(p).msgSince == p.msgSince && MsgTakes(p).frmSince == p.frmSince
  {
    FlagsDoNotMatter(p.display, false, p.display.ready);
    if OfMsg(p.Kind()) {
      MessagesHaveIds(p.display);
    }
    hide DisplayIsRight;
  }

  ghost predicate MsgHasRun(p: Panel) {
    && DisplayIsRight(p.display) && OwnLine(p) && FrmIsRight(p) && !p.marks.newMsg
    && (OfMsg(p.Kind()) ==> p.marks.plnId == 0 && p.marks.msgId != 0)
  }

  lemma MsgRunsOn(q: Panel, i: Finding)
    requires MsgHasTaken(q)
    ensures MsgHasRun(MsgBody(q, i))
  {
    if GivesUp(q, i) {
      GivingUpIsRight(q.display);
    } else {
      FlagsDoNotMatter(q.display, q.display.reload, i.base.ready);
    }
    hide DisplayIsRight;
  }

  lemma MsgKeeps(p: Panel, i: Finding)
    requires DisplayIsRight(p.display) && OwnLine(p) && FrmIsRight(p) && MsgIsRight(p) && (p.marks.newMsg ==> p.MsgHas())
    ensures MsgHasRun(RunMsg(p, i))
  {
    if p.MsgHas() {
      MsgTakesKeeps(p);
      hide MsgTakes, MsgBody, DisplayIsRight, OwnLine, FrmIsRight, MsgIsRight;
      assert p.display.Valid() && MsgTakes(p).display.Valid();
      MsgRunsOn(MsgTakes(p), i);
    }
  }

  ghost predicate FrmHasTaken(p: Panel) {
    && DisplayIsRight(p.display) && (p.marks.entryIsMsg ==> p.marks.entryId != 0)
    && p.FrmHas() && p.marks.msgId == 0 && !p.marks.newMsg
    && (OfFrm(p.Kind()) && p.marks.frmRuns ==> p.marks.plnId == 0)
  }

  lemma FrmTakesKeeps(p: Panel)
    requires DisplayIsRight(p.display) && OwnLine(p) && FrmIsRight(p) && p.FrmHas() && !p.marks.newMsg
    ensures FrmHasTaken(FrmTakes(p))
  {
    FlagsDoNotMatter(p.display, false, p.display.ready);
    hide DisplayIsRight;
  }

  lemma FrmRunsOn(q: Panel, i: Finding)
    requires FrmHasTaken(q)
    ensures DisplayIsRight(FrmBody(q, i).display) && Kept(FrmBody(q, i))
  {
    FrmMarks(q.marks, q.Kind(), q.display.cur.ids[0]);
    hide DisplayIsRight, FrmBegun;
  }

  lemma FrmMarks(m: Marks, kind: DispType, id: byte)
    ensures var n := FrmBegun(m, kind, id);
            && n.newMsg == m.newMsg && n.msgId == m.msgId && n.msgRuns == m.msgRuns && n.frmRuns && n.on == m.on
            && n.entryIsMsg == m.entryIsMsg && n.entryId == m.entryId
            && (OfFrm(kind) ==> n.plnId == 0)
  {}

  lemma FrmKeeps(p: Panel, i: Finding)
    requires MsgHasRun(p)
    ensures Inv(RunFrm(p, i), true)
  {
    var q := RunFrm(p, i);
    assert DisplayIsRight(q.display) && Kept(q) by {
      if p.FrmHas() {
        FrmTakesKeeps(p);
        hide FrmTakes, FrmBody, DisplayIsRight, FrmHasTaken, Kept;
        assert p.display.Valid();
        FrmRunsOn(FrmTakes(p), i);
      } else {
        hide DisplayIsRight;
      }
    }
    hide Kept;
  }

  lemma TickKeeps(p: Panel, i: Finding, ticked: bool)
    requires Inv(p, ticked) && i.minute.Valid()
    ensures Inv(PanelTick(p, i), true)
  {
    hide Loads, RunPln, RunMsg, RunFrm, OwnLine, FrmIsRight, MsgIsRight, PlanIsRight, MsgHasRun, Kept, IdsAreSet,
      Settled;
    LoadsKeep(p, i, ticked);
    PlnKeeps(Loads(p, i), i);
    PlnDisplay(Loads(p, i), i);
    MsgKeeps(BeforeMsg(p, i), i);
    FrmKeeps(BeforeFrm(p, i), i);
  }

  lemma CommandKeeps(p: Panel, c: Command, ticked: bool)
    requires Inv(p, ticked)
    ensures Inv(OnePanelStep(p, Commanded(c)), ticked)
  {
    CommandKeepsSound(p.display, c, ticked);
  }

  lemma ResetKeeps(p: Panel, ticked: bool)
    requires Inv(p, ticked)
    ensures Inv(OnePanelStep(p, Level1Reset), ticked)
  {
    CommandKeepsSound(p.display, Reset, ticked);
  }

  predicate HasTicked(steps: seq<PanelStep>) {
    exists n :: 0 <= n < |steps| && steps[n].Ticked?
  }

  ghost predicate StepsAreValid(steps: seq<PanelStep>) {
    forall n :: 0 <= n < |steps| && steps[n].Ticked? ==> steps[n].finding.minute.Valid()
  }

  lemma {:induction false} EveryRunKeeps(p: Panel, steps: seq<PanelStep>)
    requires FreshPanel(p) && StepsAreValid(steps)
    ensures Inv(AfterSteps(p, steps), HasTicked(steps))
    decreases |steps|
  {
    if steps == [] {
      FreshIsSound(p.display);
    } else {
      var before, step := steps[..|steps| - 1], steps[|steps| - 1];
      EveryRunKeeps(p, before);
      hide OnePanelStep, Inv, FreshPanel;
      assert HasTicked(before) ==> HasTicked(steps) by {
        if n :| 0 <= n < |before| && before[n].Ticked? {
          assert steps[n].Ticked?;
        }
      }
      if step.Ticked? {
        assert steps[|steps| - 1].Ticked?;
        assert OnePanelStep(AfterSteps(p, before), step) == PanelTick(AfterSteps(p, before), step.finding) by {
          RunIsTick(AfterSteps(p, before), step.finding);
        }
        TickKeeps(AfterSteps(p, before), step.finding, HasTicked(before));
      } else {
        assert HasTicked(steps) ==> HasTicked(before) by {
          if n :| 0 <= n < |steps| && steps[n].Ticked? {
            assert before[n].Ticked?;
          }
        }
        if step.Commanded? {
          CommandKeeps(AfterSteps(p, before), step.command, HasTicked(before));
        } else {
          ResetKeeps(AfterSteps(p, before), HasTicked(before));
        }
      }
    }
  }

  lemma RunIsTick(p: Panel, i: Finding)
    requires p.display.Valid()
    ensures OnePanelStep(p, Ticked(i)) == PanelTick(p, i)
  {}

  // ----- Atomic frames -----

  /** With one slave a sign, an atomic display has a frame for each slave in every tick. */
  lemma TickFits(p: Panel, i: Finding, n: nat)
    requires p.display.Valid() && AtomicsFit(p.display, n)
    ensures AtomicsFit(BeforeFrm(p, i).display, n) && AtomicsFit(PanelTick(p, i).display, n)
  {
    FaultsFit(p.display, i.base.fatal, n);
    LoadingFits(Faults(p.display, i.base.fatal), i.base, n);
    hide Faults, DisplayArbiter.Loading;
    var q := Loads(p, i);
    hide Loads;
    assert RunPln(q, i).display.(reload := q.display.reload) == q.display;
    MsgFits(RunPln(q, i), i, n);
    FrmFits(BeforeFrm(p, i), i);
  }

  lemma MsgFits(p: Panel, i: Finding, n: nat)
    requires p.display.Valid() && AtomicsFit(p.display, n)
    ensures AtomicsFit(RunMsg(p, i).display, n)
  {
    hide MsgTaken;
  }

  lemma FrmFits(p: Panel, i: Finding)
    requires p.display.Valid()
    ensures var d := RunFrm(p, i).display;
            d.cur == p.display.cur && d.next == p.display.next && d.bak == p.display.bak && d.ext == p.display.ext
  {
    hide FrmTaken;
  }

  // ----- What the frame task began with -----

  /** `onDispFrmId` is not what the frame task began with, which is then at a line of its own. */
  predicate IdChanged(p: Panel) {
    p.marks.frmRuns && !p.msgSince && p.marks.frmId != p.begun
  }

  /** Between two ticks: only a system reset changes the id under the frame task, and then another display is loaded, but
      for a fault, or the message of a plan keeps the display until the frame task begins. */
  ghost predicate IdKept(p: Panel) {
    && (p.FrmHas() ==> p.marks.frmRuns && !p.display.reload && !p.marks.newFrm)
    && (p.Kind() == BLK ==> p.begun == 0)
    && (IdChanged(p) ==>
          && p.marks.frmId == 1 && p.marks.plnId == 0
          && (p.display.fault == High || (p.display.ready && p.display.next.kind != NA)
              || (p.Kind() == PLN && p.marks.entryIsMsg)))
  }

  /** Within a tick. */
  ghost predicate IdIsRight(p: Panel) {
    && (p.Kind() == BLK ==> p.begun == 0 || p.display.reload)
    && (IdChanged(p) ==>
          && p.marks.frmId == 1 && p.marks.plnId == 0
          && ((p.display.fault == High && p.Kind() == BLK) || p.display.reload
              || (p.Kind() == PLN && (p.marks.newFrm || p.marks.entryIsMsg))))
  }

  lemma LoadingTakes(s: State, i: Input)
    requires s.Valid() && s.fault == Low && s.ready && s.next.kind != NA
    ensures Loading(s, i).reload && Loading(s, i).ready
  {}

  lemma FaultsTake(s: State, fatal: bool)
    requires s.Valid() && (s.fault == Low || s.fault == High)
    ensures var f := Faults(s, fatal);
            && (f.fault == High <==> fatal)
            && (fatal && s.fault == Low ==> f.reload && f.cur.kind == BLK)
            && (fatal && s.fault == High ==> f == s)
            && (!fatal && s.fault == Low ==> f == s)
            && (!fatal && s.fault == High ==> f.ready && f.cur.kind == NA)
  {}

  lemma LoadingNothing(s: State, i: Input)
    requires s.Valid() && s.fault == Low && s.ready && s.cur.kind == NA
    ensures Loading(s, i).reload && Loading(s, i).ready
  {}

  lemma LoadsKeepId(p: Panel, i: Finding, ticked: bool)
    requires Inv(p, ticked) && IdKept(p)
    ensures IdIsRight(Loads(p, i))
  {
    var f := Faults(p.display, i.base.fatal);
    LoadsKeep(p, i, ticked);
    FaultsTake(p.display, i.base.fatal);
    FaultsLoad(p.display, i.base.fatal);
    if i.base.fatal {
      assert Loading(f, i.base) == f;
    } else if p.display.fault == High {
      LoadingNothing(f, i.base);
    } else if p.display.ready && p.display.next.kind != NA {
      LoadingTakes(f, i.base);
    }
    hide Faults, Loading, DisplayIsRight, IdsAreSet, Settled, Kept, OwnLine, FrmIsRight, MsgIsRight, PlanIsRight;
  }

  lemma PlnKeepsId(p: Panel, i: Finding)
    requires p.display.Valid() && i.minute.Valid() && IdIsRight(p)
    ensures IdIsRight(RunPln(p, i))
  {
    PlnResets(p.marks, p.display.reload, i.slept, i.minute);
    hide PlnTaken;
  }

  /** With frame 1 on display and no plan, the plan task has the frame task begin, whatever it finds. */
  lemma PlnResets(m: Marks, reload: bool, slept: bool, minute: Minute)
    requires minute.Valid()
    ensures var n := PlnTaken(m, reload, slept, minute);
            && n.frmId == m.frmId && (n.frmRuns ==> m.frmRuns) && (m.newFrm ==> n.newFrm || !n.frmRuns)
            && (m.frmId == 1 && m.plnId == 0 ==>
                  if n.frmRuns then !reload && n == m else true)
  {}

  lemma MsgKeepsId(p: Panel, i: Finding)
    requires p.display.Valid() && IdIsRight(p)
    ensures IdIsRight(RunMsg(p, i))
  {
    if p.MsgHas() {
      MsgTakenId(p.marks, p.display.reload, p.Kind(), p.display.cur.ids[0]);
      hide MsgTaken;
    }
  }

  lemma MsgTakenId(m: Marks, reload: bool, kind: DispType, id: byte)
    ensures var n := MsgTaken(m, reload, kind, id);
            && n.frmId == m.frmId && n.frmRuns == m.frmRuns && n.newFrm == m.newFrm && n.entryIsMsg == m.entryIsMsg
            && (m.plnId == 0 ==> n.plnId == 0)
  {}

  lemma MsgNeverReloads(p: Panel, i: Finding)
    requires p.display.Valid() && p.Kind() != NA
    ensures RunMsg(p, i).Kind() != NA && (OfMsg(RunMsg(p, i).Kind()) ==> !RunMsg(p, i).display.reload)
  {
    hide MsgTaken;
  }

  lemma FrmKeepsId(p: Panel, i: Finding)
    requires p.display.Valid() && IdIsRight(p) && p.Kind() != NA && (OfMsg(p.Kind()) ==> !p.display.reload)
    requires FrmIsRight(p)
    ensures IdKept(RunFrm(p, i))
  {
    if p.FrmHas() {
      FrmMarks(FrmTakes(p).marks, p.Kind(), p.display.cur.ids[0]);
      FrmBegunId(FrmTakes(p).marks, p.Kind(), p.display.cur.ids[0]);
      hide FrmBegun;
    }
  }

  lemma FrmBegunId(m: Marks, kind: DispType, id: byte)
    ensures kind == BLK ==> FrmBegun(m, kind, id).frmId == 0
    ensures FrmBegun(m, kind, id).newFrm == m.newFrm
  {}

  lemma AtomicId(m: Marks, kind: DispType, id: byte)
    ensures kind == ATF ==> FrmBegun(m, kind, id).frmId == 1
  {}

  lemma TickKeepsId(p: Panel, i: Finding, ticked: bool)
    requires Inv(p, ticked) && IdKept(p) && i.minute.Valid()
    ensures IdIsRight(BeforeFrm(p, i)) && IdKept(PanelTick(p, i))
  {
    LoadsKeep(p, i, ticked);
    LoadsKeepId(p, i, ticked);
    var q := Loads(p, i);
    KindIsSet(q.display);
    PlnKeepsId(q, i);
    MsgKeepsId(BeforeMsg(p, i), i);
    OneTick(p, i, ticked);
    hide Loads, RunMsg, RunFrm, IdIsRight, IdKept, OwnLine, FrmIsRight, MsgIsRight, PlanIsRight, Kept, IdsAreSet,
      DisplayIsRight, PlnTaken;
    assert BeforeMsg(p, i).Kind() != NA;
    hide RunPln;
    MsgNeverReloads(BeforeMsg(p, i), i);
    FrmKeepsId(BeforeFrm(p, i), i);
  }

  lemma KindIsSet(d: State)
    requires DisplayIsRight(d)
    ensures d.cur.kind != NA
  {}

  lemma CommandKeepsId(p: Panel, step: PanelStep)
    requires p.display.Valid() && IdKept(p) && !step.Ticked?
    ensures IdKept(OnePanelStep(p, step))
  {}

  lemma {:induction false} EveryRunKeepsId(p: Panel, steps: seq<PanelStep>)
    requires FreshPanel(p) && StepsAreValid(steps)
    ensures IdKept(AfterSteps(p, steps))
    decreases |steps|
  {
    if steps != [] {
      var before, step := steps[..|steps| - 1], steps[|steps| - 1];
      EveryRunKeepsId(p, before);
      EveryRunKeeps(p, before);
      hide Inv, FreshPanel, PanelTick, Apply, IdKept;
      if step.Ticked? {
        TickKeepsId(AfterSteps(p, before), step.finding, HasTicked(before));
      } else {
        CommandKeepsId(AfterSteps(p, before), step);
      }
    }
  }

  /** The frame task goes on, and `onDispFrmId` is not what it began with. */
  predicate Misleads(p: Panel, i: Finding)
    requires p.display.Valid()
  {
    IsMisled(BeforeFrm(p, i))
  }

  predicate IsMisled(q: Panel)
    requires q.display.Valid()
  {
    q.FrmHas() && FrmTakes(q).marks.frmRuns && q.marks.frmId != q.begun
  }

  /** That is a matter of blank displays in a fault. */
  lemma OnlyBlankIsMisled(q: Panel)
    requires q.display.Valid() && IdIsRight(q) && FrmIsRight(q) && IsMisled(q)
    ensures q.display.fault == High && q.Kind() == BLK && q.begun == 0 && q.marks.frmId == 1 && !q.msgSince
  {
    FrmTakesAway(q);
  }

  // ----- Seen from a run -----

  /** The message task is about to go on at a line that the frame task has overtaken. */
  predicate IsOvertaken(q: Panel)
    requires q.display.Valid()
  {
    q.MsgHas() && MsgTakes(q).marks.msgRuns && q.frmSince
  }

  predicate Overtakes(p: Panel, i: Finding)
    requires p.display.Valid()
  {
    IsOvertaken(BeforeMsg(p, i))
  }

  lemma FrmTakesAway(p: Panel)
    requires p.display.Valid() && FrmTakes(p).marks.frmRuns
    ensures p.marks.frmRuns && !p.display.reload && !p.marks.newFrm
  {}

  lemma MsgTakesAway(p: Panel)
    requires p.display.Valid()
    ensures MsgTakes(p).marks.msgRuns ==> p.marks.msgRuns && !p.display.reload && !p.marks.newMsg
    ensures MsgTakes(p).marks.msgRuns ==> MsgTakes(p).marks.msgId == p.marks.msgId
  {}

  lemma OneTick(p: Panel, i: Finding, ticked: bool)
    requires Inv(p, ticked) && i.minute.Valid()
    ensures OwnLine(BeforeMsg(p, i)) && MsgIsRight(BeforeMsg(p, i)) && FrmIsRight(BeforeFrm(p, i))
  {
    hide Loads, RunPln, RunMsg, OwnLine, FrmIsRight, MsgIsRight, PlanIsRight, Kept, IdsAreSet, Settled;
    LoadsKeep(p, i, ticked);
    PlnKeeps(Loads(p, i), i);
    PlnDisplay(Loads(p, i), i);
    MsgKeeps(BeforeMsg(p, i), i);
  }

  lemma {:induction false} OneMore(p: Panel, steps: seq<PanelStep>, step: PanelStep)
    requires p.display.Valid()
    ensures AfterSteps(p, steps + [step]) == OnePanelStep(AfterSteps(p, steps), step)
  {
    assert (steps + [step])[..|steps|] == steps;
  }

  lemma NoMsg(r: Panel, i: Finding)
    requires r.display.Valid() && !r.MsgHas()
    ensures RunMsg(r, i) == r
  {}

  function Calm(minute: Minute, fatal: bool): Finding {
    Finding(Input(fatal, false, false, false, false), true, minute, true, false, 5, false)
  }
}
