/** Which display a group shows: commands, the facility switch, external inputs and faults compete for it in
    `NormalMode`, `LoadDsNext`, `DispBackup`, `DispNext` and `DispExt` of src/sign/Group.cpp. */
module DisplayArbiter {
  import opened Bytes
  import opened Edges

  datatype DispType = NA | FRM | MSG | PLN | ATF | EXT | FSW | BLK

  /** A display status: its kind, and a frame, message or plan id, or for atomic frames one id a sign. */
  datatype Disp = Disp(kind: DispType, ids: seq<byte>)
  {
    function Become(kind: DispType, id: byte): Disp
      requires |ids| > 0
    {
      Disp(kind, ids[0 := id])
    }
  }

  /** What a group keeps to decide what it shows. `timed` says whether the timer of the external message is set. */
  datatype State = State(cur: Disp, next: Disp, bak: Disp, ext: Disp, fault: Edge, ready: bool, reload: bool, timed: bool)
  {
    ghost predicate Valid() {
      |cur.ids| == |next.ids| == |bak.ids| == |ext.ids| > 0
    }
  }

  // ----- Commands -----

  /** What may arrive between two ticks. `allowed` says that the power is on and the facility switch is on AUTO. The end
      of a power-up is a `Switch`, once the switch has been read, followed by `PoweredUp`. */
  datatype Command =
    | ShowFrame(id: byte, allowed: bool, rejected: bool)
    | ShowMessage(id: byte, allowed: bool)
    | ShowAtomic(frames: seq<byte>, allowed: bool)
    | Switch(msg: byte)
    | PoweredUp
    | Reset
    | External(id: byte, allowed: bool, lasting: bool, mayInterrupt: bool)

  /** `DispChk`. */
  predicate Accepts(s: State, c: Command) {
    match c
    case ShowFrame(id, allowed, rejected) => !rejected && (id == 0 || (allowed && !s.fault.IsHigh()))
    case ShowMessage(id, allowed) => id == 0 || (allowed && !s.fault.IsHigh())
    case ShowAtomic(frames, allowed) => allowed && !s.fault.IsHigh() && |frames| == |s.cur.ids|
    case Switch(_) => true
    case Reset => true
    case PoweredUp => false
    case External(_, _, _, _) => false
  }

  /** The display a command other than an external input asks for. */
  function Asked(c: Command, was: Disp): Disp
    requires |was.ids| > 0 && !c.External? && !c.PoweredUp?
  {
    match c
    case ShowFrame(id, _, _) => was.Become(FRM, id)
    case ShowMessage(id, _) => was.Become(MSG, id)
    case ShowAtomic(frames, _) => Disp(ATF, frames)
    case Switch(msg) => if msg == 0 then was.Become(FRM, 0) else was.Become(FSW, msg)
    case Reset => was.Become(FRM, 0)
  }

  /** `DispExt` and the external part of `DispNext`. */
  function OnExternal(s: State, id: byte, allowed: bool, lasting: bool, mayInterrupt: bool): State
    requires s.Valid()
  {
    if !allowed || !(3 <= id <= 6) || (s.cur.kind == EXT && s.cur.ids[0] < id) || (s.ext.kind == EXT && s.ext.ids[0] < id)
    then s
    else if !lasting then s
    else if s.cur.kind == EXT && s.cur.ids[0] == id then s.(timed := true)
    else if s.cur.kind == NA || s.cur.kind == BLK || mayInterrupt then
      s.(timed := true, ext := s.ext.Become(EXT, id))
    else s
  }

  function Apply(s: State, c: Command): (r: State)
    requires s.Valid()
    ensures r.Valid()
  {
    if c.External? then OnExternal(s, c.id, c.allowed, c.lasting, c.mayInterrupt)
    else if c.PoweredUp? then s.(timed := false, ready := true)
    else if !Accepts(s, c) then s
    else s.(next := Asked(c, s.next), ready := s.ready || c.Reset?)
  }

  // ----- A tick -----

  /** What a tick finds: whether a sign or a slave has a fault, whether the timer of the external message, if set, has
      expired, whether the pending external input is an emergency; and what the message task does: it may find its
      message undefined, and tell the group whether it may load. */
  datatype Input = Input(fatal: bool, extExpired: bool, emergency: bool, undefinedMsg: bool, ready: bool)

  function Backup(s: State): (r: State)
    requires s.Valid()
    ensures r.Valid()
  {
    if s.next.kind == NA then s.(next := s.bak, bak := s.bak.Become(NA, 0)) else s
  }

  /** The facility switch before external inputs before commands. */
  function Taken(s: State): (r: State)
    requires s.Valid()
    ensures r.Valid()
  {
    if s.next.kind == FSW then
      s.(bak := s.bak.Become(FRM, 0), cur := s.next, next := s.next.Become(NA, 0), reload := true)
    else if s.ext.kind == EXT then
      s.(bak := s.cur, cur := s.ext, ext := s.ext.Become(NA, 0), reload := true)
    else if s.next.kind != NA then
      s.(bak := s.cur, cur := s.next, next := s.next.Become(NA, 0), reload := true)
    else s
  }

  /** `LoadDsNext`: what is taken, and frame or message 0 means the plan. */
  function Load(s: State): (r: State)
    requires s.Valid()
    ensures r.Valid()
  {
    var taken := Taken(s);
    var some := if taken.cur.kind == NA then
        taken.(bak := taken.bak.Become(FRM, 0), cur := taken.cur.Become(FRM, 0), reload := true)
      else taken;
    if some.cur.ids[0] == 0 && some.cur.kind in {FRM, MSG} then
      some.(cur := Disp(PLN, some.cur.ids), reload := true)
    else some
  }

  /** The onset of a fault: what is pending or showing is kept, unless an external message is showing, and the display is
      blanked. */
  function Risen(s: State): (r: State)
    requires s.Valid()
    ensures r.Valid()
  {
    s.(bak := if s.cur.kind == EXT then s.bak else if s.next.kind !in {NA, EXT} then s.next else s.cur,
       reload := true, next := s.next.Become(NA, 0), cur := s.cur.Become(BLK, 0), fault := High)
  }

  /** The change of the fault state. */
  function Faults(s: State, fatal: bool): (r: State)
    requires s.Valid()
    ensures r.Valid()
  {
    var fault := if fatal then s.fault.Set() else s.fault.Clr();
    if fault.Rising? then Risen(s.(fault := fault))
    else if fault.Falling? then
      var b := Backup(s);
      b.(cur := b.cur.Become(NA, 0), ready := true, fault := Low)
    else s.(fault := fault)
  }

  /** Loading, when there is no fault and the group may load. */
  function Loading(s: State, i: Input): (r: State)
    requires s.Valid()
    ensures r.Valid()
  {
    if !s.fault.IsLow() then s
    else
      var ready := s.ready || (s.ext.kind == EXT && 3 <= s.ext.ids[0] <= 6 && i.emergency);
      var e := s.(ready := ready);
      if !ready then e
      else if e.cur.kind == EXT && e.timed && i.extExpired then Load(Backup(e.(reload := false, timed := false)))
      else Load(e.(reload := false))
  }

  /** What the message task may do to the display. */
  function Tasks(s: State, i: Input): (r: State)
    requires s.Valid()
    ensures r.Valid()
  {
    var t := s.(ready := i.ready);
    if i.undefinedMsg && s.cur.kind in {MSG, PLN} then t.(cur := s.cur.Become(PLN, 0), reload := true)
    else t
  }

  function Tick(s: State, i: Input): (r: State)
    requires s.Valid()
    ensures r.Valid()
  {
    Tasks(Loading(Faults(s, i.fatal), i), i)
  }

  datatype Step = Do(command: Command) | Run(input: Input)

  function OneStep(s: State, step: Step): (r: State)
    requires s.Valid()
    ensures r.Valid()
  {
    match step
    case Do(c) => Apply(s, c)
    case Run(i) => Tick(s, i)
  }

  function After(s: State, steps: seq<Step>): (r: State)
    requires s.Valid()
    ensures r.Valid()
    decreases |steps|
  {
    if steps == [] then s else OneStep(After(s, steps[..|steps| - 1]), steps[|steps| - 1])
  }

  // ----- What is restored at start-up -----

  /** The facility switch, which nobody has read yet when a group is made. */
  datatype SwitchState = NotRead | Off | Auto | Msg1 | Msg2

  /** `LoadLastDisp`: the command stored last is given again, under the checks of any command. */
  function Restored(s: State, stored: Command, powered: bool, switch: SwitchState): State
    requires s.Valid()
  {
    var allowed := powered && switch == Auto;
    match stored
    case ShowFrame(id, _, rejected) => Apply(s, ShowFrame(id, allowed, rejected))
    case ShowMessage(id, _) => Apply(s, ShowMessage(id, allowed))
    case ShowAtomic(frames, _) => Apply(s, ShowAtomic(frames, allowed))
    case _ => s
  }

  /** Frame 0 or message 0, which stands for the plan. */
  predicate IsPlan(c: Command) {
    (c.ShowFrame? && c.id == 0 && !c.rejected) || (c.ShowMessage? && c.id == 0)
  }

  /** It comes to nothing: no stored frame, message or atomic command is taken, but frame 0 and message 0, which are
      loaded as the plan, as a group does that has nothing stored. */
  lemma NothingIsRestored(s: State, stored: Command, powered: bool)
    requires Fresh(s)
    ensures var r := Restored(s, stored, powered, NotRead);
            && (r == s <==> !IsPlan(stored))
            && (r != s ==> Load(r).cur.kind == PLN)
  {}

  // ----- Atomic frames -----

  /** An atomic display has a frame for each of the n slaves. */
  predicate HasFrames(d: Disp, n: nat) {
    d.kind == ATF ==> |d.ids| == n && forall k :: 0 <= k < n ==> d.ids[k] != 0
  }

  predicate AtomicsFit(s: State, n: nat) {
    HasFrames(s.cur, n) && HasFrames(s.next, n) && HasFrames(s.bak, n) && HasFrames(s.ext, n)
  }

  /** What is accepted of an atomic command has a frame for each sign, which is a slave. */
  predicate CommandFits(c: Command, n: nat) {
    c.ShowAtomic? && c.allowed ==> HasFrames(Disp(ATF, c.frames), n)
  }

  lemma ApplyFits(s: State, c: Command, n: nat)
    requires s.Valid() && AtomicsFit(s, n) && CommandFits(c, n)
    ensures AtomicsFit(Apply(s, c), n)
  {
    hide HasFrames;
    Others(s, n);
  }

  /** Whatever is no atomic display fits. */
  lemma Others(s: State, n: nat)
    ensures forall kind, ids | kind != ATF :: HasFrames(Disp(kind, ids), n)
  {}

  lemma FaultsFit(s: State, fatal: bool, n: nat)
    requires s.Valid() && AtomicsFit(s, n)
    ensures AtomicsFit(Faults(s, fatal), n)
  {
    hide HasFrames;
    Others(s, n);
  }

  lemma LoadFits(s: State, n: nat)
    requires s.Valid() && AtomicsFit(s, n)
    ensures AtomicsFit(Load(s), n)
  {
    hide HasFrames;
    Others(s, n);
  }

  lemma LoadingFits(s: State, i: Input, n: nat)
    requires s.Valid() && AtomicsFit(s, n)
    ensures AtomicsFit(Loading(s, i), n)
  {
    hide HasFrames, Load;
    Others(s, n);
    LoadFits(s.(ready := true, reload := false), n);
    LoadFits(s.(ready := s.ready, reload := false), n);
    LoadFits(Backup(s.(ready := true, reload := false, timed := false)), n);
  }

  // ----- What is shown at the end of every tick -----

  /** A group as constructed: nothing on display, blank to be shown next. */
  ghost predicate Fresh(s: State) {
    && s.Valid()
    && s.cur.kind == NA && s.next.kind == BLK && s.bak.kind == NA && s.ext.kind == NA
    && s.fault == Low && s.ready && !s.timed
  }

  ghost predicate Settled(d: Disp)
    requires |d.ids| > 0
  {
    d.kind != NA && !(d.kind in {FRM, MSG} && d.ids[0] == 0)
  }

  /** Between steps; `ticked` once there has been a tick. */
  ghost predicate Sound(s: State, ticked: bool) {
    && s.Valid()
    && s.fault in {Low, High}
    && (s.fault == High ==> s.cur.kind == BLK)
    && (if ticked then Settled(s.cur) else s.ready && s.fault == Low && s.cur.kind == NA)
  }

  predicate Ticked(steps: seq<Step>) {
    exists i :: 0 <= i < |steps| && steps[i].Run?
  }

  lemma LoadSettles(s: State)
    requires s.Valid()
    ensures Settled(Load(s).cur)
    ensures Load(s).fault == s.fault
  {}

  lemma LoadingSettles(s: State, i: Input)
    requires s.Valid() && s.fault in {Low, High}
    requires s.fault == High || s.ready || Settled(s.cur)
    requires s.fault == High ==> s.cur.kind == BLK
    ensures Settled(Loading(s, i).cur) && Loading(s, i).fault == s.fault
    ensures s.fault == High ==> Loading(s, i) == s
  {
    hide Load;
    if s.fault == Low && (s.ready || (s.ext.kind == EXT && 3 <= s.ext.ids[0] <= 6 && i.emergency)) {
      var e := s.(ready := true, reload := false);
      LoadSettles(e);
      LoadSettles(Backup(e.(timed := false)));
    }
  }

  lemma TickSettles(s: State, i: Input, ticked: bool)
    requires Sound(s, ticked)
    ensures Sound(Tick(s, i), true)
    ensures i.fatal <==> Tick(s, i).fault == High
  {
    hide Loading;
    LoadingSettles(Faults(s, i.fatal), i);
  }

  lemma CommandKeepsSound(s: State, c: Command, ticked: bool)
    requires Sound(s, ticked)
    ensures Sound(Apply(s, c), ticked)
  {}

  lemma FreshIsSound(s: State)
    requires Fresh(s)
    ensures Sound(s, false)
  {}

  /** In every run of commands, switch changes, external inputs, resets and ticks, once there has been a tick the display
      is never undefined nor frame or message 0, and it is blank whenever the fault is high. */
  lemma {:induction false} EveryRunIsSound(s: State, steps: seq<Step>)
    requires Fresh(s)
    ensures Sound(After(s, steps), Ticked(steps))
    decreases |steps|
  {
    FreshIsSound(s);
    if steps != [] {
      var before, step := steps[..|steps| - 1], steps[|steps| - 1];
      EveryRunIsSound(s, before);
      hide Tick, Apply, Sound, Fresh;
      if Ticked(before) {
        var i :| 0 <= i < |before| && before[i].Run?;
        assert steps[i].Run?;
      }
      match step {
        case Run(input) =>
          assert steps[|steps| - 1].Run?;
          TickSettles(After(s, before), input, Ticked(before));
        case Do(c) =>
          CommandKeepsSound(After(s, before), c, Ticked(before));
          if Ticked(steps) {
            var i :| 0 <= i < |steps| && steps[i].Run?;
            assert before[i].Run?;
          }
      }
    }
  }

  // ----- What a tick puts on display -----

  /** No fault, and none begins. */
  predicate Quiet(s: State, i: Input) {
    s.fault == Low && !i.fatal && !i.undefinedMsg
  }

  /** A pending command is on display after the next tick in which the group may load, frame or message 0 as the plan,
      and what it displaces is kept. Only an external message that is pending as well comes before it; then the command
      stays pending. The facility switch comes before both, and then nothing is kept but frame 0. The tasks are told to
      reload. */
  lemma PendingIsShown(s: State, i: Input)
    requires s.Valid() && Quiet(s, i) && s.ready && s.next.kind != NA
    ensures var r := Tick(s, i);
            if s.ext.kind == EXT && s.next.kind != FSW then
              r.cur == s.ext && r.bak == s.cur && r.next == s.next && r.ext.kind == NA && r.reload
            else
              && r.cur == (if s.next.kind in {FRM, MSG} && s.next.ids[0] == 0 then Disp(PLN, s.next.ids) else s.next)
              && r.reload
              && (if s.next.kind == FSW then r.bak.kind == FRM && r.bak.ids[0] == 0 else r.bak == s.cur)
              && r.next.kind == NA && r.ext == s.ext
  {}

  /** With nothing pending the display stays, and so does everything kept, as long as no external message runs out. */
  lemma NothingPendingStays(s: State, i: Input)
    requires Sound(s, true) && Quiet(s, i) && s.next.kind == NA && s.ext.kind != EXT
    requires !(s.cur.kind == EXT && s.timed && i.extExpired)
    ensures var r := Tick(s, i); r.cur == s.cur && r.bak == s.bak && r.next == s.next && r.ext == s.ext
    ensures Tick(s, i).reload <==> s.reload && !s.ready
  {}

  /** A group that may not load leaves the display, and what is pending stays pending; only a pending external message
      that is an emergency makes it load all the same. */
  lemma WaitsUntilReady(s: State, i: Input)
    requires s.Valid() && Quiet(s, i) && !s.ready && !(s.ext.kind == EXT && 3 <= s.ext.ids[0] <= 6 && i.emergency)
    ensures var r := Tick(s, i); r.cur == s.cur && r.bak == s.bak && r.next == s.next && r.ext == s.ext
    ensures Tick(s, i).reload == s.reload
  {}

  lemma EmergencyIsShown(s: State, i: Input)
    requires s.Valid() && Quiet(s, i) && s.ext.kind == EXT && 3 <= s.ext.ids[0] <= 6 && i.emergency && s.next.kind != FSW
    requires !(s.cur.kind == EXT && s.timed && i.extExpired)
    ensures var r := Tick(s, i); r.cur == s.ext && r.bak == s.cur && r.next == s.next && r.ext.kind == NA && r.reload
  {}

  /** The end of a power-up lets the group load, and stops the time of an external message. */
  lemma PowerUpLoads(s: State, i: Input)
    requires s.Valid() && Quiet(s, i) && s.next.kind != NA && s.ext.kind != EXT
    ensures var r := Tick(Apply(s, PoweredUp), i);
            r.cur == (if s.next.kind in {FRM, MSG} && s.next.ids[0] == 0 then Disp(PLN, s.next.ids) else s.next)
            && !r.timed
  {}

  /** With nothing on display and nothing pending it is the plan. */
  lemma NothingIsThePlan(s: State, i: Input)
    requires s.Valid() && Quiet(s, i) && s.ready && s.cur.kind == NA && s.next.kind == NA && s.ext.kind != EXT
    ensures var r := Tick(s, i);
            r.cur.kind == PLN && r.cur.ids[0] == 0 && r.bak.kind == FRM && r.bak.ids[0] == 0 && r.reload
  {}

  /** An undefined message gives way to the plan. */
  lemma UndefinedGivesWay(s: State, i: Input)
    requires Sound(s, true) && s.fault == Low && !i.fatal && i.undefinedMsg && s.next.kind == NA && s.ext.kind != EXT
    requires s.cur.kind != EXT
    ensures var r := Tick(s, i);
            if s.cur.kind in {MSG, PLN} then r.cur.kind == PLN && r.cur.ids[0] == 0 && r.reload else r.cur == s.cur
  {}

  /** What the commands themselves come to, given to a group without a fault that may load, or a reset to any without a
      fault, with no external message pending. One that is refused changes nothing; else the display after the next
      tick is what was asked for. */
  lemma CommandIsShown(s: State, c: Command, i: Input)
    requires s.Valid() && Quiet(s, i) && (s.ready || c.Reset?) && s.ext.kind != EXT && !c.External? && !c.PoweredUp?
    ensures var taken := match c
                         case ShowFrame(id, allowed, rejected) => !rejected && (id == 0 || allowed)
                         case ShowMessage(id, allowed) => id == 0 || allowed
                         case ShowAtomic(frames, allowed) => allowed && |frames| == |s.cur.ids|
                         case Switch(_) => true
                         case Reset => true;
            if !taken then Apply(s, c) == s
            else IsOnDisplay(c, Tick(Apply(s, c), i).cur)
  {
    hide Tick;
    if Accepts(s, c) {
      PendingIsShown(Apply(s, c), i);
    }
  }

  ghost predicate IsOnDisplay(c: Command, d: Disp) {
    |d.ids| > 0
    && match c
       case ShowFrame(id, _, _) => d.kind == (if id == 0 then PLN else FRM) && d.ids[0] == id
       case ShowMessage(id, _) => d.kind == (if id == 0 then PLN else MSG) && d.ids[0] == id
       case ShowAtomic(frames, _) => d.kind == ATF && d.ids == frames
       case Switch(msg) => d.kind == (if msg == 0 then PLN else FSW) && d.ids[0] == msg
       case Reset => d.kind == PLN && d.ids[0] == 0
       case PoweredUp => false
       case External(_, _, _, _) => false
  }

  /** During a fault only frame and message 0, the switch and resets are taken, and stay pending. */
  lemma CommandWaitsInFault(s: State, c: Command)
    requires s.Valid() && s.fault == High && !c.External? && !c.PoweredUp?
    ensures var taken := (c.ShowFrame? && c.id == 0 && !c.rejected) || (c.ShowMessage? && c.id == 0)
                         || c.Switch? || c.Reset?;
            var r := Apply(s, c);
            if !taken then r == s
            else
              && r.cur == s.cur && r.bak == s.bak && r.ext == s.ext && r.fault == High
              && (if c.Switch? && c.msg != 0 then r.next.kind == FSW && r.next.ids[0] == c.msg
                  else r.next.kind in {FRM, MSG} && r.next.ids[0] == 0)
  {}

  /** An external input of a group that shows what it shall and has nothing pending: inputs 3 to 6 count, the lower first,
      and an input shows after the next tick exactly when it is allowed, lasts, finds no lower one on display, and may
      interrupt. */
  lemma ExternalIsShown(s: State, id: byte, allowed: bool, lasting: bool, mayInterrupt: bool, i: Input)
    requires Sound(s, true) && Quiet(s, i) && s.ready && s.next.kind == NA && s.ext.kind != EXT
    requires !i.extExpired
    ensures var r := Tick(Apply(s, External(id, allowed, lasting, mayInterrupt)), i);
            if allowed && lasting && 3 <= id <= 6 && !(s.cur.kind == EXT && s.cur.ids[0] <= id)
               && (mayInterrupt || s.cur.kind == BLK)
            then r.cur.kind == EXT && r.cur.ids[0] == id && r.timed && r.bak == s.cur
            else r.cur == s.cur && r.bak == s.bak
  {}

  /** A pending external message gives way to a lower one only, and one on display that comes again starts its time
      anew. */
  lemma ExternalKeepsRank(s: State, id: byte, allowed: bool, lasting: bool, mayInterrupt: bool)
    requires s.Valid()
    ensures var r := Apply(s, External(id, allowed, lasting, mayInterrupt));
            && r.cur == s.cur && r.next == s.next && r.bak == s.bak && r.fault == s.fault && r.ready == s.ready
            && (s.ext.kind == EXT ==> r.ext.kind == EXT && r.ext.ids[0] <= s.ext.ids[0])
            && (s.cur.kind == EXT && s.cur.ids[0] < id ==> r == s)
            && (s.cur.kind == EXT && s.cur.ids[0] == id && s.ext.kind != EXT && allowed && lasting && 3 <= id <= 6 ==>
                  r == s.(timed := true))
            && (s.ext.kind == EXT && s.ext.ids[0] == id && s.cur.kind != EXT && allowed && lasting && mayInterrupt
                && 3 <= id <= 6 ==>
                  r.timed && r.ext.ids[0] == id)
  {}

  // ----- A fault, from onset to end -----

  /** Steps during a fault: commands, and ticks that find the fault still there. */
  ghost predicate DuringFault(steps: seq<Step>) {
    forall i :: 0 <= i < |steps| && steps[i].Run? ==> steps[i].input.fatal
  }

  /** Whether some command is accepted while the fault lasts: only frame and message 0, the switch and resets are. */
  predicate AcceptedDuringFault(c: Command) {
    match c
    case ShowFrame(id, _, rejected) => id == 0 && !rejected
    case ShowMessage(id, _) => id == 0
    case ShowAtomic(_, _) => false
    case Switch(_) => true
    case Reset => true
    case PoweredUp => false
    case External(_, _, _, _) => false
  }

  /** The last command accepted, as a position in `steps`, or -1. */
  function LastAccepted(steps: seq<Step>): (k: int)
    ensures -1 <= k < |steps|
    ensures k >= 0 ==> steps[k].Do? && AcceptedDuringFault(steps[k].command)
    decreases |steps|
  {
    if steps == [] then -1
    else if steps[|steps| - 1].Do? && AcceptedDuringFault(steps[|steps| - 1].command) then |steps| - 1
    else LastAccepted(steps[..|steps| - 1])
  }

  lemma {:induction false} LastAcceptedIsLast(steps: seq<Step>, j: nat)
    requires j < |steps| && steps[j].Do? && AcceptedDuringFault(steps[j].command)
    ensures j <= LastAccepted(steps)
    decreases |steps|
  {
    if j < |steps| - 1 {
      assert steps[..|steps| - 1][j] == steps[j];
      LastAcceptedIsLast(steps[..|steps| - 1], j);
    }
  }

  /** Frame 0 or message 0 turn into the plan, and so does nothing at all. */
  function Settle(d: Disp): Disp {
    if |d.ids| == 0 then d
    else if d.kind == NA then d.Become(PLN, 0)
    else if d.kind in {FRM, MSG} && d.ids[0] == 0 then Disp(PLN, d.ids)
    else d
  }

  /** Two statuses that show the same. */
  predicate Same(a: Disp, b: Disp) {
    a.kind == b.kind && if a.kind == ATF then a.ids == b.ids
                        else a.kind in {NA, BLK} || (|a.ids| > 0 && |b.ids| > 0 && a.ids[0] == b.ids[0])
  }

  /** What was pending or showing when the fault began; while an external message was showing, what it had displaced. */
  function AtOnset(s: State): Disp {
    if s.cur.kind == EXT then s.bak else if s.next.kind !in {NA, EXT} then s.next else s.cur
  }

  lemma TickInFault(s: State, i: Input)
    requires s.Valid() && s.fault == High && s.cur.kind == BLK && i.fatal
    ensures Tick(s, i) == s.(ready := i.ready)
  {}

  lemma CommandInFault(s: State, c: Command)
    requires s.Valid() && s.fault == High
    ensures var r := Apply(s, c);
            && r.fault == High && r.cur == s.cur && r.bak == s.bak
            && (if AcceptedDuringFault(c) then Same(r.next, Asked(c, r.next)) && r.next.kind != NA else r.next == s.next)
  {}

  /** What a fault that begins in state s leaves to be shown after `steps`. */
  function Outcome(s: State, steps: seq<Step>): Disp
    requires s.Valid()
  {
    var k := LastAccepted(steps);
    if k >= 0 then Asked(steps[k].command, s.next) else AtOnset(s)
  }

  lemma SameAsked(c: Command, a: Disp, b: Disp)
    requires AcceptedDuringFault(c) && |a.ids| > 0 && |b.ids| > 0
    ensures Same(Asked(c, a), Asked(c, b)) && |Asked(c, a).ids| > 0
  {}

  lemma SameChain(a: Disp, b: Disp, c: Disp)
    requires Same(a, b) && Same(b, c)
    ensures Same(a, c)
  {}

  /** While a fault lasts, the display stays blank, what was kept at its onset stays, and only an accepted command is
      pending. */
  lemma {:induction false} FaultHolds(s: State, steps: seq<Step>)
    requires s.Valid() && s.fault == High && s.cur.kind == BLK && s.next.kind == NA && DuringFault(steps)
    ensures var e := After(s, steps); var k := LastAccepted(steps);
            && e.fault == High && e.cur.kind == BLK && e.bak == s.bak
            && (if k < 0 then e.next == s.next else Same(e.next, Asked(steps[k].command, e.next)) && e.next.kind != NA)
    decreases |steps|
  {
    if steps != [] {
      var before, step := steps[..|steps| - 1], steps[|steps| - 1];
      FaultHolds(s, before);
      hide Tick, Apply, AcceptedDuringFault, Asked, Same;
      match step {
        case Do(c) => CommandInFault(After(s, before), c);
        case Run(i) =>
          assert steps[|steps| - 1].Run?;
          TickInFault(After(s, before), i);
      }
    }
  }

  /** What is to be shown when a fault ends: what is pending, or else what was kept. */
  function Due(s: State): Disp {
    if s.next.kind == NA then s.bak else s.next
  }

  lemma FaultClears(s: State)
    requires s.Valid() && s.fault == High
    ensures Faults(s, false) == s.(cur := s.cur.Become(NA, 0), next := Due(s), ready := true, fault := Low,
                                   bak := if s.next.kind == NA then s.bak.Become(NA, 0) else s.bak)
  {}

  lemma LoadPicks(s: State)
    requires s.Valid() && s.cur.kind == NA
    ensures Load(s).fault == s.fault
    ensures s.ext.kind != EXT ==> Same(Load(s).cur, Settle(s.next))
    ensures s.ext.kind == EXT && s.next.kind == FSW ==> Load(s).cur == s.next && Load(s).ext == s.ext
    ensures s.ext.kind == EXT && s.next.kind != FSW ==> Load(s).cur == s.ext
  {}

  lemma FaultOver(s: State, i: Input)
    requires s.Valid() && s.fault == High && !i.fatal && !i.undefinedMsg
    ensures Tick(s, i).fault == Low
    ensures s.ext.kind != EXT ==> Same(Tick(s, i).cur, Settle(Due(s)))
    ensures s.ext.kind == EXT && Due(s).kind == FSW ==> Tick(s, i).cur == Due(s) && Tick(s, i).ext == s.ext
    ensures s.ext.kind == EXT && Due(s).kind != FSW ==> Tick(s, i).cur == s.ext
  {
    hide Load, Faults, Same, Settle;
    FaultClears(s);
    LoadPicks(Faults(s, false).(reload := false));
  }

  lemma SameSettled(a: Disp, b: Disp, c: Disp)
    requires |a.ids| > 0 && |b.ids| > 0 && Same(a, b) && Same(c, Settle(a))
    ensures Same(c, Settle(b))
  {}

  lemma Onset(s: State, i: Input)
    requires Sound(s, true) && s.fault == Low && i.fatal
    ensures var r := Tick(s, i);
            r.fault == High && r.cur.kind == BLK && r.next.kind == NA && r.bak == AtOnset(s) && r.ext == s.ext
  {}

  /** While a fault lasts, what is due when it ends is the last command accepted meanwhile, or else what was pending or
      showing at its onset. */
  lemma {:induction false} DueIsOutcome(s: State, onset: Input, steps: seq<Step>)
    requires Sound(s, true) && s.fault == Low && onset.fatal && DuringFault(steps)
    ensures var e := After(Tick(s, onset), steps);
            e.fault == High && Same(Due(e), Outcome(s, steps)) && (LastAccepted(steps) < 0 ==> Due(e) == AtOnset(s))
  {
    hide Tick, Asked, Same, AtOnset;
    Onset(s, onset);
    FaultHolds(Tick(s, onset), steps);
    var e := After(Tick(s, onset), steps);
    var k := LastAccepted(steps);
    if k >= 0 {
      SameAsked(steps[k].command, e.next, s.next);
      SameChain(e.next, Asked(steps[k].command, e.next), Asked(steps[k].command, s.next));
    } else {
      SameSelf(AtOnset(s));
    }
  }

  lemma SameSelf(a: Disp)
    requires |a.ids| > 0
    ensures Same(a, a)
  {}

  /** When the fault ends with no external input pending, the display is the last command accepted meanwhile, or else
      what was pending or showing at its onset. With one pending the external message comes first, unless the facility
      switch is due. */
  lemma {:induction false} FaultEnds(s: State, onset: Input, steps: seq<Step>, end: Input)
    requires Sound(s, true) && s.fault == Low && onset.fatal && DuringFault(steps) && !end.fatal && !end.undefinedMsg
    ensures var e := After(Tick(s, onset), steps); var r := Tick(e, end);
            && r.fault == Low
            && (e.ext.kind != EXT ==> Same(r.cur, Settle(Outcome(s, steps))))
            && (e.ext.kind == EXT ==>
                  if Outcome(s, steps).kind == FSW then Same(r.cur, Outcome(s, steps)) && r.ext == e.ext
                  else r.cur == e.ext)
  {
    var e := After(Tick(s, onset), steps);
    DueIsOutcome(s, onset, steps);
    OutcomeIsWhole(s, steps);
    hide Tick, Outcome, Settle, DuringFault, Sound;
    FaultOver(e, end);
    if e.ext.kind != EXT {
      SameSettled(Due(e), Outcome(s, steps), Tick(e, end).cur);
    }
  }

  lemma OutcomeIsWhole(s: State, steps: seq<Step>)
    requires s.Valid()
    ensures |Outcome(s, steps).ids| > 0
  {
    var k := LastAccepted(steps);
    if k >= 0 {
      SameAsked(steps[k].command, s.next, s.next);
    }
  }

  /** What a fault without commands does to the display: with nothing pending it comes back as it was, with something
      pending that is shown instead, and an external message has made way for what it had displaced. */
  lemma DisplayComesBack(s: State, onset: Input, end: Input)
    requires Sound(s, true) && s.fault == Low && onset.fatal && !end.fatal && !end.undefinedMsg && s.ext.kind != EXT
    requires s.next.kind != EXT && (s.cur.kind == EXT ==> Settled(s.bak))
    ensures var blank := Tick(s, onset); var r := Tick(blank, end);
            && blank.cur.kind == BLK && blank.next.kind == NA
            && if s.cur.kind == EXT then r.cur == s.bak
               else if s.next.kind == NA then r.cur == s.cur
               else r.cur == if s.next.kind in {FRM, MSG} && s.next.ids[0] == 0 then Disp(PLN, s.next.ids) else s.next
  {}

  /** A command that was pending when a fault began is shown when it ends, provided no external message was showing;
      otherwise it is lost, and what the external message had displaced is shown instead. */
  lemma PendingSurvives(s: State, onset: Input, end: Input)
    requires Sound(s, true) && s.fault == Low && onset.fatal && !end.fatal && !end.undefinedMsg
    requires s.next.kind !in {NA, EXT} && s.ext.kind != EXT
    ensures var r := Tick(Tick(s, onset), end);
            Same(r.cur, Settle(s.next)) <==> s.cur.kind != EXT || Same(Settle(s.bak), Settle(s.next))
  {
    assert After(Tick(s, onset), []) == Tick(s, onset);
    FaultEnds(s, onset, [], end);
  }

  /** The lost command: frame 5 accepted while external message 3 is shown over frame 1. */
  lemma PendingLost()
    ensures var s := State(Disp(EXT, [3]), Disp(FRM, [5]), Disp(FRM, [1]), Disp(NA, [0]), Low, false, false, true);
            var onset := Input(true, false, false, false, false);
            var end := Input(false, false, false, false, false);
            Sound(s, true) && Tick(Tick(s, onset), end).cur == Disp(FRM, [1])
  {}

  // ----- An external message, from start to end -----

  /** Steps while an external message is showing and its timer runs: no fault, no command, no new external input. */
  ghost predicate Undisturbed(steps: seq<Step>) {
    forall i :: 0 <= i < |steps| ==> steps[i].Run? && !steps[i].input.fatal && !steps[i].input.extExpired
  }

  lemma TickUndisturbed(s: State, i: Input)
    requires s.Valid() && s.fault == Low && s.cur.kind == EXT && s.next.kind == NA && s.ext.kind != EXT
    requires !i.fatal && !(s.timed && i.extExpired)
    ensures Tick(s, i) == s.(ready := i.ready, reload := if s.ready then false else s.reload)
  {}

  lemma {:induction false} ExternalStays(s: State, steps: seq<Step>)
    requires s.Valid() && s.fault == Low && s.cur.kind == EXT && s.timed && s.next.kind == NA && s.ext.kind != EXT
    requires Undisturbed(steps)
    ensures var e := After(s, steps);
            e.cur == s.cur && e.bak == s.bak && e.next == s.next && e.ext == s.ext && e.timed && e.fault == Low
    decreases |steps|
  {
    if steps != [] {
      hide Tick;
      ExternalStays(s, steps[..|steps| - 1]);
      assert steps[|steps| - 1].Run?;
      TickUndisturbed(After(s, steps[..|steps| - 1]), steps[|steps| - 1].input);
    }
  }

  lemma ExternalStarts(s: State, i: Input)
    requires s.Valid() && s.fault == Low && s.ready && s.ext.kind == EXT && s.next.kind == NA && !i.fatal
    requires !(s.cur.kind == EXT && s.timed && i.extExpired)
    ensures Tick(s, i) == s.(bak := s.cur, cur := s.ext, ext := s.ext.Become(NA, 0), reload := true, ready := i.ready)
  {}

  lemma ExternalExpires(s: State, i: Input)
    requires s.Valid() && s.fault == Low && s.ready && s.cur.kind == EXT && s.timed && i.extExpired && !i.fatal
    requires s.next.kind == NA && s.ext.kind != EXT && Settled(s.bak) && (s.bak.kind == EXT || !i.undefinedMsg)
    ensures var r := Tick(s, i);
            r.cur == s.bak && !r.timed && r.next.kind == NA && r.ext == s.ext && r.fault == Low
  {}

  /** An external message ends with the display it displaced, exactly as that was. */
  lemma {:induction false} ExternalGivesBack(s: State, start: Input, steps: seq<Step>, end: Input)
    requires Sound(s, true) && s.fault == Low && s.cur.kind != EXT && s.ext.kind == EXT && s.timed && s.next.kind == NA
    requires !start.fatal && s.ready && Undisturbed(steps)
    requires !end.fatal && end.extExpired && !end.undefinedMsg
    ensures var shown := After(Tick(s, start), steps);
            shown.cur == s.ext && (shown.ready ==> Tick(shown, end).cur == s.cur)
  {
    hide Tick;
    ExternalStarts(s, start);
    ExternalStays(Tick(s, start), steps);
    var shown := After(Tick(s, start), steps);
    if shown.ready {
      ExternalExpires(shown, end);
    }
  }

  /** An external message that displaces another comes back to it with the timer cleared: no later tick ends it. */
  lemma {:induction false} ExternalOverExternal(s: State, start: Input, end: Input, later: seq<Step>)
    requires Sound(s, true) && s.fault == Low && s.cur.kind == EXT && s.ext.kind == EXT && s.timed && s.next.kind == NA
    requires s.ready && !start.fatal && !start.extExpired && start.ready && !end.fatal && end.extExpired
    requires forall i :: 0 <= i < |later| ==> later[i].Run? && !later[i].input.fatal
    ensures var back := Tick(Tick(s, start), end);
            back.cur == s.cur && !back.timed && After(back, later).cur == s.cur
  {
    hide Tick;
    ExternalStarts(s, start);
    ExternalExpires(Tick(s, start), end);
    NothingEndsIt(Tick(Tick(s, start), end), later);
  }

  lemma {:induction false} NothingEndsIt(s: State, later: seq<Step>)
    requires s.Valid() && s.fault == Low && s.cur.kind == EXT && !s.timed && s.next.kind == NA && s.ext.kind != EXT
    requires forall i :: 0 <= i < |later| ==> later[i].Run? && !later[i].input.fatal
    ensures var e := After(s, later);
            e.cur == s.cur && !e.timed && e.next.kind == NA && e.ext.kind != EXT && e.fault == Low
    decreases |later|
  {
    if later != [] {
      hide Tick;
      NothingEndsIt(s, later[..|later| - 1]);
      assert later[|later| - 1].Run?;
      TickUndisturbed(After(s, later[..|later| - 1]), later[|later| - 1].input);
    }
  }
}
