/** The slave bus of one group: what `Slave` (src/sign/Slave.cpp) keeps of each slave, the commands and polls of
    src/sign/Group.cpp, and when a check that finds nothing wrong can be believed. */
module SlaveBus {
  import opened Words
  import opened Wrappers
  import C = Crc
  import H = Hex

  /** Frame slots of a slave; slot 0 is blank. */
  type Slot = n: int | 0 <= n < 7

  type Crcs = s: seq<bv16> | |s| == 7 witness [0, 0, 0, 0, 0, 0, 0]

  const EVERY: bv8 := 0xFF

  // ----- One slave -----

  /** The part of a status reply that names frames. */
  datatype Report = Report(currentId: int, currentCrc: bv16, nextId: int, nextCrc: bv16)

  datatype SlaveState = SlaveState(heard: bool, report: Report, expectCurrent: Slot, expectNext: Slot, bak: Slot,
                                   currentCrcs: Crcs, nextCrcs: Crcs, stCurrent: int, stNext: int)
  {
    predicate CurrentMatches() {
      report.currentId == expectCurrent && report.currentCrc == currentCrcs[expectCurrent]
    }

    predicate NextMatches() {
      report.nextId == expectNext && report.nextCrc == nextCrcs[expectNext]
    }

    /** 0 for a match, 1 for a slave that seems to have missed the last display command, 2 for one that may have been
        reset, 3 for one whose frames are lost. */
    function CheckCurrent(): int {
      if CurrentMatches() then 0
      else if expectCurrent != report.currentId && bak == report.currentId && currentCrcs[bak] == report.currentCrc then
        if report.currentId != 0 then 1 else 2
      else 3
    }

    function CheckNext(): int {
      if NextMatches() then 0 else 1
    }

    function Heard(r: Report): SlaveState {
      var s := this.(heard := true, report := r);
      s.(stCurrent := s.CheckCurrent(), stNext := s.CheckNext())
    }
  }

  const Silent := SlaveState(false, Report(0, 0, 0, 0), 0, 0, 0, [0, 0, 0, 0, 0, 0, 0], [0, 0, 0, 0, 0, 0, 0], -1, -1)

  function Number(b: bv8): int { b as int }

  function ReportIn(data: seq<bv8>): Report
    requires |data| == 14
  {
    Report(Number(data[8]), GetU16(data[9..11]), Number(data[11]), GetU16(data[12..14]))
  }

  /** Where a reply names the frames: bytes 8 and 11 are the slots, bytes 9 and 10, and 12 and 13, the checksums, the high
      byte first. */
  lemma ReportByBytes(data: seq<bv8>)
    requires |data| == 14
    ensures var r := ReportIn(data);
            && r.currentId == data[8] as int && r.currentCrc as int == 256 * data[9] as int + data[10] as int
            && r.nextId == data[11] as int && r.nextCrc as int == 256 * data[12] as int + data[13] as int
  {
    hide Word;
    BytesAsNumber(data[9], data[10]);
    BytesAsNumber(data[12], data[13]);
  }

  class Slave {
    const slaveId: bv8
    const isSimSlave: bool
    var rxStatus: bool
    var currentFrmId: int
    var currentFrmCrc: bv16
    var nextFrmId: int
    var nextFrmCrc: bv16
    var expectCurrentFrmId: Slot
    var expectNextFrmId: Slot
    var currentFrmIdBak: Slot
    var frmCurrentCrc: Crcs
    var frmNextCrc: Crcs
    var stCurrentCrc: int
    var stNextCrc: int

    constructor (id: bv8, sim: bool)
      ensures slaveId == id && isSimSlave == sim && View() == Silent
    {
      slaveId, isSimSlave := id, sim;
      rxStatus := false;
      currentFrmId, currentFrmCrc, nextFrmId, nextFrmCrc := 0, 0, 0, 0;
      expectCurrentFrmId, expectNextFrmId, currentFrmIdBak := 0, 0, 0;
      frmCurrentCrc, frmNextCrc := [0, 0, 0, 0, 0, 0, 0], [0, 0, 0, 0, 0, 0, 0];
      stCurrentCrc, stNextCrc := -1, -1;
    }

    ghost function View(): SlaveState
      reads this
    {
      SlaveState(rxStatus, Report(currentFrmId, currentFrmCrc, nextFrmId, nextFrmCrc), expectCurrentFrmId,
                 expectNextFrmId, currentFrmIdBak, frmCurrentCrc, frmNextCrc, stCurrentCrc, stNextCrc)
    }

    method DecodeStRpl(buf: seq<bv8>) returns (r: int)
      requires |buf| >= 2
      modifies this
      ensures r == if isSimSlave then 0 else if buf[0] != slaveId then -1 else if buf[1] != 0x06 then -2
                   else if |buf| != 14 then -3 else 0
      ensures View() == if r == 0 && !isSimSlave then old(View()).Heard(ReportIn(buf)) else old(View())
    {
      hide ReportIn;
      if isSimSlave {
        return 0;
      }
      if buf[0] != slaveId {
        return -1;
      }
      if buf[1] != 0x06 {
        return -2;
      }
      if |buf| != 14 {
        return -3;
      }
      rxStatus := true;
      TakeReport(buf);
      stCurrentCrc := CheckCurrent();
      stNextCrc := CheckNext();
      return 0;
    }

    method TakeReport(buf: seq<bv8>)
      requires |buf| == 14
      modifies this`currentFrmId, this`currentFrmCrc, this`nextFrmId, this`nextFrmCrc
      ensures View() == old(View()).(report := ReportIn(buf))
    {
      hide GetU16, Number;
      currentFrmId, currentFrmCrc := Number(buf[8]), GetU16(buf[9..11]);
      nextFrmId, nextFrmCrc := Number(buf[11]), GetU16(buf[12..14]);
    }

    method CheckCurrent() returns (r: int)
      ensures r == View().CheckCurrent()
    {
      if expectCurrentFrmId == currentFrmId && frmCurrentCrc[expectCurrentFrmId] == currentFrmCrc {
        return 0;
      }
      if expectCurrentFrmId != currentFrmId {
        if currentFrmIdBak == currentFrmId && frmCurrentCrc[currentFrmIdBak] == currentFrmCrc {
          if currentFrmId != 0 {
            return 1;
          } else {
            return 2;
          }
        }
      }
      return 3;
    }

    method CheckNext() returns (r: int)
      ensures r == View().CheckNext()
    {
      if expectNextFrmId == nextFrmId && frmNextCrc[expectNextFrmId] == nextFrmCrc {
        return 0;
      } else {
        return 1;
      }
    }

    /** What `SlaveSDFrame` notes of one slave. */
    method NoteShown(slot: Slot)
      modifies this`expectCurrentFrmId, this`expectNextFrmId, this`frmCurrentCrc
      ensures var s := old(View());
              View() == s.(expectCurrent := slot, expectNext := slot,
                           currentCrcs := s.currentCrcs[slot := s.nextCrcs[slot]])
    {
      expectCurrentFrmId := slot;
      expectNextFrmId := slot;
      frmCurrentCrc := frmCurrentCrc[slot := frmNextCrc[slot]];
    }

    function GetStCurrent(): int
      reads this
    {
      if isSimSlave then 0 else if !rxStatus then -1 else stCurrentCrc
    }

    function GetStNext(): int
      reads this
    {
      if isSimSlave then 0 else if !rxStatus then -1 else stNextCrc
    }
  }

  // ----- What happens on the bus -----

  datatype Kind = Kind(id: bv8, sim: bool)

  /** Commands and polls sent, replies received, the group forgetting replies (`Clear`) or noting what is on display
      (`Backup`), and the checks with what they found. */
  datatype Event =
    | SetFrame(to: bv8, slot: Slot, crc: bv16)
    | Show(to: bv8, slot: Slot)
    | Clear
    | Request(index: nat)
    | Reply(data: seq<bv8>)
    | Backup
    | CheckedNext(result: int)
    | CheckedCurrent(result: int)
  {
    predicate IsCommand() {
      SetFrame? || Show?
    }

    predicate Reaches(id: bv8) {
      IsCommand() && (to == EVERY || to == id)
    }
  }

  type Trace = seq<Event>

  predicate IsStatus(data: seq<bv8>) {
    |data| == 14 && data[1] == 0x06
  }

  /** Whether slave i takes a status reply: it is offered to one after the other, and a simulated slave takes all. */
  predicate Takes(kinds: seq<Kind>, data: seq<bv8>, i: nat): (takes: bool)
    requires i < |kinds|
    ensures takes ==> |data| == 14
  {
    && IsStatus(data)
    && (kinds[i].sim || kinds[i].id == data[0])
    && forall j :: 0 <= j < i ==> !kinds[j].sim && kinds[j].id != data[0]
  }

  function ApplyOne(kinds: seq<Kind>, i: nat, s: SlaveState, e: Event): SlaveState
    requires i < |kinds|
  {
    match e
    case SetFrame(to, slot, crc) =>
      if e.Reaches(kinds[i].id) then s.(expectNext := slot, nextCrcs := s.nextCrcs[slot := crc]) else s
    case Show(to, slot) =>
      if e.Reaches(kinds[i].id) then
        s.(expectCurrent := slot, expectNext := slot, currentCrcs := s.currentCrcs[slot := s.nextCrcs[slot]])
      else s
    case Clear => s.(heard := false)
    case Request(index) => if i == index then s.(heard := false) else s
    case Reply(data) => if Takes(kinds, data, i) && !kinds[i].sim then s.Heard(ReportIn(data)) else s
    case Backup => s.(bak := s.expectCurrent)
    case CheckedNext(_) => s
    case CheckedCurrent(_) => s
  }

  /** Slave i after everything in `t`. */
  ghost function After(kinds: seq<Kind>, i: nat, t: Trace): SlaveState
    requires i < |kinds|
    decreases |t|
  {
    if t == [] then Silent else ApplyOne(kinds, i, After(kinds, i, t[..|t| - 1]), t[|t| - 1])
  }

  lemma {:induction false} AfterGrows(kinds: seq<Kind>, i: nat, t: Trace, e: Event)
    requires i < |kinds|
    ensures After(kinds, i, t + [e]) == ApplyOne(kinds, i, After(kinds, i, t), e)
  {
    assert (t + [e])[..|t|] == t;
  }

  function StCurrent(k: Kind, s: SlaveState): int {
    if k.sim then 0 else if !s.heard then -1 else s.stCurrent
  }

  function StNext(k: Kind, s: SlaveState): int {
    if k.sim then 0 else if !s.heard then -1 else s.stNext
  }

  // ----- What the history says, told without the bookkeeping -----

  /** The slot a slave was last told to display. */
  ghost function ToldCurrent(t: Trace, id: bv8): Slot
    decreases |t|
  {
    if t == [] then 0
    else if t[|t| - 1].Show? && t[|t| - 1].Reaches(id) then t[|t| - 1].slot
    else ToldCurrent(t[..|t| - 1], id)
  }

  /** The slot of the last command to a slave. */
  ghost function ToldNext(t: Trace, id: bv8): Slot
    decreases |t|
  {
    if t == [] then 0
    else if t[|t| - 1].Reaches(id) then t[|t| - 1].slot
    else ToldNext(t[..|t| - 1], id)
  }

  /** The checksum of the frame last set in a slot of a slave. */
  ghost function LastSet(t: Trace, id: bv8, slot: Slot): bv16
    decreases |t|
  {
    if t == [] then 0
    else if t[|t| - 1].SetFrame? && t[|t| - 1].Reaches(id) && t[|t| - 1].slot == slot then t[|t| - 1].crc
    else LastSet(t[..|t| - 1], id, slot)
  }

  /** The checksum of the frame that was in a slot when the slave was last told to display that slot. */
  ghost function LastShown(t: Trace, id: bv8, slot: Slot): bv16
    decreases |t|
  {
    if t == [] then 0
    else if t[|t| - 1].Show? && t[|t| - 1].Reaches(id) && t[|t| - 1].slot == slot then LastSet(t, id, slot)
    else LastShown(t[..|t| - 1], id, slot)
  }

  /** What slave i last reported, if replies have not been forgotten and it has not been asked again since. */
  ghost function LastReport(kinds: seq<Kind>, i: nat, t: Trace): Option<Report>
    requires i < |kinds|
    decreases |t|
  {
    if t == [] then None
    else
      var e := t[|t| - 1];
      if e.Reply? && !kinds[i].sim && Takes(kinds, e.data, i) then Some(ReportIn(e.data))
      else if e.Clear? || e == Request(i) then None
      else LastReport(kinds, i, t[..|t| - 1])
  }

  /** Replies have been forgotten since the last command, if any. */
  ghost predicate Clean(t: Trace)
    decreases |t|
  {
    t == [] || t[|t| - 1].Clear? || (!t[|t| - 1].IsCommand() && Clean(t[..|t| - 1]))
  }

  lemma {:induction false} CleanGrows(t: Trace, e: Event)
    ensures Clean(t + [e]) <==> e.Clear? || (!e.IsCommand() && Clean(t))
  {
    assert (t + [e])[..|t|] == t;
  }

  lemma {:induction false} ExpectationsAgree(kinds: seq<Kind>, i: nat, t: Trace)
    requires i < |kinds|
    ensures After(kinds, i, t).expectCurrent == ToldCurrent(t, kinds[i].id)
    ensures After(kinds, i, t).expectNext == ToldNext(t, kinds[i].id)
    decreases |t|
  {
    hide Takes, ReportIn;
    if t != [] {
      ExpectationsAgree(kinds, i, t[..|t| - 1]);
    }
  }

  lemma {:induction false} SetChecksumsAgree(kinds: seq<Kind>, i: nat, t: Trace, slot: Slot)
    requires i < |kinds|
    ensures After(kinds, i, t).nextCrcs[slot] == LastSet(t, kinds[i].id, slot)
    decreases |t|
  {
    hide Takes, ReportIn, SlaveState.CheckCurrent, SlaveState.CheckNext;
    if t == [] {
      assert Silent.nextCrcs[slot] == 0;
    } else {
      SetChecksumsAgree(kinds, i, t[..|t| - 1], slot);
    }
  }

  lemma {:induction false} ShownChecksumsAgree(kinds: seq<Kind>, i: nat, t: Trace, slot: Slot)
    requires i < |kinds|
    ensures After(kinds, i, t).currentCrcs[slot] == LastShown(t, kinds[i].id, slot)
    decreases |t|
  {
    hide Takes, ReportIn, LastSet, SlaveState.CheckCurrent, SlaveState.CheckNext;
    if t == [] {
      assert Silent.currentCrcs[slot] == 0;
    } else {
      ShownChecksumsAgree(kinds, i, t[..|t| - 1], slot);
      SetChecksumsAgree(kinds, i, t, slot);
    }
  }

  lemma {:induction false} BookkeepingAgrees(kinds: seq<Kind>, i: nat, t: Trace, slot: Slot)
    requires i < |kinds|
    ensures After(kinds, i, t).expectCurrent == ToldCurrent(t, kinds[i].id)
    ensures After(kinds, i, t).expectNext == ToldNext(t, kinds[i].id)
    ensures After(kinds, i, t).nextCrcs[slot] == LastSet(t, kinds[i].id, slot)
    ensures After(kinds, i, t).currentCrcs[slot] == LastShown(t, kinds[i].id, slot)
  {
    ExpectationsAgree(kinds, i, t);
    SetChecksumsAgree(kinds, i, t, slot);
    ShownChecksumsAgree(kinds, i, t, slot);
  }

  lemma {:induction false} ReportsAgree(kinds: seq<Kind>, i: nat, t: Trace)
    requires i < |kinds|
    ensures var s := After(kinds, i, t);
            && (s.heard <==> LastReport(kinds, i, t).Some?)
            && (s.heard ==> s.report == LastReport(kinds, i, t).value)
            && (s.heard && Clean(t) ==>
                  (s.stCurrent == 0 <==> s.CurrentMatches()) && (s.stNext == 0 <==> s.NextMatches()))
            && (s.heard ==> 0 <= s.stCurrent && 0 <= s.stNext)
    decreases |t|
  {
    hide Takes, ReportIn;
    if t != [] {
      ReportsAgree(kinds, i, t[..|t| - 1]);
    }
  }

  /** The slot a slave had last been told to display when the group last noted what is on display. */
  ghost function ToldAtBackup(t: Trace, id: bv8): Slot
    decreases |t|
  {
    if t == [] then 0
    else if t[|t| - 1].Backup? then ToldCurrent(t[..|t| - 1], id)
    else ToldAtBackup(t[..|t| - 1], id)
  }

  lemma {:induction false} BackupAgrees(kinds: seq<Kind>, i: nat, t: Trace)
    requires i < |kinds|
    ensures After(kinds, i, t).bak == ToldAtBackup(t, kinds[i].id)
    decreases |t|
  {
    hide Takes, ReportIn;
    if t != [] {
      BackupAgrees(kinds, i, t[..|t| - 1]);
      ExpectationsAgree(kinds, i, t[..|t| - 1]);
    }
  }

  /** What a slave is found to be when its reply arrives, told by the history. On display: 0 with the slot it was last
      told to display and the checksum of what was put there, 1 or 2 when it still has the slot noted before, another
      one, with the checksum of what was put there, 2 if that slot is blank, and else 3. Received: 0 with the slot of
      the last command and the checksum of what was set there, else 1. */
  lemma {:induction false} VerdictOfReply(kinds: seq<Kind>, i: nat, t: Trace, data: seq<bv8>)
    requires i < |kinds| && !kinds[i].sim && Takes(kinds, data, i)
    ensures var s := After(kinds, i, t + [Reply(data)]);
            var r, id := ReportIn(data), kinds[i].id;
            var told, noted, last := ToldCurrent(t, id), ToldAtBackup(t, id), ToldNext(t, id);
            && s.heard
            && s.stCurrent == (if r.currentId == told && r.currentCrc == LastShown(t, id, told) then 0
                               else if r.currentId == noted != told && r.currentCrc == LastShown(t, id, noted)
                               then (if noted == 0 then 2 else 1)
                               else 3)
            && s.stNext == (if r.nextId == last && r.nextCrc == LastSet(t, id, last) then 0 else 1)
  {
    hide Takes, ReportIn;
    AfterGrows(kinds, i, t, Reply(data));
    BackupAgrees(kinds, i, t);
    BookkeepingAgrees(kinds, i, t, ToldCurrent(t, kinds[i].id));
    BookkeepingAgrees(kinds, i, t, ToldAtBackup(t, kinds[i].id));
    BookkeepingAgrees(kinds, i, t, ToldNext(t, kinds[i].id));
  }

  // ----- Checks -----

  /** The first result that is not 0. */
  function FirstBad(results: seq<int>): int {
    if results == [] then 0 else if results[0] != 0 then results[0] else FirstBad(results[1..])
  }

  lemma {:induction false} FirstBadIsNone(results: seq<int>)
    ensures FirstBad(results) == 0 <==> forall i :: 0 <= i < |results| ==> results[i] == 0
    ensures FirstBad(results) != 0 ==> FirstBad(results) in results
  {
    if results != [] && results[0] == 0 {
      FirstBadIsNone(results[1..]);
    }
  }

  /** It is the result of the first in order that is not 0. */
  lemma {:induction false} FirstBadIsFirst(results: seq<int>, k: nat)
    requires k < |results| && results[k] != 0 && forall j :: 0 <= j < k ==> results[j] == 0
    ensures FirstBad(results) == results[k]
    decreases k
  {
    if k > 0 {
      FirstBadIsFirst(results[1..], k - 1);
    }
  }

  ghost function AllCurrent(kinds: seq<Kind>, t: Trace): int {
    FirstBad(seq(|kinds|, i requires 0 <= i < |kinds| => StCurrent(kinds[i], After(kinds, i, t))))
  }

  ghost function AllNext(kinds: seq<Kind>, t: Trace): int {
    FirstBad(seq(|kinds|, i requires 0 <= i < |kinds| => StNext(kinds[i], After(kinds, i, t))))
  }

  /** A check of received frames finds nothing wrong, something wrong, or a slave that has not replied. */
  lemma NextResults(kinds: seq<Kind>, t: Trace)
    ensures -1 <= AllNext(kinds, t) <= 1
  {
    var results := seq(|kinds|, i requires 0 <= i < |kinds| => StNext(kinds[i], After(kinds, i, t)));
    forall i | 0 <= i < |kinds| ensures -1 <= results[i] <= 1 {
      OneNextResult(kinds, i, t);
    }
    FirstBadIsNone(results);
  }

  lemma {:induction false} OneNextResult(kinds: seq<Kind>, i: nat, t: Trace)
    requires i < |kinds|
    ensures -1 <= After(kinds, i, t).stNext <= 1
    decreases |t|
  {
    hide Takes, ReportIn;
    if t != [] {
      OneNextResult(kinds, i, t[..|t| - 1]);
    }
  }

  /** Slave i has reported on display the slot it was last told to display, and there the frame that was last set when
      it was told. */
  ghost predicate ShowsWhatWasAsked(kinds: seq<Kind>, i: nat, t: Trace)
    requires i < |kinds|
  {
    var told := ToldCurrent(t, kinds[i].id);
    LastReport(kinds, i, t).Some?
    && LastReport(kinds, i, t).value.currentId == told
    && LastReport(kinds, i, t).value.currentCrc == LastShown(t, kinds[i].id, told)
  }

  /** Slave i has reported as received the slot of the last command, with the frame last set there. */
  ghost predicate HoldsWhatWasSet(kinds: seq<Kind>, i: nat, t: Trace)
    requires i < |kinds|
  {
    var told := ToldNext(t, kinds[i].id);
    LastReport(kinds, i, t).Some?
    && LastReport(kinds, i, t).value.nextId == told
    && LastReport(kinds, i, t).value.nextCrc == LastSet(t, kinds[i].id, told)
  }

  /** A check of the display finds nothing wrong exactly when every real slave's last report is right, provided replies
      have been forgotten since the last command. */
  lemma {:induction false} CurrentCheckIsRight(kinds: seq<Kind>, t: Trace)
    requires Clean(t)
    ensures AllCurrent(kinds, t) == 0 <==>
            forall i :: 0 <= i < |kinds| && !kinds[i].sim ==> ShowsWhatWasAsked(kinds, i, t)
  {
    var results := seq(|kinds|, i requires 0 <= i < |kinds| => StCurrent(kinds[i], After(kinds, i, t)));
    FirstBadIsNone(results);
    forall i | 0 <= i < |kinds| && !kinds[i].sim ensures results[i] == 0 <==> ShowsWhatWasAsked(kinds, i, t) {
      ReportsAgree(kinds, i, t);
      BookkeepingAgrees(kinds, i, t, ToldCurrent(t, kinds[i].id));
    }
    assert forall i :: 0 <= i < |kinds| && kinds[i].sim ==> results[i] == 0;
    assert forall i :: 0 <= i < |kinds| ==> (results[i] == 0 <==> kinds[i].sim || ShowsWhatWasAsked(kinds, i, t));
  }

  /** The same of the check of received frames. */
  lemma {:induction false} NextCheckIsRight(kinds: seq<Kind>, t: Trace)
    requires Clean(t)
    ensures AllNext(kinds, t) == 0 <==>
            forall i :: 0 <= i < |kinds| && !kinds[i].sim ==> HoldsWhatWasSet(kinds, i, t)
  {
    var results := seq(|kinds|, i requires 0 <= i < |kinds| => StNext(kinds[i], After(kinds, i, t)));
    FirstBadIsNone(results);
    forall i | 0 <= i < |kinds| && !kinds[i].sim ensures results[i] == 0 <==> HoldsWhatWasSet(kinds, i, t) {
      ReportsAgree(kinds, i, t);
      BookkeepingAgrees(kinds, i, t, ToldNext(t, kinds[i].id));
    }
    assert forall i :: 0 <= i < |kinds| && kinds[i].sim ==> results[i] == 0;
    assert forall i :: 0 <= i < |kinds| ==> (results[i] == 0 <==> kinds[i].sim || HoldsWhatWasSet(kinds, i, t));
  }

  /** Slave i itself sent this report at time k, and no slave has been sent a command since. */
  ghost predicate ArrivedAt(kinds: seq<Kind>, i: nat, t: Trace, k: nat, report: Report)
    requires i < |kinds|
  {
    && k < |t| && t[k].Reply? && Takes(kinds, t[k].data, i) && ReportIn(t[k].data) == report
    && forall j :: k <= j < |t| ==> !t[j].IsCommand()
  }

  lemma ArrivedBefore(kinds: seq<Kind>, i: nat, t: Trace, k: nat, report: Report)
    requires i < |kinds| && t != [] && !t[|t| - 1].IsCommand() && ArrivedAt(kinds, i, t[..|t| - 1], k, report)
    ensures ArrivedAt(kinds, i, t, k, report)
  {
    hide Takes, ReportIn;
    var before := t[..|t| - 1];
    assert t[k] == before[k];
    assert forall j :: k <= j < |t| - 1 ==> t[j] == before[j];
  }

  /** A report that counts arrived after the last command to any slave. */
  lemma {:induction false} ReportIsRecent(kinds: seq<Kind>, i: nat, t: Trace)
    requires i < |kinds| && Clean(t) && LastReport(kinds, i, t).Some?
    ensures exists k: nat :: ArrivedAt(kinds, i, t, k, LastReport(kinds, i, t).value)
    decreases |t|
  {
    hide Takes, ReportIn;
    var e := t[|t| - 1];
    if e.Reply? && !kinds[i].sim && Takes(kinds, e.data, i) {
      assert ArrivedAt(kinds, i, t, |t| - 1, ReportIn(e.data));
    } else {
      hide ArrivedAt;
      ReportIsRecent(kinds, i, t[..|t| - 1]);
      var k: nat :| ArrivedAt(kinds, i, t[..|t| - 1], k, LastReport(kinds, i, t).value);
      ArrivedBefore(kinds, i, t, k, LastReport(kinds, i, t).value);
    }
  }

  /** Without forgetting the replies a check can be believed too early: the slave has reported slot 0, is then told to
      display slot 1, and the check finds nothing wrong. */
  lemma ForgettingIsNeeded(kinds: seq<Kind>, data: seq<bv8>)
    requires kinds == [Kind(1, false)] && |data| == 14 && data[0] == 1 && data[1] == 0x06
    requires ReportIn(data) == Report(0, 0, 0, 0)
    ensures var t := [Reply(data), Show(EVERY, 1)];
            !Clean(t) && AllCurrent(kinds, t) == 0 && !ShowsWhatWasAsked(kinds, 0, t)
  {
    var t := [Reply(data), Show(EVERY, 1)];
    assert t[..1] == [Reply(data)];
    assert t[..1][..0] == [];
    assert Takes(kinds, data, 0);
    var s0 := After(kinds, 0, []);
    assert After(kinds, 0, t[..1]) == s0.Heard(ReportIn(data));
    assert StCurrent(kinds[0], After(kinds, 0, t)) == 0;
    FirstBadIsNone(seq(1, i requires 0 <= i < |kinds| => StCurrent(kinds[i], After(kinds, i, t))));
    assert LastReport(kinds, 0, t[..1]) == Some(Report(0, 0, 0, 0));
  }

  // ----- Slaves in the shadow of others -----

  /** An earlier slave of the list takes every reply of slave i: a simulated one, or one with the same id, which the
      groups of the source rule out by the way they number their slaves. */
  predicate Shadowed(kinds: seq<Kind>, i: nat)
    requires i < |kinds|
  {
    exists j :: 0 <= j < i && (kinds[j].sim || kinds[j].id == kinds[i].id)
  }

  /** A slave in the shadow of another is never heard, and every check waits for it for ever. */
  lemma {:induction false} ShadowedIsNeverHeard(kinds: seq<Kind>, i: nat, t: Trace)
    requires i < |kinds| && !kinds[i].sim && Shadowed(kinds, i)
    ensures LastReport(kinds, i, t) == None
    ensures AllCurrent(kinds, t) != 0 && AllNext(kinds, t) != 0
    decreases |t|
  {
    if t != [] {
      ShadowedIsNeverHeard(kinds, i, t[..|t| - 1]);
    }
    ReportsAgree(kinds, i, t);
    var current := seq(|kinds|, i requires 0 <= i < |kinds| => StCurrent(kinds[i], After(kinds, i, t)));
    var next := seq(|kinds|, i requires 0 <= i < |kinds| => StNext(kinds[i], After(kinds, i, t)));
    FirstBadIsNone(current);
    FirstBadIsNone(next);
    assert current[i] == -1 && next[i] == -1;
  }

  function BlankReply(id: bv8): seq<bv8> {
    [id, 0x06, 0, 0, 0, 0, 0, 0, 0, 0, 0, 0, 0, 0]
  }

  lemma BlankReplyReports(id: bv8)
    ensures ReportIn(BlankReply(id)) == Report(0, 0, 0, 0)
  {
    var data := BlankReply(id);
    assert data[9..11] == [0, 0] && data[12..14] == [0, 0];
    assert GetU16([0, 0]) == 0;
  }

  /** The replies of the first n slaves to a poll before anything is sent. */
  function BlankReplies(kinds: seq<Kind>, n: nat): Trace
    requires n <= |kinds|
  {
    if n == 0 then [] else BlankReplies(kinds, n - 1) + [Reply(BlankReply(kinds[n - 1].id))]
  }

  lemma {:induction false} NothingSent(t: Trace, id: bv8, slot: Slot)
    requires forall k :: 0 <= k < |t| ==> t[k].Reply?
    ensures Clean(t) && ToldCurrent(t, id) == 0 && ToldNext(t, id) == 0
    ensures LastSet(t, id, slot) == 0 && LastShown(t, id, slot) == 0
    decreases |t|
  {
    if t != [] {
      NothingSent(t[..|t| - 1], id, slot);
    }
  }

  lemma {:induction false} OnlyReplies(kinds: seq<Kind>, n: nat, k: nat)
    requires n <= |kinds| && k < |BlankReplies(kinds, n)|
    ensures BlankReplies(kinds, n)[k].Reply?
    decreases n
  {
    if k < |BlankReplies(kinds, n - 1)| {
      OnlyReplies(kinds, n - 1, k);
    }
  }

  lemma {:induction false} ReplyIsHeard(kinds: seq<Kind>, i: nat, t: Trace, data: seq<bv8>)
    requires i < |kinds| && !kinds[i].sim
    ensures LastReport(kinds, i, t + [Reply(data)])
         == if Takes(kinds, data, i) then Some(ReportIn(data)) else LastReport(kinds, i, t)
  {
    hide Takes, ReportIn;
    assert (t + [Reply(data)])[..|t|] == t;
  }

  lemma UnshadowedTakes(kinds: seq<Kind>, i: nat)
    requires i < |kinds| && !Shadowed(kinds, i)
    ensures Takes(kinds, BlankReply(kinds[i].id), i)
  {}

  const BLANK := Some(Report(0, 0, 0, 0))

  lemma {:induction false} BlankReplyIsHeard(kinds: seq<Kind>, i: nat, t: Trace, n: nat)
    requires i < |kinds| && n < |kinds| && !kinds[i].sim && !Shadowed(kinds, i)
    ensures var report := LastReport(kinds, i, t + [Reply(BlankReply(kinds[n].id))]);
            report == BLANK || (n != i && report == LastReport(kinds, i, t))
  {
    hide ReportIn, Shadowed, Takes, LastReport, BlankReply;
    BlankReplyReports(kinds[n].id);
    ReplyIsHeard(kinds, i, t, BlankReply(kinds[n].id));
    UnshadowedTakes(kinds, i);
  }

  lemma {:induction false} BlankRepliesAreHeard(kinds: seq<Kind>, n: nat, i: nat)
    requires n <= |kinds| && i < |kinds| && !kinds[i].sim && !Shadowed(kinds, i)
    ensures var report := LastReport(kinds, i, BlankReplies(kinds, n)); report == BLANK || (report == None && n <= i)
    decreases n
  {
    if n > 0 {
      hide Shadowed, LastReport, BlankReply;
      BlankRepliesAreHeard(kinds, n - 1, i);
      BlankReplyIsHeard(kinds, i, BlankReplies(kinds, n - 1), n - 1);
    }
  }

  /** The checks of a group can find nothing wrong exactly when no real slave is in the shadow of another. */
  lemma ChecksCanPass(kinds: seq<Kind>)
    ensures (exists t :: AllCurrent(kinds, t) == 0 && AllNext(kinds, t) == 0) <==>
            forall i :: 0 <= i < |kinds| && !kinds[i].sim ==> !Shadowed(kinds, i)
  {
    hide LastReport, AllCurrent, AllNext, ToldCurrent, ToldNext, LastSet, LastShown, Clean, Shadowed, BlankReplies;
    if i :| 0 <= i < |kinds| && !kinds[i].sim && Shadowed(kinds, i) {
      forall t ensures AllCurrent(kinds, t) != 0 {
        ShadowedIsNeverHeard(kinds, i, t);
      }
    } else {
      var t := BlankReplies(kinds, |kinds|);
      forall k | 0 <= k < |t| ensures t[k].Reply? {
        OnlyReplies(kinds, |kinds|, k);
      }
      NothingSent(t, 0, 0);
      forall i | 0 <= i < |kinds| && !kinds[i].sim
        ensures ShowsWhatWasAsked(kinds, i, t) && HoldsWhatWasSet(kinds, i, t)
      {
        BlankRepliesAreHeard(kinds, |kinds|, i);
        NothingSent(t, kinds[i].id, 0);
      }
      CurrentCheckIsRight(kinds, t);
      NextCheckIsRight(kinds, t);
    }
  }

  /** Every check so far was made on a clean history and recorded what it found. */
  ghost predicate ChecksAreSound(kinds: seq<Kind>, t: Trace)
    decreases |t|
  {
    t == [] ||
    (ChecksAreSound(kinds, t[..|t| - 1])
     && (t[|t| - 1].CheckedCurrent? ==>
           Clean(t[..|t| - 1]) && t[|t| - 1].result == AllCurrent(kinds, t[..|t| - 1]))
     && (t[|t| - 1].CheckedNext? ==>
           Clean(t[..|t| - 1]) && t[|t| - 1].result == AllNext(kinds, t[..|t| - 1])))
  }

  /** Freshness: whenever a check came out as 0, every real slave had reported, after the last command to any slave, the
      slot asked for with the checksum of the frame last set there. */
  lemma {:induction false} GoodChecksAreFresh(kinds: seq<Kind>, t: Trace, k: nat, i: nat)
    requires ChecksAreSound(kinds, t) && k < |t| && i < |kinds| && !kinds[i].sim
    ensures t[k] == CheckedCurrent(0) ==> ShowsWhatWasAsked(kinds, i, t[..k]) && Clean(t[..k])
    ensures t[k] == CheckedNext(0) ==> HoldsWhatWasSet(kinds, i, t[..k]) && Clean(t[..k])
    decreases |t|
  {
    var before := t[..|t| - 1];
    if k < |t| - 1 {
      GoodChecksAreFresh(kinds, before, k, i);
      assert before[..k] == t[..k];
    } else if t[k] == CheckedCurrent(0) {
      CurrentCheckIsRight(kinds, before);
    } else if t[k] == CheckedNext(0) {
      NextCheckIsRight(kinds, before);
    }
  }
}
