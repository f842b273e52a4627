/** What the history of a slave bus says about frames on their way: sent, confirmed by every slave, and shown. */
module Delivery {
  import opened SlaveBus
  import opened Words
  import opened Wrappers

  // ----- One slave -----

  /** The last command to the slave put the frame with this checksum in the slot. */
  ghost predicate Pending(t: Trace, id: bv8, slot: Slot, crc: bv16)
    decreases |t|
  {
    t != [] &&
    var e := t[|t| - 1];
    if e.Reaches(id) then e.SetFrame? && e.slot == slot && e.crc == crc else Pending(t[..|t| - 1], id, slot, crc)
  }

  /** The frame with this checksum was put in the slot, a check found that every slave held what it had been sent before
      the slave was sent anything else, and the slot has been left alone since. */
  ghost predicate Confirmed(t: Trace, id: bv8, slot: Slot, crc: bv16)
    decreases |t|
  {
    t != [] &&
    var e := t[|t| - 1];
    || (e == CheckedNext(0) && Pending(t[..|t| - 1], id, slot, crc))
    || (!(e.SetFrame? && e.Reaches(id) && e.slot == slot) && Confirmed(t[..|t| - 1], id, slot, crc))
  }

  lemma {:induction false} PendingWasSet(t: Trace, id: bv8, slot: Slot, crc: bv16)
    requires Pending(t, id, slot, crc)
    ensures LastSet(t, id, slot) == crc && ToldNext(t, id) == slot
    decreases |t|
  {
    if !t[|t| - 1].Reaches(id) {
      PendingWasSet(t[..|t| - 1], id, slot, crc);
    }
  }

  lemma {:induction false} ConfirmedWasSet(t: Trace, id: bv8, slot: Slot, crc: bv16)
    requires Confirmed(t, id, slot, crc)
    ensures LastSet(t, id, slot) == crc
    decreases |t|
  {
    var e := t[|t| - 1];
    if e == CheckedNext(0) && Pending(t[..|t| - 1], id, slot, crc) {
      PendingWasSet(t[..|t| - 1], id, slot, crc);
    } else {
      ConfirmedWasSet(t[..|t| - 1], id, slot, crc);
    }
  }

  /** At time k slave i itself reports as received this slot with this checksum, and that is the frame last put there. */
  ghost predicate ReportsAt(kinds: seq<Kind>, i: nat, t: Trace, k: nat, slot: Slot, crc: bv16)
    requires i < |kinds| && k < |t|
  {
    && t[k].Reply? && Takes(kinds, t[k].data, i)
    && ReportIn(t[k].data).nextId == slot && ReportIn(t[k].data).nextCrc == crc
    && LastSet(t[..k], kinds[i].id, slot) == crc
  }

  /** The slot of the slave has been left alone from time c on. */
  ghost predicate LeftAlone(t: Trace, c: nat, id: bv8, slot: Slot) {
    forall j :: c <= j < |t| ==> !(t[j].SetFrame? && t[j].Reaches(id) && t[j].slot == slot)
  }

  lemma {:induction false} LastSetStays(t: Trace, k: nat, id: bv8, slot: Slot)
    requires k <= |t| && LeftAlone(t, k, id, slot)
    ensures LastSet(t[..k], id, slot) == LastSet(t, id, slot)
    decreases |t|
  {
    if k < |t| {
      var before := t[..|t| - 1];
      assert forall j :: k <= j < |before| ==> before[j] == t[j];
      LastSetStays(before, k, id, slot);
      assert before[..k] == t[..k];
    } else {
      assert t[..k] == t;
    }
  }

  /** A good check of a frame sent last: the reply it goes by arrived after the frame was put in the slot. */
  lemma {:induction false} HeldWasReported(kinds: seq<Kind>, i: nat, t: Trace, slot: Slot, crc: bv16)
    requires i < |kinds| && Clean(t) && HoldsWhatWasSet(kinds, i, t)
    requires ToldNext(t, kinds[i].id) == slot && LastSet(t, kinds[i].id, slot) == crc
    ensures exists k :: 0 <= k < |t| && ReportsAt(kinds, i, t, k, slot, crc) && LeftAlone(t, k, kinds[i].id, slot)
  {
    hide Takes, ReportIn;
    ReportIsRecent(kinds, i, t);
    var k: nat :| ArrivedAt(kinds, i, t, k, LastReport(kinds, i, t).value);
    LastSetStays(t, k, kinds[i].id, slot);
    assert ReportsAt(kinds, i, t, k, slot, crc);
  }

  /** What a confirmation is worth: after the frame was last put in the slot, the slave itself reported that slot with
      that checksum. */
  lemma {:induction false} ConfirmedWasReported(kinds: seq<Kind>, i: nat, t: Trace, slot: Slot, crc: bv16)
    requires i < |kinds| && !kinds[i].sim && ChecksAreSound(kinds, t)
    requires Confirmed(t, kinds[i].id, slot, crc)
    ensures exists k :: 0 <= k < |t| && ReportsAt(kinds, i, t, k, slot, crc) && LeftAlone(t, k, kinds[i].id, slot)
    decreases |t|
  {
    hide ReportsAt, LeftAlone, ChecksAreSound, Pending;
    var before, e := t[..|t| - 1], t[|t| - 1];
    SoundSoFar(kinds, t);
    if e == CheckedNext(0) && Pending(before, kinds[i].id, slot, crc) {
      GoodCheckWasReported(kinds, i, before, slot, crc);
      StillReported(kinds, i, before, e, slot, crc);
    } else {
      ConfirmedWasReported(kinds, i, before, slot, crc);
      StillReported(kinds, i, before, e, slot, crc);
    }
    assert before + [e] == t;
  }

  lemma {:induction false} SoundSoFar(kinds: seq<Kind>, t: Trace)
    requires ChecksAreSound(kinds, t) && t != []
    ensures ChecksAreSound(kinds, t[..|t| - 1])
    ensures t[|t| - 1] == CheckedNext(0) ==> Clean(t[..|t| - 1]) && AllNext(kinds, t[..|t| - 1]) == 0
  {}

  lemma {:induction false} GoodCheckWasReported(kinds: seq<Kind>, i: nat, t: Trace, slot: Slot, crc: bv16)
    requires i < |kinds| && !kinds[i].sim && Clean(t) && AllNext(kinds, t) == 0
    requires Pending(t, kinds[i].id, slot, crc)
    ensures exists k :: 0 <= k < |t| && ReportsAt(kinds, i, t, k, slot, crc) && LeftAlone(t, k, kinds[i].id, slot)
  {
    hide ReportsAt, LeftAlone, AllNext, Clean;
    NextCheckIsRight(kinds, t);
    PendingWasSet(t, kinds[i].id, slot, crc);
    HeldWasReported(kinds, i, t, slot, crc);
  }

  lemma StillReported(kinds: seq<Kind>, i: nat, t: Trace, e: Event, slot: Slot, crc: bv16)
    requires i < |kinds| && !(e.SetFrame? && e.Reaches(kinds[i].id) && e.slot == slot)
    requires exists k :: 0 <= k < |t| && ReportsAt(kinds, i, t, k, slot, crc) && LeftAlone(t, k, kinds[i].id, slot)
    ensures exists k :: 0 <= k < |t + [e]| && ReportsAt(kinds, i, t + [e], k, slot, crc)
                        && LeftAlone(t + [e], k, kinds[i].id, slot)
  {
    hide LastSet, Takes, ReportIn;
    var k :| 0 <= k < |t| && ReportsAt(kinds, i, t, k, slot, crc) && LeftAlone(t, k, kinds[i].id, slot);
    assert (t + [e])[..k] == t[..k];
    assert ReportsAt(kinds, i, t + [e], k, slot, crc);
  }

  // ----- All slaves at once -----

  ghost predicate AllPending(t: Trace, slot: Slot, crc: bv16) {
    forall id :: Pending(t, id, slot, crc)
  }

  ghost predicate AllHold(t: Trace, slot: Slot, crc: bv16) {
    forall id :: Confirmed(t, id, slot, crc)
  }

  ghost predicate AllShow(t: Trace, slot: Slot, crc: bv16) {
    forall id :: ToldCurrent(t, id) == slot && LastShown(t, id, slot) == crc
  }

  ghost predicate AllBlank(t: Trace) {
    forall id :: ToldCurrent(t, id) == 0
  }

  lemma Sent(t: Trace, slot: Slot, crc: bv16)
    ensures AllPending(t + [SetFrame(EVERY, slot, crc)], slot, crc)
  {}

  lemma PendingStays(t: Trace, e: Event, slot: Slot, crc: bv16)
    requires AllPending(t, slot, crc) && !e.IsCommand()
    ensures AllPending(t + [e], slot, crc)
  {
    assert (t + [e])[..|t|] == t;
  }

  /** A frame put in another slot has taken the place of the one on its way. */
  lemma OtherIsPending(t: Trace, slot: Slot, crc: bv16, other: Slot, was: bv16)
    requires slot != other
    ensures !AllPending(t + [SetFrame(EVERY, slot, crc)] + [Clear], other, was)
  {
    var t1 := t + [SetFrame(EVERY, slot, crc)];
    assert t1[..|t|] == t && (t1 + [Clear])[..|t1|] == t1;
    assert !Pending(t1, 1, other, was) && !Pending(t1 + [Clear], 1, other, was);
  }

  lemma Arrived(t: Trace, slot: Slot, crc: bv16)
    requires AllPending(t, slot, crc)
    ensures AllHold(t + [CheckedNext(0)], slot, crc)
  {
    assert (t + [CheckedNext(0)])[..|t|] == t;
  }

  lemma HoldStays(t: Trace, e: Event, slot: Slot, crc: bv16)
    requires AllHold(t, slot, crc) && !(e.SetFrame? && e.slot == slot)
    ensures AllHold(t + [e], slot, crc)
  {
    assert (t + [e])[..|t|] == t;
  }

  lemma NowShown(t: Trace, slot: Slot, crc: bv16)
    requires AllHold(t, slot, crc)
    ensures AllShow(t + [Show(EVERY, slot)], slot, crc)
  {
    var e := Show(EVERY, slot);
    assert (t + [e])[..|t|] == t;
    forall id ensures ToldCurrent(t + [e], id) == slot && LastShown(t + [e], id, slot) == crc {
      ConfirmedWasSet(t, id, slot, crc);
    }
  }

  lemma ShownStays(t: Trace, e: Event, slot: Slot, crc: bv16)
    requires AllShow(t, slot, crc) && !e.Show?
    ensures AllShow(t + [e], slot, crc)
  {
    assert (t + [e])[..|t|] == t;
  }

  lemma NowBlank(t: Trace)
    ensures AllBlank(t + [Show(EVERY, 0)])
  {}

  lemma BlankStays(t: Trace, e: Event)
    requires AllBlank(t) && !e.Show?
    ensures AllBlank(t + [e])
  {
    assert (t + [e])[..|t|] == t;
  }

  /** When a check of the display finds nothing wrong, every real slave has reported, after the last command to any
      slave, the slot it should show and the checksum of the frame it should show there. */
  lemma {:induction false} ShownIsSeen(kinds: seq<Kind>, i: nat, t: Trace, slot: Slot, crc: bv16)
    requires i < |kinds| && !kinds[i].sim
    requires AllShow(t, slot, crc) && Clean(t) && AllCurrent(kinds, t) == 0
    ensures LastReport(kinds, i, t).Some?
    ensures LastReport(kinds, i, t).value.currentId == slot && LastReport(kinds, i, t).value.currentCrc == crc
  {
    CurrentCheckIsRight(kinds, t);
    assert ShowsWhatWasAsked(kinds, i, t);
  }

  // ----- Every run -----

  /** No slave is ever told to show a slot, other than the blank one, unless it had confirmed the frame there. */
  ghost predicate ShowsAreReady(kinds: seq<Kind>, t: Trace)
    decreases |t|
  {
    t == [] || (ShowsAreReady(kinds, t[..|t| - 1]) && ShowIsReady(kinds, t[..|t| - 1], t[|t| - 1]))
  }

  ghost predicate ShowIsReady(kinds: seq<Kind>, t: Trace, e: Event) {
    e.Show? && e.slot != 0 ==>
      forall i :: 0 <= i < |kinds| && e.Reaches(kinds[i].id) ==> IsConfirmed(t, kinds[i].id, e.slot)
  }

  ghost predicate IsConfirmed(t: Trace, id: bv8, slot: Slot) {
    exists crc :: Confirmed(t, id, slot, crc)
  }

  lemma HeldIsReady(kinds: seq<Kind>, t: Trace, slot: Slot, crc: bv16)
    requires AllHold(t, slot, crc)
    ensures ShowIsReady(kinds, t, Show(EVERY, slot))
  {
    forall i | 0 <= i < |kinds| ensures IsConfirmed(t, kinds[i].id, slot) {
      assert Confirmed(t, kinds[i].id, slot, crc);
    }
  }

  ghost predicate CheckIsSound(kinds: seq<Kind>, t: Trace, e: Event) {
    && (e.CheckedCurrent? ==> Clean(t) && e.result == AllCurrent(kinds, t))
    && (e.CheckedNext? ==> Clean(t) && e.result == AllNext(kinds, t))
  }

  /** What the display tasks guarantee of the history of their bus. */
  ghost predicate Safe(kinds: seq<Kind>, t: Trace) {
    ChecksAreSound(kinds, t) && ShowsAreReady(kinds, t)
  }

  lemma SafeGrows(kinds: seq<Kind>, t: Trace, e: Event)
    requires Safe(kinds, t) && ShowIsReady(kinds, t, e) && CheckIsSound(kinds, t, e)
    ensures Safe(kinds, t + [e])
  {
    assert (t + [e])[..|t|] == t;
  }

  /** A show command keeps the history safe exactly when it is ready. */
  lemma SafeExactly(kinds: seq<Kind>, t: Trace, e: Event)
    requires Safe(kinds, t) && e.Show?
    ensures Safe(kinds, t + [e]) <==> ShowIsReady(kinds, t, e)
  {
    hide ShowIsReady;
    assert (t + [e])[..|t|] == t;
  }

  /** At time n slot 1 was shown on a safe history, and the history is still safe exactly if that was ready. */
  ghost predicate LitAt(kinds: seq<Kind>, t: Trace, n: nat) {
    && n < |t| && t[n] == Show(EVERY, 1) && Safe(kinds, t[..n])
    && (Safe(kinds, t) <==> ShowIsReady(kinds, t[..n], t[n]))
  }

  ghost predicate LitUp(kinds: seq<Kind>, t: Trace) {
    exists n: nat :: LitAt(kinds, t, n)
  }

  lemma LitNow(kinds: seq<Kind>, t: Trace)
    requires Safe(kinds, t)
    ensures LitUp(kinds, t + [Show(EVERY, 1)])
  {
    hide Safe, ShowIsReady;
    var e := Show(EVERY, 1);
    SafeExactly(kinds, t, e);
    assert (t + [e])[..|t|] == t;
    assert LitAt(kinds, t + [e], |t|);
  }

  lemma LitStays(kinds: seq<Kind>, t: Trace, e: Event)
    requires LitUp(kinds, t) && (e.Clear? || e.Backup?)
    ensures LitUp(kinds, t + [e])
  {
    var n: nat :| LitAt(kinds, t, n);
    assert (t + [e])[..|t|] == t && (t + [e])[..n] == t[..n];
    assert Safe(kinds, t + [e]) <==> Safe(kinds, t);
    hide Safe, ShowIsReady;
    assert LitAt(kinds, t + [e], n);
  }

  lemma {:induction false} NeverSetIsUnconfirmed(t: Trace, id: bv8, slot: Slot, crc: bv16)
    requires forall n :: 0 <= n < |t| && t[n].SetFrame? ==> t[n].slot != slot
    ensures !Confirmed(t, id, slot, crc) && !Pending(t, id, slot, crc)
    decreases |t|
  {
    if t != [] {
      NeverSetIsUnconfirmed(t[..|t| - 1], id, slot, crc);
    }
  }

  /** A slot that nobody has put a frame in is never ready. */
  lemma NeverSetIsNotReady(kinds: seq<Kind>, t: Trace, slot: Slot)
    requires kinds != [] && slot != 0
    requires forall n :: 0 <= n < |t| && t[n].SetFrame? ==> t[n].slot != slot
    ensures !ShowIsReady(kinds, t, Show(EVERY, slot))
  {
    forall crc ensures !Confirmed(t, kinds[0].id, slot, crc) {
      NeverSetIsUnconfirmed(t, kinds[0].id, slot, crc);
    }
    assert Show(EVERY, slot).Reaches(kinds[0].id) && !IsConfirmed(t, kinds[0].id, slot);
  }

  // ----- A load that has been overtaken -----

  /** A frame is on its way to slot 2 when somebody else blanks the slaves. */
  function BlankedOnTheWay(crc: bv16): Trace {
    [] + [SetFrame(EVERY, 2, crc)] + [Clear] + [Show(EVERY, 0)] + [Show(EVERY, 0)] + [Clear] + [Backup]
      + [Reply(BlankReply(1))]
  }

  lemma {:induction false} OneEventOn(kinds: seq<Kind>, t: Trace, e: Event)
    requires kinds == [Kind(1, false)]
    ensures ToldNext(t + [e], 1) == if e.Reaches(1) then e.slot else ToldNext(t, 1)
    ensures LastSet(t + [e], 1, 0) == if e.SetFrame? && e.Reaches(1) && e.slot == 0 then e.crc else LastSet(t, 1, 0)
    ensures LastReport(kinds, 0, t + [e])
         == if e.Reply? && Takes(kinds, e.data, 0) then Some(ReportIn(e.data))
            else if e.Clear? || e == Request(0) then None else LastReport(kinds, 0, t)
    ensures forall crc :: Confirmed(t + [e], 1, 2, crc) ==>
              (e == CheckedNext(0) && Pending(t, 1, 2, crc)) || Confirmed(t, 1, 2, crc)
    ensures forall crc :: Pending(t + [e], 1, 2, crc) ==> (e.SetFrame? && e.slot == 2) || !e.Reaches(1)
    ensures forall crc :: Pending(t + [e], 1, 2, crc) && !e.Reaches(1) ==> Pending(t, 1, 2, crc)
    ensures Clean(t + [e]) <==> e.Clear? || (!e.IsCommand() && Clean(t))
  {
    hide Takes, ReportIn;
    assert (t + [e])[..|t|] == t;
  }

  /** When the slaves then report what they were last told, the next check of received frames finds nothing wrong; but to
      show slot 2 after that check is to show a frame that no slave has confirmed. */
  lemma OvertakenLoadLooksDone(crc: bv16)
    ensures var kinds, t := [Kind(1, false)], BlankedOnTheWay(crc);
            && Clean(t) && AllNext(kinds, t) == 0
            && !ShowIsReady(kinds, t + [CheckedNext(0)], Show(EVERY, 2))
  {
    hide ReportIn, Clean, ToldNext, LastSet, LastReport, Confirmed, Pending;
    var kinds := [Kind(1, false)];
    var t1 := [] + [SetFrame(EVERY, 2, crc)];
    var t2 := t1 + [Clear];
    var t3 := t2 + [Show(EVERY, 0)];
    var t4 := t3 + [Show(EVERY, 0)];
    var t5 := t4 + [Clear];
    var t6 := t5 + [Backup];
    var t7 := t6 + [Reply(BlankReply(1))];
    NothingYet();
    OneEventOn(kinds, [], SetFrame(EVERY, 2, crc));
    OneEventOn(kinds, t1, Clear);
    OneEventOn(kinds, t2, Show(EVERY, 0));
    OneEventOn(kinds, t3, Show(EVERY, 0));
    OneEventOn(kinds, t4, Clear);
    OneEventOn(kinds, t5, Backup);
    OneEventOn(kinds, t6, Reply(BlankReply(1)));
    OneEventOn(kinds, t7, CheckedNext(0));
    BlankReplyReports(1);
    assert Takes(kinds, BlankReply(1), 0);
    assert LastSet(t7, 1, 0) == 0 && ToldNext(t7, 1) == 0;
    assert HoldsWhatWasSet(kinds, 0, t7);
    NextCheckIsRight(kinds, t7);
    assert forall c :: !Confirmed(t7 + [CheckedNext(0)], 1, 2, c);
    assert !IsConfirmed(t7 + [CheckedNext(0)], kinds[0].id, 2);
    assert Show(EVERY, 2).Reaches(kinds[0].id);
  }

  lemma NothingYet()
    ensures LastSet([], 1, 0) == 0 && forall crc :: !Confirmed([], 1, 2, crc)
  {}

  // ----- A load that another has taken the place of -----

  /** Events that are no commands: replies, polls, forgetting and checks. */
  predicate Quiet(q: Trace) {
    forall n :: 0 <= n < |q| ==> !q[n].IsCommand()
  }

  /** As long as nothing is sent, a slot gets confirmed by a good check only, and only when its frame was sent last. */
  lemma {:induction false} QuietConfirms(t: Trace, q: Trace, id: bv8, slot: Slot, crc: bv16)
    requires Quiet(q)
    ensures Pending(t + q, id, slot, crc) <==> Pending(t, id, slot, crc)
    ensures Confirmed(t + q, id, slot, crc) <==>
            Confirmed(t, id, slot, crc) || (Pending(t, id, slot, crc) && CheckedNext(0) in q)
    decreases |q|
  {
    if q == [] {
      assert t + q == t;
    } else {
      var before, e := q[..|q| - 1], q[|q| - 1];
      assert (t + q)[..|t + q| - 1] == t + before && q == before + [e];
      QuietConfirms(t, before, id, slot, crc);
    }
  }

  /** A load of slot a, and while no check finds it there, a load of slot b. */
  function Resent(t: Trace, a: Slot, c: bv16, q: Trace, b: Slot, d: bv16): Trace {
    t + [SetFrame(EVERY, a, c)] + q + [SetFrame(EVERY, b, d)]
  }

  lemma {:induction false} AfterResent(t: Trace, a: Slot, c: bv16, q: Trace, b: Slot, d: bv16, id: bv8, crc: bv16)
    requires Quiet(q) && CheckedNext(0) !in q
    ensures !Confirmed(Resent(t, a, c, q, b, d), id, a, crc)
    ensures Pending(Resent(t, a, c, q, b, d), id, a, crc) <==> a == b && crc == d
  {
    var t1 := t + [SetFrame(EVERY, a, c)];
    assert t1[..|t|] == t && !Confirmed(t1, id, a, crc);
    QuietConfirms(t1, q, id, a, crc);
    assert Resent(t, a, c, q, b, d)[..|t1 + q|] == t1 + q;
  }

  /** When the next check comes out good, slot a may be shown exactly if it was sent again, and not another. */
  lemma ResendDecides(kinds: seq<Kind>, t: Trace, a: Slot, c: bv16, q: Trace, b: Slot, d: bv16, rest: Trace)
    requires kinds != [] && a != 0 && Quiet(q) && CheckedNext(0) !in q && Quiet(rest) && CheckedNext(0) in rest
    ensures ShowIsReady(kinds, Resent(t, a, c, q, b, d) + rest, Show(EVERY, a)) <==> b == a
  {
    hide Confirmed, Pending, Resent;
    var r := Resent(t, a, c, q, b, d);
    forall id, crc ensures Confirmed(r + rest, id, a, crc) <==> a == b && crc == d {
      AfterResent(t, a, c, q, b, d, id, crc);
      QuietConfirms(r, rest, id, a, crc);
    }
    if b == a {
      HeldIsReady(kinds, r + rest, a, d);
    } else {
      assert Show(EVERY, a).Reaches(kinds[0].id) && !IsConfirmed(r + rest, kinds[0].id, a);
    }
  }

  function ReplyOf(id: bv8, slot: bv8, crc: (bv8, bv8)): seq<bv8> {
    [id, 0x06, 0, 0, 0, 0, 0, 0, 0, 0, 0, slot, crc.0, crc.1]
  }

  /** Slot 2 is being loaded, and the slave still reports slot 0. */
  function NotYetThere(crc2: bv16): Trace {
    [] + [SetFrame(EVERY, 2, crc2)] + [Clear] + [Reply(BlankReply(1))]
  }

  /** Slot 1 is loaded in its place, and arrives. */
  function LoadedInItsPlace(crc2: bv16, crc: (bv8, bv8)): Trace {
    NotYetThere(crc2) + [CheckedNext(1)] + [SetFrame(EVERY, 1, GetU16([crc.0, crc.1]))] + [Clear]
      + [Reply(ReplyOf(1, 1, crc))]
  }

  lemma {:induction false} OneSlaveHears(t: Trace, data: seq<bv8>)
    requires |data| == 14 && data[0] == 1 && data[1] == 0x06
    ensures var kinds := [Kind(1, false)];
            && LastReport(kinds, 0, t + [Reply(data)]) == Some(ReportIn(data))
            && (Clean(t + [Reply(data)]) <==> Clean(t))
            && ToldNext(t + [Reply(data)], 1) == ToldNext(t, 1)
            && forall slot :: LastSet(t + [Reply(data)], 1, slot) == LastSet(t, 1, slot)
  {
    hide ReportIn;
    assert (t + [Reply(data)])[..|t|] == t;
    assert Takes([Kind(1, false)], data, 0);
  }

  /** What a check of received frames comes to with one slave that has replied. */
  lemma {:induction false} OneSlaveChecked(t: Trace)
    requires Clean(t) && LastReport([Kind(1, false)], 0, t).Some?
    ensures AllNext([Kind(1, false)], t) == if HoldsWhatWasSet([Kind(1, false)], 0, t) then 0 else 1
  {
    var kinds := [Kind(1, false)];
    hide LastReport, Clean, LastSet, ToldNext, After, HoldsWhatWasSet;
    NextCheckIsRight(kinds, t);
    NextResults(kinds, t);
    ReportsAgree(kinds, 0, t);
    var results := seq(|kinds|, i requires 0 <= i < |kinds| => StNext(kinds[i], After(kinds, i, t)));
    assert |results| == 1 && results[0] == StNext(kinds[0], After(kinds, 0, t)) && results[1..] == [];
    assert AllNext(kinds, t) == FirstBad(results) == results[0] >= 0;
    assert kinds[0] == Kind(1, false);
    assert (forall i :: 0 <= i < |kinds| && !kinds[i].sim ==> HoldsWhatWasSet(kinds, i, t)) <==>
           HoldsWhatWasSet(kinds, 0, t);
  }

  lemma ReplyOfReports(id: bv8, slot: bv8, crc: (bv8, bv8))
    ensures ReportIn(ReplyOf(id, slot, crc)) == Report(0, 0, Number(slot), GetU16([crc.0, crc.1]))
  {
    var data := ReplyOf(id, slot, crc);
    assert data[9..11] == [0, 0] && data[12..14] == [crc.0, crc.1];
    assert GetU16([0, 0]) == 0;
  }

  /** So the load of slot 1 passes for that of slot 2: the check that ends it comes out good, and slot 2 is then shown
      unconfirmed. */
  lemma LostEntryLooksDone(crc2: bv16, crc: (bv8, bv8))
    ensures var kinds := [Kind(1, false)];
            && Clean(NotYetThere(crc2)) && AllNext(kinds, NotYetThere(crc2)) == 1
            && Clean(LoadedInItsPlace(crc2, crc)) && AllNext(kinds, LoadedInItsPlace(crc2, crc)) == 0
            && !ShowIsReady(kinds, LoadedInItsPlace(crc2, crc) + [CheckedNext(0)], Show(EVERY, 2))
  {
    hide ReportIn, Clean, ToldNext, LastSet, LastReport, AllNext, ShowIsReady, GetU16, Takes;
    var kinds := [Kind(1, false)];
    SlotIsAwaited([], 2, crc2);
    OneSlaveHears([] + [SetFrame(EVERY, 2, crc2)] + [Clear], BlankReply(1));
    BlankReplyReports(1);
    OneSlaveChecked(NotYetThere(crc2));
    var t := NotYetThere(crc2) + [CheckedNext(1)];
    var d := GetU16([crc.0, crc.1]);
    SlotIsAwaited(t, 1, d);
    OneSlaveHears(t + [SetFrame(EVERY, 1, d)] + [Clear], ReplyOf(1, 1, crc));
    ReplyOfReports(1, 1, crc);
    OneSlaveChecked(LoadedInItsPlace(crc2, crc));
    var q := [Clear, Reply(BlankReply(1)), CheckedNext(1)];
    var rest := [Clear, Reply(ReplyOf(1, 1, crc)), CheckedNext(0)];
    assert rest[2] == CheckedNext(0);
    assert LoadedInItsPlace(crc2, crc) + [CheckedNext(0)] == Resent([], 2, crc2, q, 1, d) + rest;
    ResendDecides(kinds, [], 2, crc2, q, 1, d, rest);
  }

  lemma {:induction false} SlotIsAwaited(t: Trace, slot: Slot, crc: bv16)
    ensures var t' := t + [SetFrame(EVERY, slot, crc)] + [Clear];
            Clean(t') && ToldNext(t', 1) == slot && LastSet(t', 1, slot) == crc
  {
    var t1 := t + [SetFrame(EVERY, slot, crc)];
    assert t1[..|t|] == t && (t1 + [Clear])[..|t1|] == t1;
  }

  // ----- Every run, seen from one slave -----

  /** Safety over a whole run: every show command, at the time it was sent, reached only real slaves that had themselves
      reported the frame last put in the slot, after it was put there. */
  lemma {:induction false} NothingIsShownUnseen(kinds: seq<Kind>, i: nat, t: Trace, n: nat)
    requires Safe(kinds, t) && n < |t| && i < |kinds| && !kinds[i].sim
    requires t[n].Show? && t[n].Reaches(kinds[i].id) && t[n].slot != 0
    ensures exists k :: 0 <= k < n && LeftAlone(t[..n], k, kinds[i].id, t[n].slot)
                        && ReportsAt(kinds, i, t[..n], k, t[n].slot, LastSet(t[..n], kinds[i].id, t[n].slot))
    decreases |t|
  {
    var before := t[..|t| - 1];
    if n < |t| - 1 {
      NothingIsShownUnseen(kinds, i, before, n);
      assert before[..n] == t[..n];
    } else {
      assert ShowIsReady(kinds, before, t[n]) && IsConfirmed(before, kinds[i].id, t[n].slot);
      var crc :| Confirmed(before, kinds[i].id, t[n].slot, crc);
      ConfirmedWasReported(kinds, i, before, t[n].slot, crc);
      ConfirmedWasSet(before, kinds[i].id, t[n].slot, crc);
      assert before == t[..n];
    }
  }
}
