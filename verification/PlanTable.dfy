/** The minute-of-week index of src/sign/Group.cpp (`plnMin`): which plan, and which entry of it, owns each of the
    10080 minutes of a week, kept by sweeps that wrap over midnight and over Saturday night. */
module PlanTable {
  import opened Bytes
  import opened Plans
  import opened Wrappers

  const DAYS_A_WEEK := 7
  const MINUTES_A_WEEK := DAYS_A_WEEK * DAY

  /** `plnId` 0 marks a free minute; the other two fields then mean nothing. */
  datatype PlnMinute = PlnMinute(plnId: byte, fmType: byte, fmId: byte)

  const FreeMinute := PlnMinute(0, 0, 0)

  type Table = t: seq<PlnMinute> | |t| == MINUTES_A_WEEK witness seq(MINUTES_A_WEEK, _ => FreeMinute)

  // ----- What a plan covers: the simple definition -----

  /** Bit d of the weekday mask; Sunday is day 0. */
  predicate OnDay(weekdays: byte, d: nat) {
    match d
    case 0 => weekdays % 2 == 1
    case 1 => weekdays / 2 % 2 == 1
    case 2 => weekdays / 4 % 2 == 1
    case 3 => weekdays / 8 % 2 == 1
    case 4 => weekdays / 16 % 2 == 1
    case 5 => weekdays / 32 % 2 == 1
    case 6 => weekdays / 64 % 2 == 1
    case _ => false
  }

  /** The mask of a day: 1 for Sunday, doubled each day. */
  function Mask(d: nat): (mask: nat)
    ensures mask > 0
  {
    if d == 0 then 1 else 2 * Mask(d - 1)
  }

  lemma {:induction false} DayIsBit(weekdays: byte, d: nat)
    requires d < DAYS_A_WEEK
    ensures OnDay(weekdays, d) <==> weekdays / Mask(d) % 2 == 1
  {
    match d {
      case 0 =>
      case 1 => MasksAre();
      case 2 => MasksAre();
      case 3 => MasksAre();
      case 4 => MasksAre();
      case 5 => MasksAre();
      case 6 => MasksAre();
    }
  }

  lemma MasksAre()
    ensures Mask(0) == 1 && Mask(1) == 2 && Mask(2) == 4 && Mask(3) == 8 && Mask(4) == 16 && Mask(5) == 32
            && Mask(6) == 64
  {
    assert Mask(2) == 2 * Mask(1) && Mask(4) == 2 * Mask(3) && Mask(6) == 2 * Mask(5);
  }

  function Worth(on: bool, value: nat): nat {
    if on then value else 0
  }

  /** The days of a mask add up to it: 1 for Sunday, 2 for Monday, and so on to 64 for Saturday. */
  lemma DaysAddUp(weekdays: byte)
    requires weekdays < 128
    ensures weekdays == Worth(OnDay(weekdays, 0), 1) + Worth(OnDay(weekdays, 1), 2) + Worth(OnDay(weekdays, 2), 4)
                        + Worth(OnDay(weekdays, 3), 8) + Worth(OnDay(weekdays, 4), 16) + Worth(OnDay(weekdays, 5), 32)
                        + Worth(OnDay(weekdays, 6), 64)
  {
    hide OnDay, Worth;
    Halves(weekdays);
    DayIsWorth(weekdays);
  }

  lemma DayIsWorth(weekdays: byte)
    ensures Worth(OnDay(weekdays, 0), 1) == weekdays % 2
    ensures Worth(OnDay(weekdays, 1), 2) == 2 * (weekdays / 2 % 2)
    ensures Worth(OnDay(weekdays, 2), 4) == 4 * (weekdays / 4 % 2)
    ensures Worth(OnDay(weekdays, 3), 8) == 8 * (weekdays / 8 % 2)
    ensures Worth(OnDay(weekdays, 4), 16) == 16 * (weekdays / 16 % 2)
    ensures Worth(OnDay(weekdays, 5), 32) == 32 * (weekdays / 32 % 2)
    ensures Worth(OnDay(weekdays, 6), 64) == 64 * (weekdays / 64 % 2)
  {}

  lemma Halves(w: nat)
    requires w < 128
    ensures w == w % 2 + 2 * (w / 2 % 2) + 4 * (w / 4 % 2) + 8 * (w / 8 % 2) + 16 * (w / 16 % 2) + 32 * (w / 32 % 2)
                 + 64 * (w / 64 % 2)
  {
    Halved(w, 2);
    Halved(w, 4);
    Halved(w, 8);
    Halved(w, 16);
    Halved(w, 32);
    Halved(w, 64);
    assert w / 64 < 2;
  }

  lemma Halved(w: nat, k: nat)
    requires k in {2, 4, 8, 16, 32, 64}
    ensures w / (k / 2) == 2 * (w / k) + w / (k / 2) % 2
  {}

  /** Minute `m` lies in the `d` minutes that begin at minute `s` of the week and may run on into the next week. */
  predicate InSpan(s: int, d: int, m: int) {
    s <= m < s + d || s <= m + MINUTES_A_WEEK < s + d
  }

  function Begin(day: nat, e: PlnEntry): nat {
    day * DAY + Minute(e.start)
  }

  /** Entry `e` of a plan in force on `day` covers minute `m`. */
  predicate EntryCovers(day: nat, e: PlnEntry, m: int)
    requires ValidEntry(e)
  {
    InSpan(Begin(day, e), Duration(e), m)
  }

  ghost predicate Covers(p: Plan, m: int)
    requires forall e :: e in p.entries ==> ValidEntry(e)
  {
    exists day, j :: 0 <= day < DAYS_A_WEEK && 0 <= j < |p.entries|
                     && OnDay(p.weekdays, day) && EntryCovers(day, p.entries[j], m)
  }

  function DayBefore(day: nat): nat {
    if day == 0 then DAYS_A_WEEK - 1 else day - 1
  }

  /** Entry j of a plan is in force at `hour`:`min` on `day`, by the clock: between its times on a day of the plan, or
      overnight, from its start on a day of the plan to its stop on the day after. */
  predicate InForce(p: Plan, j: nat, day: nat, hour: nat, min: nat)
    requires j < |p.entries|
  {
    var e := p.entries[j];
    var now, start, stop := 60 * hour + min, 60 * e.start.hour + e.start.min, 60 * e.stop.hour + e.stop.min;
    if start < stop then OnDay(p.weekdays, day) && start <= now < stop
    else (OnDay(p.weekdays, day) && start <= now) || (OnDay(p.weekdays, DayBefore(day)) && now < stop)
  }

  lemma EntryByTheClock(e: PlnEntry, from: nat, day: nat, hour: nat, min: nat)
    requires ValidEntry(e) && from < DAYS_A_WEEK && day < DAYS_A_WEEK && hour < 24 && min < 60
    ensures EntryCovers(from, e, (day * 24 + hour) * 60 + min) <==>
            var now, start, stop := 60 * hour + min, 60 * e.start.hour + e.start.min, 60 * e.stop.hour + e.stop.min;
            if start < stop then from == day && start <= now < stop
            else (from == day && start <= now) || (from == DayBefore(day) && now < stop)
  {
    SpanByTheClock(Minute(e.start), Duration(e), from, day, 60 * hour + min);
  }

  lemma SpanByTheClock(x: int, d: int, from: int, day: int, now: int)
    requires 0 <= x < DAY && 1 <= d <= DAY && 0 <= now < DAY && 0 <= from < DAYS_A_WEEK && 0 <= day < DAYS_A_WEEK
    ensures InSpan(from * DAY + x, d, day * DAY + now) <==>
            (from == day && x <= now < x + d) || (from == DayBefore(day) && now + DAY < x + d)
  {}

  /** A plan covers a minute of the week exactly when some entry is in force then. */
  lemma CoversByTheClock(p: Plan, day: nat, hour: nat, min: nat)
    requires forall e :: e in p.entries ==> ValidEntry(e)
    requires day < DAYS_A_WEEK && hour < 24 && min < 60
    ensures Covers(p, (day * 24 + hour) * 60 + min) <==> exists j :: 0 <= j < |p.entries| && InForce(p, j, day, hour, min)
  {
    hide OnDay, EntryCovers;
    var m := (day * 24 + hour) * 60 + min;
    forall from, j | 0 <= from < DAYS_A_WEEK && 0 <= j < |p.entries|
      ensures OnDay(p.weekdays, from) && EntryCovers(from, p.entries[j], m) ==> InForce(p, j, day, hour, min)
    {
      EntryByTheClock(p.entries[j], from, day, hour, min);
    }
    forall j | 0 <= j < |p.entries| && InForce(p, j, day, hour, min) ensures Covers(p, m) {
      EntryByTheClock(p.entries[j], day, day, hour, min);
      EntryByTheClock(p.entries[j], DayBefore(day), day, hour, min);
    }
  }

  // ----- What the filter of a single plan leaves open -----

  function NextDay(day: nat): nat {
    if day + 1 == DAYS_A_WEEK then 0 else day + 1
  }

  ghost predicate Meet(a: PlnEntry, day1: nat, b: PlnEntry, day2: nat)
    requires ValidEntry(a) && ValidEntry(b)
  {
    exists m :: 0 <= m < MINUTES_A_WEEK && EntryCovers(day1, a, m) && EntryCovers(day2, b, m)
  }

  /** Two entries that pass the filter still meet in the week, on the days `day1` of the earlier-listed and `day2` of
      the later-listed one, exactly when the first encloses the second on one day or when one runs past midnight into
      the other on the next day: the filter does not carry a plan's intervals over from one day to the next. */
  lemma FilteredEntriesMeet(a: PlnEntry, day1: nat, b: PlnEntry, day2: nat)
    requires ValidEntry(a) && ValidEntry(b) && !Clash(a, b)
    requires day1 < DAYS_A_WEEK && day2 < DAYS_A_WEEK
    ensures Meet(a, day1, b, day2) <==>
            || (day1 == day2 && StrictlyEncloses(a, b))
            || (day2 == NextDay(day1) && Minute(b.start) + DAY < Unrolled(a))
            || (day1 == NextDay(day2) && Minute(a.start) + DAY < Unrolled(b))
  {
    hide InSpan;
    forall m | 0 <= m < MINUTES_A_WEEK && EntryCovers(day1, a, m) && EntryCovers(day2, b, m)
      ensures (day1 == day2 && StrictlyEncloses(a, b))
              || (day2 == NextDay(day1) && Minute(b.start) + DAY < Unrolled(a))
              || (day1 == NextDay(day2) && Minute(a.start) + DAY < Unrolled(b))
    {
      SpansMeet(Minute(a.start), Unrolled(a), day1, Minute(b.start), Unrolled(b), day2, m);
    }
    if day1 == day2 && StrictlyEncloses(a, b) {
      BeginsInside(a, day1, b, day2);
    }
    if day2 == NextDay(day1) && Minute(b.start) + DAY < Unrolled(a) {
      BeginsInside(a, day1, b, day2);
    }
    if day1 == NextDay(day2) && Minute(a.start) + DAY < Unrolled(b) {
      BeginsInside(b, day2, a, day1);
    }
  }

  /** An entry that begins inside another meets it in its first minute. */
  lemma BeginsInside(a: PlnEntry, day1: nat, b: PlnEntry, day2: nat)
    requires ValidEntry(a) && ValidEntry(b) && day1 < DAYS_A_WEEK && day2 < DAYS_A_WEEK
    requires (day1 == day2 && Minute(a.start) <= Minute(b.start) < Unrolled(a))
             || (day2 == NextDay(day1) && Minute(b.start) + DAY < Unrolled(a))
    ensures Meet(a, day1, b, day2) && Meet(b, day2, a, day1)
  {
    hide InSpan, Duration, Unrolled;
    Lengths(a);
    Lengths(b);
    var m := Begin(day2, b);
    FirstMinuteInside(Minute(a.start), Unrolled(a), day1, Minute(b.start), Unrolled(b), day2);
    assert 0 <= m < MINUTES_A_WEEK && EntryCovers(day2, b, m) && EntryCovers(day1, a, m);
  }

  lemma Lengths(e: PlnEntry)
    requires ValidEntry(e)
    ensures 0 <= Minute(e.start) < DAY && Unrolled(e) == Minute(e.start) + Duration(e)
  {}

  lemma FirstMinuteInside(x: int, u: int, day1: int, y: int, v: int, day2: int)
    requires 0 <= x < DAY && x < u <= x + DAY && 0 <= y < DAY && y < v <= y + DAY
    requires 0 <= day1 < DAYS_A_WEEK && 0 <= day2 < DAYS_A_WEEK
    requires (day1 == day2 && x <= y < u) || (day2 == NextDay(day1) && y + DAY < u)
    ensures InSpan(day1 * DAY + x, u - x, day2 * DAY + y)
    ensures InSpan(day2 * DAY + y, v - y, day2 * DAY + y)
  {}

  /** The arithmetic: intervals [x, u) on one day and [y, v) on another, unrolled, that have minute `m` in common. */
  lemma SpansMeet(x: int, u: int, day1: int, y: int, v: int, day2: int, m: int)
    requires 0 <= x < DAY && x < u <= x + DAY && 0 <= y < DAY && y < v <= y + DAY
    requires 0 <= day1 < DAYS_A_WEEK && 0 <= day2 < DAYS_A_WEEK && 0 <= m < MINUTES_A_WEEK
    requires !((x >= y && x < v) || (u > y && u <= v))
    requires InSpan(day1 * DAY + x, u - x, m) && InSpan(day2 * DAY + y, v - y, m)
    ensures (day1 == day2 && x < y && v < u)
            || (day2 == NextDay(day1) && y + DAY < u)
            || (day1 == NextDay(day2) && x + DAY < v)
  {}

  /** A plan that is accepted although two of its entries claim the first minutes after midnight. */
  lemma FilterMissesMidnight()
    ensures var late := PlnEntry(EntryFrame, 1, Hm(23, 0), Hm(1, 0));
            var early := PlnEntry(EntryFrame, 2, Hm(0, 30), Hm(2, 0));
            ValidPlan(Plan(1, 0, 0x7F, [late, early], (0, 0))) && Meet(late, 0, early, 1)
  {
    var late := PlnEntry(EntryFrame, 1, Hm(23, 0), Hm(1, 0));
    var early := PlnEntry(EntryFrame, 2, Hm(0, 30), Hm(2, 0));
    assert !Clash(late, early);
    FilteredEntriesMeet(late, 0, early, 1);
  }

  // ----- Which entry a sweep leaves behind -----

  /** The last of the first `j` entries that covers `m` on `day`. */
  function OwnerInDay(p: Plan, day: nat, j: nat, m: int): Option<PlnEntry>
    requires j <= |p.entries| && forall e :: e in p.entries ==> ValidEntry(e)
  {
    if j == 0 then None
    else if EntryCovers(day, p.entries[j - 1], m) then Some(p.entries[j - 1])
    else OwnerInDay(p, day, j - 1, m)
  }

  /** The last entry that covers `m` on the first `days` days, in the order of the sweeps. */
  function Owner(p: Plan, days: nat, m: int): Option<PlnEntry>
    requires forall e :: e in p.entries ==> ValidEntry(e)
  {
    if days == 0 then None
    else if OnDay(p.weekdays, days - 1) && OwnerInDay(p, days - 1, |p.entries|, m).Some?
    then OwnerInDay(p, days - 1, |p.entries|, m)
    else Owner(p, days - 1, m)
  }

  function EntryOf(p: Plan, m: int): Option<PlnEntry>
    requires forall e :: e in p.entries ==> ValidEntry(e)
  {
    Owner(p, DAYS_A_WEEK, m)
  }

  lemma {:induction false} OwnerInDayExists(p: Plan, day: nat, j: nat, m: int)
    requires j <= |p.entries| && forall e :: e in p.entries ==> ValidEntry(e)
    ensures OwnerInDay(p, day, j, m).Some? <==> exists k :: 0 <= k < j && EntryCovers(day, p.entries[k], m)
  {
    if j > 0 {
      OwnerInDayExists(p, day, j - 1, m);
    }
  }

  lemma {:induction false} OwnerExists(p: Plan, days: nat, m: int)
    requires forall e :: e in p.entries ==> ValidEntry(e)
    ensures Owner(p, days, m).Some? <==>
            exists day, j :: 0 <= day < days && 0 <= j < |p.entries|
                             && OnDay(p.weekdays, day) && EntryCovers(day, p.entries[j], m)
  {
    if days > 0 {
      OwnerExists(p, days - 1, m);
      OwnerInDayExists(p, days - 1, |p.entries|, m);
    }
  }

  /** A sweep leaves an entry exactly at the minutes that the plan covers. */
  lemma EntryOfCovered(p: Plan, m: int)
    requires forall e :: e in p.entries ==> ValidEntry(e)
    ensures EntryOf(p, m).Some? <==> Covers(p, m)
  {
    OwnerExists(p, DAYS_A_WEEK, m);
  }

  lemma {:induction false} OwnerInDayCovers(p: Plan, day: nat, j: nat, m: int)
    requires j <= |p.entries| && forall e :: e in p.entries ==> ValidEntry(e)
    requires OwnerInDay(p, day, j, m).Some?
    ensures exists k :: 0 <= k < j && OwnerInDay(p, day, j, m).value == p.entries[k] && EntryCovers(day, p.entries[k], m)
  {
    if !EntryCovers(day, p.entries[j - 1], m) {
      OwnerInDayCovers(p, day, j - 1, m);
    }
  }

  lemma {:induction false} OwnerCovers(p: Plan, days: nat, m: int)
    requires (forall e :: e in p.entries ==> ValidEntry(e)) && Owner(p, days, m).Some?
    ensures exists day, k :: 0 <= day < days && 0 <= k < |p.entries| && Owner(p, days, m).value == p.entries[k]
                             && OnDay(p.weekdays, day) && EntryCovers(day, p.entries[k], m)
  {
    hide OnDay, EntryCovers;
    if OnDay(p.weekdays, days - 1) && OwnerInDay(p, days - 1, |p.entries|, m).Some? {
      OwnerInDayCovers(p, days - 1, |p.entries|, m);
    } else {
      OwnerCovers(p, days - 1, m);
    }
  }

  /** The entry a sweep leaves covers the minute. */
  lemma EntryOfCovers(p: Plan, m: int)
    requires (forall e :: e in p.entries ==> ValidEntry(e)) && EntryOf(p, m).Some?
    ensures exists day, k :: 0 <= day < DAYS_A_WEEK && 0 <= k < |p.entries| && EntryOf(p, m).value == p.entries[k]
                             && OnDay(p.weekdays, day) && EntryCovers(day, p.entries[k], m)
  {
    OwnerCovers(p, DAYS_A_WEEK, m);
  }

  // ----- The sweeps as functions of the table -----

  function Owned(id: byte, e: PlnEntry): PlnMinute {
    PlnMinute(id, e.fmType, e.fmId)
  }

  function Loaded(t: Table, id: byte, p: Plan): Table
    requires ValidPlan(p)
  {
    seq(MINUTES_A_WEEK, m requires 0 <= m < MINUTES_A_WEEK =>
      match EntryOf(p, m) case Some(e) => Owned(id, e) case None => t[m])
  }

  function Cleared(t: Table, p: Plan): Table
    requires ValidPlan(p)
  {
    seq(MINUTES_A_WEEK, m requires 0 <= m < MINUTES_A_WEEK =>
      if EntryOf(p, m).Some? then t[m].(plnId := 0) else t[m])
  }

  ghost predicate Taken(t: Table, p: Plan)
    requires ValidPlan(p)
  {
    exists m :: 0 <= m < MINUTES_A_WEEK && EntryOf(p, m).Some? && t[m].plnId != 0
  }

  // ----- The sweeps as they run -----

  /** The k-th minute of a span. */
  function MinuteAfter(s: nat, k: nat): nat {
    if s + k < MINUTES_A_WEEK then s + k else s + k - MINUTES_A_WEEK
  }

  /** The first minute after an entry's span, as the source computes it. */
  function Stop(day: nat, e: PlnEntry): nat {
    var start, stop := day * DAY + Minute(e.start), day * DAY + Minute(e.stop);
    if stop > start then stop
    else if stop + DAY >= MINUTES_A_WEEK then stop + DAY - MINUTES_A_WEEK
    else stop + DAY
  }

  lemma StopEndsSpan(day: nat, e: PlnEntry)
    requires ValidEntry(e) && day < DAYS_A_WEEK
    ensures Begin(day, e) < MINUTES_A_WEEK
    ensures Stop(day, e) == MinuteAfter(Begin(day, e), Duration(e))
    ensures forall k :: 0 < k < Duration(e) ==> MinuteAfter(Begin(day, e), k) != Stop(day, e)
  {}

  /** How far a sweep still has to go: (stop - start) modulo the length of the week, a full week when they are equal. */
  function Gap(start: nat, stop: nat): int {
    if start < stop then stop - start else stop - start + MINUTES_A_WEEK
  }

  class MinuteTable {
    const plnMin: array<PlnMinute>

    ghost predicate Valid() {
      plnMin.Length == MINUTES_A_WEEK
    }

    ghost function View(): Table
      requires Valid()
      reads plnMin
    {
      plnMin[..]
    }

    constructor ()
      ensures Valid() && fresh(plnMin)
      ensures View() == seq(MINUTES_A_WEEK, _ => FreeMinute)
    {
      plnMin := new PlnMinute[MINUTES_A_WEEK](_ => FreeMinute);
    }

    /** The do-while of `IsEnPlanOverlap` over one span. */
    method SpanTaken(start0: nat, stop: nat, ghost d: nat) returns (taken: bool)
      requires Valid() && start0 < MINUTES_A_WEEK && 1 <= d <= DAY
      requires stop == MinuteAfter(start0, d)
      ensures taken <==> exists m :: 0 <= m < MINUTES_A_WEEK && InSpan(start0, d, m) && plnMin[m].plnId != 0
    {
      var start := start0;
      ghost var k := 0;
      while true
        invariant 0 <= k < d && start == MinuteAfter(start0, k)
        invariant forall m :: 0 <= m < MINUTES_A_WEEK && InSpan(start0, k, m) ==> plnMin[m].plnId == 0
        decreases Gap(start, stop)
      {
        if plnMin[start].plnId != 0 {
          return true;
        }
        start := start + 1;
        if start == MINUTES_A_WEEK {
          start := 0;
        }
        k := k + 1;
        if start == stop {
          assert k == d;
          return false;
        }
      }
    }

    /** The do-while of `LoadPlanToPlnMin` over one span. */
    method LoadSpan(start0: nat, stop: nat, ghost d: nat, id: byte, e: PlnEntry)
      requires Valid() && start0 < MINUTES_A_WEEK && 1 <= d <= DAY
      requires stop == MinuteAfter(start0, d)
      modifies plnMin
      ensures forall m :: 0 <= m < MINUTES_A_WEEK ==>
                plnMin[m] == if InSpan(start0, d, m) then Owned(id, e) else old(plnMin[m])
    {
      var start := start0;
      ghost var k := 0;
      while true
        invariant 0 <= k < d && start == MinuteAfter(start0, k)
        invariant forall m :: 0 <= m < MINUTES_A_WEEK ==>
                    plnMin[m] == if InSpan(start0, k, m) then Owned(id, e) else old(plnMin[m])
        decreases Gap(start, stop)
      {
        plnMin[start] := PlnMinute(id, e.fmType, e.fmId);
        start := start + 1;
        if start == MINUTES_A_WEEK {
          start := 0;
        }
        k := k + 1;
        if start == stop {
          assert k == d;
          return;
        }
      }
    }

    /** The do-while of `DisablePlan` over one span. */
    method ClearSpan(start0: nat, stop: nat, ghost d: nat)
      requires Valid() && start0 < MINUTES_A_WEEK && 1 <= d <= DAY
      requires stop == MinuteAfter(start0, d)
      modifies plnMin
      ensures forall m :: 0 <= m < MINUTES_A_WEEK ==>
                plnMin[m] == if InSpan(start0, d, m) then old(plnMin[m]).(plnId := 0) else old(plnMin[m])
    {
      var start := start0;
      ghost var k := 0;
      while true
        invariant 0 <= k < d && start == MinuteAfter(start0, k)
        invariant forall m :: 0 <= m < MINUTES_A_WEEK ==>
                    plnMin[m] == if InSpan(start0, k, m) then old(plnMin[m]).(plnId := 0) else old(plnMin[m])
        decreases Gap(start, stop)
      {
        plnMin[start] := plnMin[start].(plnId := 0);
        start := start + 1;
        if start == MINUTES_A_WEEK {
          start := 0;
        }
        k := k + 1;
        if start == stop {
          assert k == d;
          return;
        }
      }
    }

    method IsEnPlanOverlap(p: Plan) returns (taken: bool)
      requires Valid() && ValidPlan(p)
      ensures taken == Taken(View(), p)
    {
      hide Begin, Stop, Duration, InSpan, OnDay;
      var week := 1;
      for i := 0 to DAYS_A_WEEK
        invariant week == Mask(i)
        invariant forall m :: 0 <= m < MINUTES_A_WEEK && Owner(p, i, m).Some? ==> plnMin[m].plnId == 0
      {
        DayIsBit(p.weekdays, i);
        if p.weekdays / week % 2 == 1 {
          for j := 0 to |p.entries|
            invariant forall m :: 0 <= m < MINUTES_A_WEEK && OwnerInDay(p, i, j, m).Some? ==> plnMin[m].plnId == 0
          {
            var entry := p.entries[j];
            StopEndsSpan(i, entry);
            taken := SpanTaken(Begin(i, entry), Stop(i, entry), Duration(entry));
            if taken {
              var m :| 0 <= m < MINUTES_A_WEEK && EntryCovers(i, entry, m) && plnMin[m].plnId != 0;
              assert Covers(p, m);
              EntryOfCovered(p, m);
              assert View()[m].plnId != 0;
              return;
            }
          }
        }
        week := 2 * week;
      }
      taken := false;
    }

    method LoadPlan(id: byte, p: Plan)
      requires Valid() && ValidPlan(p)
      modifies plnMin
      ensures View() == Loaded(old(View()), id, p)
    {
      hide Begin, Stop, Duration, InSpan, OnDay;
      var week := 1;
      for i := 0 to DAYS_A_WEEK
        invariant week == Mask(i)
        invariant forall m :: 0 <= m < MINUTES_A_WEEK ==>
                    plnMin[m] == match Owner(p, i, m) case Some(e) => Owned(id, e) case None => old(plnMin[m])
      {
        DayIsBit(p.weekdays, i);
        if p.weekdays / week % 2 == 1 {
          label Day:
          for j := 0 to |p.entries|
            invariant forall m :: 0 <= m < MINUTES_A_WEEK ==>
                        plnMin[m] == match OwnerInDay(p, i, j, m)
                                     case Some(e) => Owned(id, e)
                                     case None => old@Day(plnMin[m])
          {
            var entry := p.entries[j];
            StopEndsSpan(i, entry);
            LoadSpan(Begin(i, entry), Stop(i, entry), Duration(entry), id, entry);
          }
        }
        week := 2 * week;
      }
    }

    method ClearPlan(p: Plan)
      requires Valid() && ValidPlan(p)
      modifies plnMin
      ensures View() == Cleared(old(View()), p)
    {
      hide Begin, Stop, Duration, InSpan, OnDay;
      var week := 1;
      for i := 0 to DAYS_A_WEEK
        invariant week == Mask(i)
        invariant forall m :: 0 <= m < MINUTES_A_WEEK ==>
                    plnMin[m] == if Owner(p, i, m).Some? then old(plnMin[m]).(plnId := 0) else old(plnMin[m])
      {
        DayIsBit(p.weekdays, i);
        if p.weekdays / week % 2 == 1 {
          label Day:
          for j := 0 to |p.entries|
            invariant forall m :: 0 <= m < MINUTES_A_WEEK ==>
                        plnMin[m] == if OwnerInDay(p, i, j, m).Some? then old@Day(plnMin[m]).(plnId := 0)
                                     else old@Day(plnMin[m])
          {
            var entry := p.entries[j];
            StopEndsSpan(i, entry);
            ClearSpan(Begin(i, entry), Stop(i, entry), Duration(entry));
          }
        }
        week := 2 * week;
      }
    }

    /** `plnMin.fill`. */
    method Fill()
      requires Valid()
      modifies plnMin
      ensures View() == seq(MINUTES_A_WEEK, _ => FreeMinute)
    {
      forall m | 0 <= m < MINUTES_A_WEEK {
        plnMin[m] := FreeMinute;
      }
    }
  }
}
