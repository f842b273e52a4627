/** Twilight times (src/module/Tz_AU.cpp): for each day the four boundaries of dawn and dusk, interpolated between the
    tables of the two solstices. */
module Twilight {
  import opened Wrappers

  // ----- Tables -----

  const TW_JUN21 := 0
  const TW_DEC21 := 1

  /** Eight times in minutes: for June and then December the start and end of dawn and the start and end of dusk. */
  type Times = seq<int>

  ghost predicate Ordered(t: Times) {
    |t| == 8 && 0 <= t[0] < t[1] < t[2] < t[3] < 1440 && 0 <= t[4] < t[5] < t[6] < t[7] < 1440
  }

  function Minutes(h: int, m: int): int { h * 60 + m }

  /** The nine built-in tables. */
  const CITIES: seq<Times> := [
    [409, 436, 1040, 1067, 278, 307, 1161, 1190],
    [372, 397, 1022, 1047, 263, 289, 1122, 1149],
    [403, 426, 1110, 1133, 355, 379, 1150, 1173],
    [415, 443, 1032, 1060, 269, 298, 1169, 1199],
    [392, 420, 1014, 1041, 251, 280, 1146, 1175],
    [404, 432, 1018, 1047, 255, 285, 1158, 1188],
    [426, 455, 1028, 1058, 263, 295, 1182, 1213],
    [429, 461, 1002, 1035, 232, 267, 1188, 1223],
    [401, 428, 1033, 1060, 272, 300, 1154, 1182]]

  lemma CitiesAreOrdered(i: nat)
    requires i < |CITIES|
    ensures Ordered(CITIES[i])
  {}

  // ----- The calendar -----

  predicate Leap(y: nat) {
    y % 4 == 0 && (y % 100 != 0 || y % 400 == 0)
  }

  /** Days from 1 January of year 1 to 1 January of year y. */
  function DaysBefore(y: nat): int
    requires y > 0
  {
    365 * (y - 1) + (y - 1) / 4 - (y - 1) / 100 + (y - 1) / 400
  }

  lemma YearLength(y: nat)
    requires y > 0
    ensures DaysBefore(y + 1) == DaysBefore(y) + if Leap(y) then 366 else 365
  {
    Carry(y, 4);
    Carry(y, 100);
    Carry(y, 400);
    assert y % 4 == 0 || y % 100 != 0;
    assert y % 100 == 0 || y % 400 != 0;
  }

  lemma Carry(y: nat, n: nat)
    requires y > 0 && n > 0
    ensures y / n == (y - 1) / n + if y % n == 0 then 1 else 0
  {
    var q, r := (y - 1) / n, (y - 1) % n;
    assert y == n * q + (r + 1);
    if r + 1 == n {
      assert y == n * (q + 1);
      Quotient(y, n, q + 1, 0);
    } else {
      Quotient(y, n, q, r + 1);
    }
  }

  lemma Quotient(y: nat, n: nat, q: nat, r: nat)
    requires n > 0 && y == n * q + r && r < n
    ensures y / n == q && y % n == r
  {
    var q', r' := y / n, y % n;
    assert n * q' + r' == n * q + r;
    if q' < q {
      Larger(q', q, n);
    } else if q' > q {
      Larger(q, q', n);
    }
  }

  function Jun21(y: nat): int { if Leap(y) then 172 else 171 }

  function Dec21(y: nat): int { if Leap(y) then 355 else 354 }

  function YearDays(y: nat): int { if Leap(y) then 366 else 365 }

  predicate IsDay(y: nat, yday: int) {
    y > 0 && 0 <= yday < YearDays(y)
  }

  /** The last solstice, today included, and the next, as days counted from year 1. */
  function LastSolstice(y: nat, yday: int): int
    requires y > 1
  {
    if yday < Jun21(y) then DaysBefore(y - 1) + Dec21(y - 1)
    else if yday <= Dec21(y) then DaysBefore(y) + Jun21(y)
    else DaysBefore(y) + Dec21(y)
  }

  function NextSolstice(y: nat, yday: int): int
    requires y > 1
  {
    if yday < Jun21(y) then DaysBefore(y) + Jun21(y)
    else if yday <= Dec21(y) then DaysBefore(y) + Dec21(y)
    else DaysBefore(y + 1) + Jun21(y + 1)
  }

  // ----- The day count of the source -----

  /** Between which tables a day lies, how far it is from the first, and how far they are apart. */
  datatype Place = Place(start: nat, end: nat, days: int, half: int)

  /** The branches of `GetTwilightStatus`; a year is taken for a leap year when it is divisible by four. */
  function PlaceOf(y: nat, yday: int): Place {
    var half := if (yday < Jun21(y) && y % 4 != 0) || (yday > Dec21(y) && y % 4 != 3) then 182 else 183;
    if yday < Jun21(y) then Place(TW_DEC21, TW_JUN21, half - (Jun21(y) - yday), half)
    else if yday > Dec21(y) then Place(TW_DEC21, TW_JUN21, yday - Dec21(y), half)
    else Place(TW_JUN21, TW_DEC21, yday - Jun21(y), half)
  }

  /** The year whose first two months the half year contains, if it does. */
  function YearCrossed(y: nat, yday: int): Option<nat> {
    if yday < Jun21(y) then Some(y) else if yday > Dec21(y) then Some(y + 1) else None
  }

  /** A year that is divisible by four and yet no leap year, as 1900 and 2100. */
  predicate IsException(y: nat) {
    y % 4 == 0 && !Leap(y)
  }

  /** The solstices by the calendar: 21 June and 21 December, where day 0 is 1 January. */
  lemma SolsticesByMonths(y: nat)
    ensures var february := if Leap(y) then 29 else 28;
            && Jun21(y) == 31 + february + 31 + 30 + 31 + (21 - 1)
            && Dec21(y) == 31 + february + 31 + 30 + 31 + 30 + 31 + 31 + 30 + 31 + 30 + (21 - 1)
            && YearDays(y) == 31 + february + 31 + 30 + 31 + 30 + 31 + 31 + 30 + 31 + 30 + 31
  {}

  /** The half year and the day count of the calendar. */
  function HalfYear(y: nat, yday: int): int
    requires y > 1
  {
    NextSolstice(y, yday) - LastSolstice(y, yday)
  }

  function DaysSince(y: nat, yday: int): int
    requires y > 1
  {
    DaysBefore(y) + yday - LastSolstice(y, yday)
  }

  /** Whether the half year contains the start of an exceptional year. */
  predicate OffCalendar(y: nat, yday: int) {
    YearCrossed(y, yday).Some? && IsException(YearCrossed(y, yday).value)
  }

  /** The day count and the half year against the calendar: in a half year that contains the start of an exceptional year
      the half year is a day too long, and the count is a day too high from New Year on. */
  lemma DayCount(y: nat, yday: int)
    requires y > 1 && IsDay(y, yday)
    ensures var p := PlaceOf(y, yday);
            && p.half == HalfYear(y, yday) + (if OffCalendar(y, yday) then 1 else 0)
            && p.days == DaysSince(y, yday) + (if OffCalendar(y, yday) && yday < Jun21(y) then 1 else 0)
  {
    if yday < Jun21(y) {
      YearLength(y - 1);
      LeapByFour(y);
    } else if yday > Dec21(y) {
      YearLength(y);
      LeapByFour(y + 1);
      assert (y + 1) % 4 == 0 <==> y % 4 == 3;
    }
    hide DaysBefore, Leap;
  }

  /** They are those of the calendar exactly when the half year does not contain the start of an exceptional year. */
  lemma DayCountIsRight(y: nat, yday: int)
    requires y > 1 && IsDay(y, yday)
    ensures var p := PlaceOf(y, yday); var crossed := YearCrossed(y, yday);
            var today := DaysBefore(y) + yday;
            (p.half == NextSolstice(y, yday) - LastSolstice(y, yday) && p.days == today - LastSolstice(y, yday))
            <==> !(crossed.Some? && IsException(crossed.value))
  {
    hide DaysBefore, PlaceOf, NextSolstice, LastSolstice, YearCrossed, IsException;
    DayCount(y, yday);
  }

  lemma LeapByFour(y: nat)
    ensures Leap(y) ==> y % 4 == 0
  {}

  lemma NoException(y: nat)
    requires 1901 <= y <= 2099
    ensures !IsException(y)
  {}

  /** From 1901 to 2099 the day count is that of the calendar, but for the last ten days of 2099. */
  lemma DayCountOfTheCentury(y: nat, yday: int)
    requires 1901 <= y <= 2099 && IsDay(y, yday)
    ensures var p := PlaceOf(y, yday);
            0 <= p.days <= p.half
            && (y < 2099 || yday <= Dec21(y) ==>
                  p.half == NextSolstice(y, yday) - LastSolstice(y, yday)
                  && p.days == DaysBefore(y) + yday - LastSolstice(y, yday))
  {
    DayCountIsRight(y, yday);
    NoException(y);
    if y < 2099 {
      NoException(y + 1);
    }
    hide DaysBefore, Leap, IsException;
  }

  /** The day count grows by one a day, across New Year as well, until the next solstice, where it starts again. */
  lemma DayCountGrows(y: nat, yday: int)
    requires 1901 <= y < 2099 && IsDay(y, yday)
    ensures var next := if yday + 1 < YearDays(y) then PlaceOf(y, yday + 1) else PlaceOf(y + 1, 0);
            var p := PlaceOf(y, yday);
            if yday == Dec21(y) then p.days == p.half && next == Place(TW_DEC21, TW_JUN21, 1, next.half)
            else if yday + 1 == Jun21(y) then p.days + 1 == p.half && next == Place(TW_JUN21, TW_DEC21, 0, 183)
            else next == p.(days := p.days + 1)
  {}

  // ----- Interpolation -----

  /** Integer division as in C. */
  function TDiv(a: int, b: int): int
    requires b > 0
  {
    if a >= 0 then a / b else -((-a) / b)
  }

  lemma TDivBounds(a: int, b: int)
    requires b > 0
    ensures -b < TDiv(a, b) * b - a < b
    ensures a >= 0 ==> 0 <= TDiv(a, b) * b <= a
    ensures a <= 0 ==> a <= TDiv(a, b) * b <= 0
  {
    if a < 0 {
      DivBounds(-a, b);
      Negated((-a) / b, b);
    } else {
      DivBounds(a, b);
    }
  }

  lemma DivBounds(a: nat, b: nat)
    requires b > 0
    ensures 0 <= a - (a / b) * b < b && a / b >= 0 && 0 <= (a / b) * b
  {
    assert a == (a / b) * b + a % b;
  }

  lemma Negated(q: int, b: int)
    ensures (-q) * b == -(q * b)
  {}

  /** A boundary in seconds of standard time, `days` into a half year, between `s` and `e` minutes. */
  function Boundary(s: int, e: int, days: int, half: int): int
    requires half > 0
  {
    s * 60 + TDiv((e - s) * 60 * days, half)
  }

  /** At both ends a boundary is that of the table, which is what the source assigns on the solstices themselves. */
  lemma BoundaryAtSolstice(s: int, e: int, half: int)
    requires half > 0
    ensures Boundary(s, e, 0, half) == s * 60
    ensures Boundary(s, e, half, half) == e * 60
  {
    var a := (e - s) * 60;
    TDivBounds(a * half, half);
    ExactQuotient(a, half, TDiv(a * half, half));
  }

  lemma ExactQuotient(a: int, half: int, q: int)
    requires half > 0 && -half < q * half - a * half < half
    ensures q == a
  {
    if q > a {
      Larger(a, q, half);
    } else if q < a {
      Larger(q, a, half);
    }
  }

  lemma Larger(a: int, b: int, half: int)
    requires a < b && half > 0
    ensures a * half + half <= b * half
  {
    assert b * half == a * half + (b - a) * half;
    assert (b - a) * half == (b - a - 1) * half + half;
    assert (b - a - 1) * half >= 0;
  }

  /** A boundary lies between its two solstice values. */
  lemma BoundaryIsBetween(s: int, e: int, days: int, half: int)
    requires 0 <= days <= half && half > 0
    ensures s <= e ==> s * 60 <= Boundary(s, e, days, half) <= e * 60
    ensures e <= s ==> e * 60 <= Boundary(s, e, days, half) <= s * 60
  {
    var c := (e - s) * 60;
    var q := TDiv(c * days, half);
    TDivBounds(c * days, half);
    if c >= 0 {
      Scale(c, days, half);
      Within(q, c, half);
    } else {
      Scale(-c, days, half);
      assert (-c) * days == -(c * days) && (-c) * half == -(c * half);
      assert (-q) * half == -(q * half);
      Within(-q, -c, half);
    }
  }

  lemma Scale(c: int, days: int, half: int)
    requires c >= 0 && 0 <= days <= half
    ensures 0 <= c * days <= c * half
  {
    assert c * half == c * days + c * (half - days);
  }

  lemma Within(q: int, c: int, half: int)
    requires half > 0 && 0 <= q * half <= c * half
    ensures 0 <= q <= c
  {
    if q < 0 {
      AtMost(q, -1, half);
    } else if q > c {
      Larger(c, q, half);
    }
  }

  /** Two boundaries stay strictly in order, although each is cut to whole seconds towards zero: a minute apart at both
      ends leaves at least 59 seconds. */
  lemma BoundariesStayOrdered(s1: int, e1: int, s2: int, e2: int, days: int, half: int)
    requires s1 < s2 && e1 < e2 && 0 <= days <= half && half > 0
    ensures Boundary(s1, e1, days, half) + 59 <= Boundary(s2, e2, days, half)
  {
    var a1, a2 := (e1 - s1) * 60 * days, (e2 - s2) * 60 * days;
    var q1, q2 := TDiv(a1, half), TDiv(a2, half);
    var d := 60 * (s2 - s1) + q2 - q1;
    TDivBounds(a1, half);
    TDivBounds(a2, half);
    Mixed(s2 - s1, e2 - e1, days, half);
    Difference(s1, e1, s2, e2, days);
    Expanded(s2 - s1, q1, q2, half);
    if d <= 58 {
      AtMost(d, 58, half);
    }
  }

  lemma Difference(s1: int, e1: int, s2: int, e2: int, days: int)
    ensures (e2 - s2) * 60 * days - (e1 - s1) * 60 * days == 60 * (((e2 - e1) - (s2 - s1)) * days)
  {}

  lemma Expanded(a: int, q1: int, q2: int, half: int)
    ensures (60 * a + q2 - q1) * half == 60 * (a * half) + q2 * half - q1 * half
  {}

  lemma AtMost(a: int, b: int, half: int)
    requires a <= b && half > 0
    ensures a * half <= b * half
  {
    if a < b {
      Larger(a, b, half);
    }
  }

  /** A mean of two distances of at least one minute is at least one minute. */
  lemma Mixed(a: int, b: int, days: int, half: int)
    requires a >= 1 && b >= 1 && 0 <= days <= half
    ensures a * half + (b - a) * days >= half
  {
    assert a * half + (b - a) * days == a * (half - days) + b * days;
    assert a * (half - days) >= half - days;
    assert b * days >= days;
  }

  /** The four boundaries of a day: start and end of dawn, start and end of dusk. */
  function Day(t: Times, y: nat, yday: int): (b: seq<int>)
    requires |t| == 8
    ensures |b| == 4
  {
    seq(4, k requires 0 <= k < 4 => At(PlaceOf(y, yday), t, k))
  }

  function At(p: Place, t: Times, k: int): int
    requires |t| == 8 && 0 <= p.start < 2 && 0 <= p.end < 2 && p.half > 0 && 0 <= k < 4
  {
    Boundary(t[4 * p.start + k], t[4 * p.end + k], p.days, p.half)
  }

  /** A boundary is on the straight line between its two solstice values, but for less than a second, by which it falls
      short towards the value of the first. */
  lemma BoundaryIsOnTheLine(s: int, e: int, days: int, half: int)
    requires half > 0
    ensures var moved := (Boundary(s, e, days, half) - s * 60) * half; var due := (e - s) * 60 * days;
            -half < moved - due < half && (due >= 0 ==> 0 <= moved <= due) && (due <= 0 ==> due <= moved <= 0)
  {
    TDivBounds((e - s) * 60 * days, half);
  }

  /** On every day each boundary has moved from the value of the last solstice towards that of the next in proportion to
      the days gone by, cut to whole seconds; only in the half years named in `DayCount` the proportion is another. */
  lemma DayIsOnTheLine(t: Times, y: nat, yday: int, k: nat)
    requires |t| == 8 && y > 1 && IsDay(y, yday) && k < 4
    ensures var half := HalfYear(y, yday) + (if OffCalendar(y, yday) then 1 else 0);
            var days := DaysSince(y, yday) + (if OffCalendar(y, yday) && yday < Jun21(y) then 1 else 0);
            var s, e := if Jun21(y) <= yday <= Dec21(y) then t[k] else t[4 + k],
                        if Jun21(y) <= yday <= Dec21(y) then t[4 + k] else t[k];
            var moved := (Day(t, y, yday)[k] - s * 60) * half;
            var due := (e - s) * 60 * days;
            half > 0 && -half < moved - due < half && (due >= 0 ==> 0 <= moved <= due) && (due <= 0 ==> due <= moved <= 0)
  {
    hide Boundary, HalfYear, DaysSince, OffCalendar;
    DayCount(y, yday);
    var p := PlaceOf(y, yday);
    BoundaryIsOnTheLine(t[4 * p.start + k], t[4 * p.end + k], p.days, p.half);
  }

  /** On every day from 1901 to 2099, for every accepted table and every built-in one, dawn begins, dawn ends, dusk
      begins and dusk ends in this order, within the day, each between its two solstice values. */
  lemma BoundariesOfEveryDay(t: Times, y: nat, yday: int, k: nat)
    requires Ordered(t) && 1901 <= y <= 2099 && IsDay(y, yday) && k < 4
    ensures 0 <= Day(t, y, yday)[k] < 86400
    ensures t[k] <= t[4 + k] ==> t[k] * 60 <= Day(t, y, yday)[k] <= t[4 + k] * 60
    ensures t[4 + k] <= t[k] ==> t[4 + k] * 60 <= Day(t, y, yday)[k] <= t[k] * 60
    ensures k < 3 ==> Day(t, y, yday)[k] + 59 <= Day(t, y, yday)[k + 1]
  {
    var p := PlaceOf(y, yday);
    DayCountOfTheCentury(y, yday);
    BoundaryIsBetween(t[4 * p.start + k], t[4 * p.end + k], p.days, p.half);
    if k < 3 {
      hide Boundary;
      BoundariesStayOrdered(t[4 * p.start + k], t[4 * p.end + k], t[4 * p.start + k + 1], t[4 * p.end + k + 1],
                            p.days, p.half);
    }
  }

  // ----- The object -----

  class TzAu {
    const twilight_time: array3<int>
    const dd_se: array2<int>

    ghost predicate Valid() {
      && twilight_time.Length0 == twilight_time.Length1 == twilight_time.Length2 == 2
      && dd_se.Length0 == dd_se.Length1 == 2
    }

    /** The table as a list. */
    ghost function Table(): (t: Times)
      requires Valid()
      reads twilight_time
      ensures |t| == 8
    {
      [twilight_time[0, 0, 0], twilight_time[0, 0, 1], twilight_time[0, 1, 0], twilight_time[0, 1, 1],
       twilight_time[1, 0, 0], twilight_time[1, 0, 1], twilight_time[1, 1, 0], twilight_time[1, 1, 1]]
    }

    lemma TableAt(i: nat, j: nat, k: nat)
      requires Valid() && i < 2 && j < 2 && k < 2
      ensures Table()[4 * i + 2 * j + k] == twilight_time[i, j, k]
    {}

    constructor ()
      ensures Valid() && fresh(twilight_time) && fresh(dd_se)
    {
      twilight_time := new int[2, 2, 2];
      dd_se := new int[2, 2];
    }

    /** `_DecodeTwilightString`: `parsed` holds what scanning yields at each of the eight places, none where it fails. */
    method DecodeTwilight(parsed: seq<Option<(int, int)>>) returns (ok: bool)
      requires Valid() && |parsed| == 8
      modifies twilight_time
      ensures ok <==> Readable(parsed) && Ordered(Read(parsed))
      ensures Table() == if ok then Read(parsed) else old(Table())
      ensures ok ==> forall k :: 0 <= k < 8 ==>
                       ReadableAt(parsed, k) && Table()[k] == 60 * parsed[k].value.0 + parsed[k].value.1
    {
      for i := 0 to 8
        invariant forall k :: 0 <= k < i ==> ReadableAt(parsed, k)
        invariant forall k :: 0 < k < i && k != 4 ==> Read(parsed)[k - 1] < Read(parsed)[k]
      {
        if parsed[i].None? {
          assert !ReadableAt(parsed, i);
          return false;
        }
        var (h, m) := parsed[i].value;
        if h < 0 || h > 23 || m < 0 || m > 59 {
          assert !ReadableAt(parsed, i);
          return false;
        }
        if i != 0 && i != 4 {
          assert ReadableAt(parsed, i - 1);
          var (h1, m1) := parsed[i - 1].value;
          if Minutes(h1, m1) >= Minutes(h, m) {
            assert Read(parsed)[i - 1] >= Read(parsed)[i];
            return false;
          }
        }
      }
      ReadIsOrdered(parsed);
      MinutesRead(parsed);
      Store(parsed);
      return true;
    }

    method Store(parsed: seq<Option<(int, int)>>)
      requires Valid() && |parsed| == 8 && Readable(parsed)
      modifies twilight_time
      ensures Table() == Read(parsed)
    {
      ghost var t := Read(parsed);
      for i := 0 to 2
        invariant forall a, b, c :: 0 <= a < i && 0 <= b < 2 && 0 <= c < 2 ==>
                    twilight_time[a, b, c] == t[4 * a + 2 * b + c]
      {
        for j := 0 to 2
          invariant forall a, b, c :: 0 <= a < i && 0 <= b < 2 && 0 <= c < 2 ==>
                      twilight_time[a, b, c] == t[4 * a + 2 * b + c]
          invariant forall b, c :: 0 <= b < j && 0 <= c < 2 ==> twilight_time[i, b, c] == t[4 * i + 2 * b + c]
        {
          for k := 0 to 2
            invariant forall a, b, c :: 0 <= a < i && 0 <= b < 2 && 0 <= c < 2 ==>
                        twilight_time[a, b, c] == t[4 * a + 2 * b + c]
            invariant forall b, c :: 0 <= b < j && 0 <= c < 2 ==> twilight_time[i, b, c] == t[4 * i + 2 * b + c]
            invariant forall c :: 0 <= c < k ==> twilight_time[i, j, c] == t[4 * i + 2 * j + c]
          {
            var n := (i * 2 + j) * 2 + k;
            assert ReadableAt(parsed, n);
            var (h, m) := parsed[n].value;
            twilight_time[i, j, k] := Minutes(h, m);
          }
        }
      }
    }

    /** The computing part of `GetTwilightStatus`, in seconds from midnight of standard time. */
    method NewTwilightTime(y: nat, yday: int)
      requires Valid() && IsDay(y, yday)
      modifies dd_se
      ensures forall i, j :: 0 <= i < 2 && 0 <= j < 2 ==> dd_se[i, j] == Day(Table(), y, yday)[2 * i + j]
    {
      if yday == Jun21(y) || yday == Dec21(y) {
        TakeSolstice(if yday == Jun21(y) then TW_JUN21 else TW_DEC21);
        SolsticeDay(Table(), y, yday);
      } else {
        Interpolate(PlaceOf(y, yday));
      }
    }

    method TakeSolstice(mon: nat)
      requires Valid() && mon < 2
      modifies dd_se
      ensures forall i, j :: 0 <= i < 2 && 0 <= j < 2 ==> dd_se[i, j] == Table()[4 * mon + (2 * i + j)] * 60
    {
      for i := 0 to 2
        invariant forall a, b :: 0 <= a < i && 0 <= b < 2 ==> dd_se[a, b] == Table()[4 * mon + (2 * a + b)] * 60
      {
        for j := 0 to 2
          invariant forall a, b :: 0 <= a < i && 0 <= b < 2 ==> dd_se[a, b] == Table()[4 * mon + (2 * a + b)] * 60
          invariant forall b :: 0 <= b < j ==> dd_se[i, b] == Table()[4 * mon + (2 * i + b)] * 60
        {
          TableAt(mon, i, j);
          dd_se[i, j] := twilight_time[mon, i, j] * 60;
        }
      }
    }

    method Interpolate(p: Place)
      requires Valid() && 0 <= p.start < 2 && 0 <= p.end < 2 && p.half > 0
      modifies dd_se
      ensures forall i, j :: 0 <= i < 2 && 0 <= j < 2 ==> dd_se[i, j] == At(p, Table(), 2 * i + j)
    {
      hide Boundary;
      for i := 0 to 2
        invariant forall a, b :: 0 <= a < i && 0 <= b < 2 ==> dd_se[a, b] == At(p, Table(), 2 * a + b)
      {
        for j := 0 to 2
          invariant forall a, b :: 0 <= a < i && 0 <= b < 2 ==> dd_se[a, b] == At(p, Table(), 2 * a + b)
          invariant forall b :: 0 <= b < j ==> dd_se[i, b] == At(p, Table(), 2 * i + b)
        {
          TableAt(p.start, i, j);
          TableAt(p.end, i, j);
          dd_se[i, j] := OneBoundary(twilight_time[p.start, i, j], twilight_time[p.end, i, j], p.days, p.half);
        }
      }
    }

    method OneBoundary(start: int, end: int, days: int, half: int) returns (b: int)
      requires half > 0
      ensures b == Boundary(start, end, days, half)
    {
      var ttm := end - start;
      var everydaysec := TDiv(ttm * 60 * days, half);
      b := start * 60 + everydaysec;
    }
  }

  predicate ReadableAt(parsed: seq<Option<(int, int)>>, k: nat)
    requires k < |parsed|
  {
    parsed[k].Some? && 0 <= parsed[k].value.0 <= 23 && 0 <= parsed[k].value.1 <= 59
  }

  predicate Readable(parsed: seq<Option<(int, int)>>) {
    forall k :: 0 <= k < |parsed| ==> ReadableAt(parsed, k)
  }

  function Read(parsed: seq<Option<(int, int)>>): (t: Times)
    ensures |t| == |parsed|
  {
    seq(|parsed|, k requires 0 <= k < |parsed| =>
      if parsed[k].Some? then Minutes(parsed[k].value.0, parsed[k].value.1) else 0)
  }

  lemma MinutesRead(parsed: seq<Option<(int, int)>>)
    requires Readable(parsed)
    ensures forall k :: 0 <= k < |parsed| ==>
              ReadableAt(parsed, k) && Read(parsed)[k] == 60 * parsed[k].value.0 + parsed[k].value.1
  {
    forall k | 0 <= k < |parsed|
      ensures ReadableAt(parsed, k) && Read(parsed)[k] == 60 * parsed[k].value.0 + parsed[k].value.1
    {
      assert ReadableAt(parsed, k);
    }
  }

  lemma ReadIsOrdered(parsed: seq<Option<(int, int)>>)
    requires |parsed| == 8 && Readable(parsed)
    requires forall k :: 0 < k < 8 && k != 4 ==> Read(parsed)[k - 1] < Read(parsed)[k]
    ensures Ordered(Read(parsed))
  {
    assert ReadableAt(parsed, 0) && ReadableAt(parsed, 3) && ReadableAt(parsed, 4) && ReadableAt(parsed, 7);
    var t := Read(parsed);
    assert t[1 - 1] < t[1] && t[2 - 1] < t[2] && t[3 - 1] < t[3];
    assert t[5 - 1] < t[5] && t[6 - 1] < t[6] && t[7 - 1] < t[7];
  }

  /** The assignment the source makes on the day of a solstice is what the interpolation gives on that day. */
  lemma SolsticeDay(t: Times, y: nat, yday: int)
    requires |t| == 8 && (yday == Jun21(y) || yday == Dec21(y))
    ensures var mon := if yday == Jun21(y) then TW_JUN21 else TW_DEC21;
            forall k :: 0 <= k < 4 ==> Day(t, y, yday)[k] == t[4 * mon + k] * 60
  {
    hide Boundary;
    var p := PlaceOf(y, yday);
    forall k | 0 <= k < 4 ensures Day(t, y, yday)[k] == t[if yday == Jun21(y) then k else 4 + k] * 60 {
      BoundaryAtSolstice(t[4 * p.start + k], t[4 * p.end + k], p.half);
    }
  }
}
