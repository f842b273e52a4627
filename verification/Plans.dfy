/** Weekly plans: the record of src/tsisp003/Plan.cpp, the check it passes before it is stored, and its byte image. */
module Plans {
  import opened Bytes
  import opened Wrappers

  const SignSetPlan: byte := 0x0D
  const PLN_LEN_MAX := 4 + 6 * 6
  const PLN_LEN_MIN := 4 + 1 * 6 + 1
  const PLN_TAIL := 2
  const MAX_ENTRIES := 6
  const DAY := 24 * 60

  const EntryNone: byte := 0
  const EntryFrame: byte := 1
  const EntryMessage: byte := 2

  datatype AppError =
    | AppNoError | DeviceControllerOffline | SyntaxError | LengthError | UnknownMi | UndefinedDeviceNumber
    | FrmMsgPlnUndefined | FrmMsgPlnActive | OverlaysNotSupported | PlanEnabled | PlanNotEnabled

  datatype Hm = Hm(hour: byte, min: byte)

  datatype PlnEntry = PlnEntry(fmType: byte, fmId: byte, start: Hm, stop: Hm)

  /** `crc` is the two-byte tail as received. */
  datatype Plan = Plan(plnId: byte, plnRev: byte, weekdays: byte, entries: seq<PlnEntry>, crc: (byte, byte))

  // ----- Times -----

  predicate ValidTime(t: Hm) {
    t.hour <= 23 && t.min <= 59
  }

  function Minute(t: Hm): nat {
    t.hour * 60 + t.min
  }

  /** How long an entry lasts: up to its stop time, on the next day when that is not later than the start. */
  function Duration(e: PlnEntry): (d: nat)
    requires ValidEntry(e)
    ensures 1 <= d <= DAY
  {
    if Minute(e.stop) > Minute(e.start) then Minute(e.stop) - Minute(e.start)
    else Minute(e.stop) - Minute(e.start) + DAY
  }

  predicate ValidEntry(e: PlnEntry) {
    (e.fmType == EntryFrame || e.fmType == EntryMessage) && ValidTime(e.start) && ValidTime(e.stop)
  }

  /** The end of an entry on a time line that does not start again at midnight. */
  function Unrolled(e: PlnEntry): nat {
    if Minute(e.start) >= Minute(e.stop) then Minute(e.stop) + DAY else Minute(e.stop)
  }

  // ----- The overlap filter -----

  /** The test of the source on an earlier entry `a` and a later one `b`. */
  predicate Clash(a: PlnEntry, b: PlnEntry) {
    || (Minute(a.start) >= Minute(b.start) && Minute(a.start) < Unrolled(b))
    || (Unrolled(a) > Minute(b.start) && Unrolled(a) <= Unrolled(b))
  }

  ghost predicate Within(e: PlnEntry, t: int) {
    Minute(e.start) <= t < Unrolled(e)
  }

  ghost predicate Apart(a: PlnEntry, b: PlnEntry) {
    forall t {:trigger Within(a, t)} :: !(Within(a, t) && Within(b, t))
  }

  ghost predicate StrictlyEncloses(a: PlnEntry, b: PlnEntry) {
    Minute(a.start) < Minute(b.start) && Unrolled(b) < Unrolled(a)
  }

  /** What the filter decides: it lets two entries stand together exactly when their unrolled intervals have no minute
      in common or the earlier-listed one encloses the later one with room on both sides. */
  lemma ClashMeans(a: PlnEntry, b: PlnEntry)
    requires ValidEntry(a) && ValidEntry(b)
    ensures !Clash(a, b) <==> Apart(a, b) || StrictlyEncloses(a, b)
  {
    if Apart(a, b) {
      assert !(Within(a, Minute(b.start)) && Within(b, Minute(b.start)));
      assert !(Within(a, Minute(a.start)) && Within(b, Minute(a.start)));
    }
  }

  ghost predicate NoClash(entries: seq<PlnEntry>) {
    forall i, j :: 0 <= i < j < |entries| ==> !Clash(entries[i], entries[j])
  }

  // ----- Valid plans and their images -----

  ghost predicate ValidPlan(p: Plan) {
    && p.plnId != 0
    && 0 < p.weekdays < 0x80
    && 1 <= |p.entries| <= MAX_ENTRIES
    && (forall e :: e in p.entries ==> ValidEntry(e))
    && NoClash(p.entries)
  }

  function EntryImage(e: PlnEntry): (bytes: seq<byte>)
    ensures |bytes| == 6
  {
    [e.fmType, e.fmId, e.start.hour, e.start.min, e.stop.hour, e.stop.min]
  }

  /** The entries from the i-th on, closed by a zero unless all six are used. */
  function EntriesImage(list: seq<PlnEntry>, i: nat): (bytes: seq<byte>)
    requires i + |list| <= MAX_ENTRIES
    ensures |bytes| == 6 * |list| + (if i + |list| < MAX_ENTRIES then 1 else 0)
    decreases |list|
  {
    if |list| > 0 then EntryImage(list[0]) + EntriesImage(list[1..], i + 1)
    else if i < MAX_ENTRIES then [EntryNone]
    else []
  }

  function Image(p: Plan): (bytes: seq<byte>)
    requires |p.entries| <= MAX_ENTRIES
    ensures |bytes| == 6 + 6 * |p.entries| + (if |p.entries| < MAX_ENTRIES then 1 else 0)
  {
    [SignSetPlan, p.plnId, p.plnRev, p.weekdays] + EntriesImage(p.entries, 0) + [p.crc.0, p.crc.1]
  }

  // ----- Reading -----

  /** The entries found from position `at` on, the i-th and later ones, and where they end; or the error met. */
  datatype Reading = Entries(list: seq<PlnEntry>, end: nat) | Refused(error: AppError)

  function EntryAt(x: seq<byte>, at: nat): PlnEntry
    requires at + 6 <= |x|
  {
    PlnEntry(x[at], x[at + 1], Hm(x[at + 2], x[at + 3]), Hm(x[at + 4], x[at + 5]))
  }

  function ReadEntries(x: seq<byte>, i: nat): (r: Reading)
    requires i <= MAX_ENTRIES && PLN_LEN_MAX <= |x|
    ensures r.Entries? ==> i + |r.list| <= MAX_ENTRIES && forall e :: e in r.list ==> ValidEntry(e)
    ensures r.Refused? ==> r.error != AppNoError
    decreases MAX_ENTRIES - i
  {
    var at := 4 + 6 * i;
    if i == MAX_ENTRIES then Entries([], at)
    else if x[at] == EntryNone then (if i == 0 then Refused(LengthError) else Entries([], at + 1))
    else if x[at] > EntryMessage then Refused(SyntaxError)
    else if !ValidEntry(EntryAt(x, at)) then Refused(SyntaxError)
    else
      match ReadEntries(x, i + 1)
      case Refused(error) => Refused(error)
      case Entries(list, end) => Entries([EntryAt(x, at)] + list, end)
  }

  predicate AnyClash(entries: seq<PlnEntry>) {
    exists i, j :: 0 <= i < j < |entries| && Clash(entries[i], entries[j])
  }

  predicate AllDefined(entries: seq<PlnEntry>, frames: set<byte>, messages: set<byte>) {
    forall e :: e in entries ==>
                  (e.fmType == EntryFrame ==> e.fmId in frames) && (e.fmType == EntryMessage ==> e.fmId in messages)
  }

  /** The verdict of `Init` on the first `xlen` bytes of a buffer. */
  function Verdict(x: seq<byte>, xlen: nat, frames: set<byte>, messages: set<byte>): (r: AppError)
    requires PLN_LEN_MAX <= |x| && PLN_TAIL <= xlen <= |x|
    ensures r == AppNoError ==> ReadEntries(x, 0).Entries?
  {
    if x[0] != SignSetPlan then UnknownMi
    else if xlen < PLN_LEN_MIN + PLN_TAIL || xlen > PLN_LEN_MAX + PLN_TAIL then LengthError
    else if x[1] == 0 then SyntaxError
    else if x[3] >= 0x80 || x[3] % 0x80 == 0 then SyntaxError
    else
      match ReadEntries(x, 0)
      case Refused(error) => error
      case Entries(list, end) =>
        if end != xlen - PLN_TAIL then LengthError
        else if AnyClash(list) then OverlaysNotSupported
        else if !AllDefined(list, frames, messages) then FrmMsgPlnUndefined
        else AppNoError
  }

  /** The plan read from an accepted buffer. */
  function Read(x: seq<byte>, xlen: nat): Plan
    requires PLN_LEN_MAX <= |x| && PLN_TAIL <= xlen <= |x| && ReadEntries(x, 0).Entries?
  {
    Plan(x[1], x[2], x[3], ReadEntries(x, 0).list, (x[xlen - 2], x[xlen - 1]))
  }

  // ----- Reading against printing -----

  /** `part` stands in `x` at position `at`. */
  ghost predicate StandsAt(x: seq<byte>, at: nat, part: seq<byte>) {
    at + |part| <= |x| && x[at..at + |part|] == part
  }

  lemma StandTogether(x: seq<byte>, at: nat, a: seq<byte>, b: seq<byte>)
    ensures StandsAt(x, at, a + b) <==> StandsAt(x, at, a) && StandsAt(x, at + |a|, b)
  {
    if StandsAt(x, at, a + b) {
      var whole := x[at..at + |a| + |b|];
      assert x[at..at + |a|] == whole[..|a|] && x[at + |a|..at + |a| + |b|] == whole[|a|..];
    }
    if StandsAt(x, at, a) && StandsAt(x, at + |a|, b) {
      assert x[at..at + |a| + |b|] == x[at..at + |a|] + x[at + |a|..at + |a| + |b|];
    }
  }

  lemma EntryStands(x: seq<byte>, at: nat, e: PlnEntry)
    requires at + 6 <= |x|
    ensures StandsAt(x, at, EntryImage(e)) <==> EntryAt(x, at) == e
  {
    var part := x[at..at + 6];
    var image := EntryImage(e);
    if part == image {
      assert part[0] == image[0] && part[1] == image[1] && part[2] == image[2];
      assert part[3] == image[3] && part[4] == image[4] && part[5] == image[5];
    }
  }

  lemma {:induction false} EntriesStand(x: seq<byte>, i: nat, e: PlnEntry, rest: seq<PlnEntry>)
    requires i + 1 + |rest| <= MAX_ENTRIES && PLN_LEN_MAX <= |x|
    ensures StandsAt(x, 4 + 6 * i, EntriesImage([e] + rest, i)) <==>
            EntryAt(x, 4 + 6 * i) == e && StandsAt(x, 4 + 6 * (i + 1), EntriesImage(rest, i + 1))
    ensures |EntriesImage([e] + rest, i)| == 6 + |EntriesImage(rest, i + 1)|
  {
    hide EntryImage, EntryAt, StandsAt;
    assert ([e] + rest)[1..] == rest;
    EntryStands(x, 4 + 6 * i, e);
    StandTogether(x, 4 + 6 * i, EntryImage(e), EntriesImage(rest, i + 1));
  }

  lemma {:induction false} ReadThenPrint(x: seq<byte>, i: nat)
    requires i <= MAX_ENTRIES && PLN_LEN_MAX <= |x| && ReadEntries(x, i).Entries?
    ensures StandsAt(x, 4 + 6 * i, EntriesImage(ReadEntries(x, i).list, i))
    ensures ReadEntries(x, i).end == 4 + 6 * i + |EntriesImage(ReadEntries(x, i).list, i)|
    decreases MAX_ENTRIES - i
  {
    hide ValidEntry, EntryAt, StandsAt, EntriesImage;
    var at := 4 + 6 * i;
    ClosingStands(x, i);
    if i < MAX_ENTRIES && x[at] != EntryNone {
      ReadThenPrint(x, i + 1);
      EntriesStand(x, i, EntryAt(x, at), ReadEntries(x, i + 1).list);
    }
  }

  lemma {:induction false} ClosingStands(x: seq<byte>, i: nat)
    requires i <= MAX_ENTRIES && PLN_LEN_MAX <= |x|
    ensures StandsAt(x, 4 + 6 * i, EntriesImage([], i)) <==> i == MAX_ENTRIES || x[4 + 6 * i] == EntryNone
    ensures |EntriesImage([], i)| == if i == MAX_ENTRIES then 0 else 1
  {
    var at := 4 + 6 * i;
    if i < MAX_ENTRIES {
      assert x[at..at + 1] == [x[at]];
    }
  }

  lemma {:induction false} PrintThenRead(x: seq<byte>, list: seq<PlnEntry>, i: nat)
    requires 1 <= i + |list| <= MAX_ENTRIES && PLN_LEN_MAX <= |x|
    requires forall e :: e in list ==> ValidEntry(e)
    requires StandsAt(x, 4 + 6 * i, EntriesImage(list, i))
    ensures ReadEntries(x, i) == Entries(list, 4 + 6 * i + |EntriesImage(list, i)|)
    decreases |list|
  {
    hide EntryAt, StandsAt, EntriesImage;
    if |list| == 0 {
      assert list == [];
      ClosingStands(x, i);
    } else {
      assert list == [list[0]] + list[1..] && ValidEntry(list[0]);
      EntriesStand(x, i, list[0], list[1..]);
      PrintThenRead(x, list[1..], i + 1);
      FirstField(x, 4 + 6 * i);
    }
  }

  lemma FirstField(x: seq<byte>, at: nat)
    requires at + 6 <= |x|
    ensures EntryAt(x, at).fmType == x[at]
  {}

  /** Exactly the images of valid plans whose frames and messages are defined are accepted, and an accepted image is
      the image of the plan read from it: nothing is lost, added or reordered. */
  lemma {:induction false} AcceptedImages(x: seq<byte>, xlen: nat, frames: set<byte>, messages: set<byte>)
    requires PLN_LEN_MAX <= |x| && PLN_TAIL <= xlen <= |x|
    ensures Verdict(x, xlen, frames, messages) == AppNoError <==>
            exists p :: ValidPlan(p) && AllDefined(p.entries, frames, messages) && Image(p) == x[..xlen]
    ensures Verdict(x, xlen, frames, messages) == AppNoError ==>
              ValidPlan(Read(x, xlen)) && Image(Read(x, xlen)) == x[..xlen]
    ensures forall p :: ValidPlan(p) && Image(p) == x[..xlen] ==> ReadEntries(x, 0).Entries? && Read(x, xlen) == p
  {
    if Verdict(x, xlen, frames, messages) == AppNoError {
      AcceptedIsImage(x, xlen, frames, messages);
    }
    forall p | ValidPlan(p) && Image(p) == x[..xlen]
      ensures ReadEntries(x, 0) == Entries(p.entries, xlen - PLN_TAIL) && Read(x, xlen) == p
      ensures AllDefined(p.entries, frames, messages) ==> Verdict(x, xlen, frames, messages) == AppNoError
    {
      ImageIsAccepted(p, x, xlen, frames, messages);
    }
  }

  lemma AcceptedIsImage(x: seq<byte>, xlen: nat, frames: set<byte>, messages: set<byte>)
    requires PLN_LEN_MAX <= |x| && PLN_TAIL <= xlen <= |x|
    requires Verdict(x, xlen, frames, messages) == AppNoError
    ensures ValidPlan(Read(x, xlen)) && AllDefined(Read(x, xlen).entries, frames, messages)
    ensures Image(Read(x, xlen)) == x[..xlen]
  {
    hide EntriesImage, ValidEntry, Clash;
    var p := Read(x, xlen);
    ReadThenPrint(x, 0);
    assert |p.entries| >= 1 && NoClash(p.entries);
    ImageAssembled(p, x, xlen);
  }

  lemma ImageAssembled(p: Plan, x: seq<byte>, xlen: nat)
    requires |p.entries| <= MAX_ENTRIES && 6 <= xlen <= |x|
    requires x[0] == SignSetPlan && x[1] == p.plnId && x[2] == p.plnRev && x[3] == p.weekdays
    requires x[xlen - 2] == p.crc.0 && x[xlen - 1] == p.crc.1
    requires StandsAt(x, 4, EntriesImage(p.entries, 0)) && xlen == 6 + |EntriesImage(p.entries, 0)|
    ensures Image(p) == x[..xlen]
  {
    hide EntriesImage;
    assert x[..xlen] == x[..4] + x[4..xlen - 2] + x[xlen - 2..xlen];
    assert x[..4] == [SignSetPlan, p.plnId, p.plnRev, p.weekdays];
  }

  lemma {:induction false} ImageIsAccepted(p: Plan, x: seq<byte>, xlen: nat, frames: set<byte>, messages: set<byte>)
    requires PLN_LEN_MAX <= |x| && PLN_TAIL <= xlen <= |x|
    requires ValidPlan(p) && Image(p) == x[..xlen]
    ensures ReadEntries(x, 0) == Entries(p.entries, xlen - PLN_TAIL) && Read(x, xlen) == p
    ensures AllDefined(p.entries, frames, messages) ==> Verdict(x, xlen, frames, messages) == AppNoError
  {
    hide EntriesImage, ReadEntries, ValidEntry, Clash, StandsAt;
    ImageParts(p, x, xlen);
    PrintThenRead(x, p.entries, 0);
  }

  lemma ImageParts(p: Plan, x: seq<byte>, xlen: nat)
    requires |p.entries| <= MAX_ENTRIES && xlen <= |x| && Image(p) == x[..xlen]
    ensures xlen == 6 + |EntriesImage(p.entries, 0)|
    ensures StandsAt(x, 4, EntriesImage(p.entries, 0))
    ensures x[0] == SignSetPlan && x[1] == p.plnId && x[2] == p.plnRev && x[3] == p.weekdays
    ensures (x[xlen - 2], x[xlen - 1]) == p.crc
  {
    hide EntriesImage;
    var head := x[..xlen];
    assert x[4..xlen - 2] == head[4..xlen - 2];
    assert forall k :: 0 <= k < xlen ==> x[k] == head[k];
    assert head[..4] == [SignSetPlan, p.plnId, p.plnRev, p.weekdays];
  }

  // ----- Byte by byte -----

  /** Entry k of an image from position `at` on: its kind, its frame or message, and the two times. */
  ghost predicate EntryBytes(x: seq<byte>, at: nat, e: PlnEntry)
    requires at + 6 <= |x|
  {
    && x[at] == e.fmType && x[at + 1] == e.fmId
    && x[at + 2] == e.start.hour && x[at + 3] == e.start.min && x[at + 4] == e.stop.hour && x[at + 5] == e.stop.min
  }

  lemma {:induction false} EntriesByBytes(list: seq<PlnEntry>, i: nat, k: nat)
    requires i + |list| <= MAX_ENTRIES && k < |list|
    ensures EntryBytes(EntriesImage(list, i), 6 * k, list[k])
    decreases k
  {
    hide EntryBytes;
    if k == 0 {
      assert EntryBytes(EntriesImage(list, i), 0, list[0]) by { FirstBytes(list, i); }
    } else {
      EntriesByBytes(list[1..], i + 1, k - 1);
      LaterBytes(EntryImage(list[0]), EntriesImage(list[1..], i + 1), 6 * (k - 1), list[k]);
    }
  }

  lemma {:induction false} FirstBytes(list: seq<PlnEntry>, i: nat)
    requires i + |list| <= MAX_ENTRIES && |list| > 0
    ensures EntryBytes(EntriesImage(list, i), 0, list[0])
  {}

  lemma LaterBytes(a: seq<byte>, b: seq<byte>, at: nat, e: PlnEntry)
    requires |a| == 6 && at + 6 <= |b| && EntryBytes(b, at, e)
    ensures EntryBytes(a + b, at + 6, e)
  {}

  lemma {:induction false} ClosingByte(list: seq<PlnEntry>, i: nat)
    requires i + |list| < MAX_ENTRIES
    ensures EntriesImage(list, i)[6 * |list|] == 0
    decreases |list|
  {
    hide EntryImage;
    if |list| > 0 {
      ClosingByte(list[1..], i + 1);
    }
  }

  /** The image of a plan: the message code, the id, the revision, the weekdays, six bytes an entry, a zero unless there
      are six, and the tail. */
  lemma ImageByBytes(p: Plan)
    requires |p.entries| <= 6
    ensures var x, n := Image(p), |p.entries|;
            && |x| == 6 * n + (if n < 6 then 7 else 6)
            && x[0] == 0x0D && x[1] == p.plnId && x[2] == p.plnRev && x[3] == p.weekdays
            && (forall k :: 0 <= k < n ==> EntryBytes(x, 4 + 6 * k, p.entries[k]))
            && (n < 6 ==> x[4 + 6 * n] == 0)
            && x[|x| - 2] == p.crc.0 && x[|x| - 1] == p.crc.1
  {
    hide EntryBytes, EntriesImage;
    var x, n := Image(p), |p.entries|;
    var body := EntriesImage(p.entries, 0);
    forall k | 0 <= k < n ensures EntryBytes(x, 4 + 6 * k, p.entries[k]) {
      EntriesByBytes(p.entries, 0, k);
      Shifted(x, body, 6 * k, p.entries[k]);
    }
    if n < 6 {
      ClosingByte(p.entries, 0);
    }
  }

  lemma Shifted(x: seq<byte>, body: seq<byte>, at: nat, e: PlnEntry)
    requires at + 6 <= |body| && |x| >= 4 + |body| && x[4..4 + |body|] == body && EntryBytes(body, at, e)
    ensures EntryBytes(x, 4 + at, e)
  {
    assert forall q :: 0 <= q < |body| ==> body[q] == x[4 + q];
  }

  function EntryIn(x: seq<byte>, at: nat): PlnEntry
    requires at + 6 <= |x|
  {
    PlnEntry(x[at], x[at + 1], Hm(x[at + 2], x[at + 3]), Hm(x[at + 4], x[at + 5]))
  }

  function EntriesIn(x: seq<byte>, n: nat): seq<PlnEntry>
    requires 4 + 6 * n <= |x|
  {
    seq(n, k requires 0 <= k < n => EntryIn(x, 4 + 6 * k))
  }

  /** A kind, 1 or 2, a frame or message of that kind that is defined, and two times of day. */
  predicate IsEntry(x: seq<byte>, at: nat, frames: set<byte>, messages: set<byte>)
    requires at + 6 <= |x|
  {
    && ((x[at] == 1 && x[at + 1] in frames) || (x[at] == 2 && x[at + 1] in messages))
    && x[at + 2] < 24 && x[at + 3] < 60 && x[at + 4] < 24 && x[at + 5] < 60
  }

  /** The first `xlen` bytes of a buffer hold n entries and nothing else between the header and the tail. */
  ghost predicate HoldsEntries(x: seq<byte>, xlen: nat, frames: set<byte>, messages: set<byte>, n: nat)
    requires PLN_LEN_MAX <= |x|
  {
    && 1 <= n <= 6 && xlen == 6 * n + (if n < 6 then 7 else 6) && (n < 6 ==> x[4 + 6 * n] == 0)
    && forall k :: 0 <= k < n ==> IsEntry(x, 4 + 6 * k, frames, messages)
  }

  /** Byte by byte, a plan is accepted exactly when it begins with the message code, an id other than 0, any revision and
      weekdays between 1 and 127, and goes on with one to six entries, no two of which clash. */
  lemma AcceptedByBytes(x: seq<byte>, xlen: nat, frames: set<byte>, messages: set<byte>)
    requires PLN_LEN_MAX <= |x| && PLN_TAIL <= xlen <= |x|
    ensures Verdict(x, xlen, frames, messages) == AppNoError <==>
            && x[0] == 0x0D && x[1] != 0 && 0 < x[3] < 128
            && exists n :: HoldsEntries(x, xlen, frames, messages, n) && NoClash(EntriesIn(x, n))
  {
    hide Verdict, NoClash, IsEntry;
    AcceptedImages(x, xlen, frames, messages);
    if Verdict(x, xlen, frames, messages) == AppNoError {
      ReadHolds(Read(x, xlen), x, xlen, frames, messages);
    }
    if x[0] == 0x0D && x[1] != 0 && 0 < x[3] < 128 {
      forall n | HoldsEntries(x, xlen, frames, messages, n) && NoClash(EntriesIn(x, n))
        ensures Verdict(x, xlen, frames, messages) == AppNoError
      {
        HeldIsImage(x, xlen, frames, messages, n);
      }
    }
  }

  lemma ReadHolds(p: Plan, x: seq<byte>, xlen: nat, frames: set<byte>, messages: set<byte>)
    requires PLN_LEN_MAX <= |x| && xlen <= |x|
    requires ValidPlan(p) && AllDefined(p.entries, frames, messages) && Image(p) == x[..xlen]
    ensures x[0] == 0x0D && x[1] != 0 && 0 < x[3] < 128
    ensures HoldsEntries(x, xlen, frames, messages, |p.entries|) && NoClash(EntriesIn(x, |p.entries|))
  {
    hide Image, NoClash;
    var n := |p.entries|;
    ImageByBytes(p);
    assert forall q :: 0 <= q < xlen ==> x[..xlen][q] == x[q];
    forall k | 0 <= k < n ensures EntryIn(x, 4 + 6 * k) == p.entries[k] && IsEntry(x, 4 + 6 * k, frames, messages) {
      assert EntryBytes(x[..xlen], 4 + 6 * k, p.entries[k]);
      assert p.entries[k] in p.entries;
    }
    assert EntriesIn(x, n) == p.entries;
  }

  lemma HeldIsImage(x: seq<byte>, xlen: nat, frames: set<byte>, messages: set<byte>, n: nat)
    requires PLN_LEN_MAX <= |x| && PLN_TAIL <= xlen <= |x|
    requires x[0] == 0x0D && x[1] != 0 && 0 < x[3] < 128
    requires HoldsEntries(x, xlen, frames, messages, n) && NoClash(EntriesIn(x, n))
    ensures exists p :: ValidPlan(p) && AllDefined(p.entries, frames, messages) && Image(p) == x[..xlen]
  {
    hide NoClash, Image;
    var p := Plan(x[1], x[2], x[3], EntriesIn(x, n), (x[xlen - 2], x[xlen - 1]));
    forall e | e in p.entries
      ensures ValidEntry(e) && (e.fmType == EntryFrame ==> e.fmId in frames)
              && (e.fmType == EntryMessage ==> e.fmId in messages)
    {
      var k :| 0 <= k < n && p.entries[k] == e;
      assert IsEntry(x, 4 + 6 * k, frames, messages);
    }
    ImageByBytes(p);
    SameBytes(p, x, xlen, n);
  }

  lemma SameBytes(p: Plan, x: seq<byte>, xlen: nat, n: nat)
    requires PLN_LEN_MAX <= |x| && n <= 6 && xlen == 6 * n + (if n < 6 then 7 else 6) <= |x|
    requires p == Plan(x[1], x[2], x[3], EntriesIn(x, n), (x[xlen - 2], x[xlen - 1]))
    requires x[0] == 0x0D && (n < 6 ==> x[4 + 6 * n] == 0)
    ensures Image(p) == x[..xlen]
  {
    hide Image;
    ImageByBytes(p);
    var y := Image(p);
    forall q | 0 <= q < xlen ensures y[q] == x[q] {
      if 4 <= q < 4 + 6 * n {
        var k, r := (q - 4) / 6, (q - 4) % 6;
        assert EntryBytes(y, 4 + 6 * k, p.entries[k]) && p.entries[k] == EntryIn(x, 4 + 6 * k);
        assert q == 4 + 6 * k + r;
      }
    }
  }
}
