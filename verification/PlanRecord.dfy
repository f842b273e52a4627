/** The plan object of src/tsisp003/Plan.cpp: `Init` fills it from a command or a stored image, `ToArray` prints it. */
module PlanRecord {
  import opened Bytes
  import opened Plans

  class PlanObject {
    var micode: byte
    var plnId: byte
    var plnRev: byte
    var weekdays: byte
    var entries: nat
    const plnEntries: array<PlnEntry>
    var crc: (byte, byte)

    ghost predicate Valid() {
      plnEntries.Length == MAX_ENTRIES
    }

    /** `micode` stays 0 until an image has been accepted. */
    ghost predicate Defined()
      requires Valid()
      reads this, plnEntries
    {
      && micode == SignSetPlan && 1 <= entries <= MAX_ENTRIES
      && (forall k :: 0 <= k < entries ==> plnEntries[k].fmType != EntryNone)
      && (entries < MAX_ENTRIES ==> plnEntries[entries].fmType == EntryNone)
    }

    ghost function View(): Plan
      requires Valid() && entries <= MAX_ENTRIES
      reads this, plnEntries
    {
      Plan(plnId, plnRev, weekdays, plnEntries[..entries], crc)
    }

    constructor ()
      ensures Valid() && micode == 0 && fresh(plnEntries)
    {
      micode, plnId, plnRev, weekdays, entries, crc := 0, 0, 0, 0, 0, (0, 0);
      plnEntries := new PlnEntry[MAX_ENTRIES](_ => PlnEntry(EntryNone, 0, Hm(0, 0), Hm(0, 0)));
    }

    /** `frames` and `messages` are the ids defined in the stores. The cursor may run past `xlen` inside the buffer. */
    method Init(x: seq<byte>, xlen: nat, frames: set<byte>, messages: set<byte>) returns (r: AppError)
      requires Valid() && PLN_LEN_MAX <= |x| && PLN_TAIL <= xlen <= |x|
      modifies this, plnEntries
      ensures r == Verdict(x, xlen, frames, messages)
      ensures r == AppNoError ==> Defined() && View() == Read(x, xlen)
      ensures r != AppNoError ==> micode == 0
    {
      hide Clash, AnyClash;
      micode := 0;
      plnId, plnRev, weekdays := x[1], x[2], x[3];
      crc := (x[xlen - 2], x[xlen - 1]);
      if x[0] != SignSetPlan {
        return UnknownMi;
      }
      if xlen < PLN_LEN_MIN + PLN_TAIL || xlen > PLN_LEN_MAX + PLN_TAIL {
        return LengthError;
      }
      if plnId == 0 {
        return SyntaxError;
      }
      if weekdays >= 0x80 || weekdays % 0x80 == 0 {
        return SyntaxError;
      }
      var p: nat;
      r, p := Parse(x);
      if r != AppNoError {
        return;
      }
      if p != xlen - PLN_TAIL {
        return LengthError;
      }
      var clash := Overlapping();
      if clash {
        return OverlaysNotSupported;
      }
      if !AllDefined(plnEntries[..entries], frames, messages) {
        return FrmMsgPlnUndefined;
      }
      micode := SignSetPlan;
    }

    /** The loop over the six places for entries; `p` is where the cursor stops. */
    method Parse(x: seq<byte>) returns (r: AppError, p: nat)
      requires Valid() && PLN_LEN_MAX <= |x|
      modifies this`entries, plnEntries
      ensures r != AppNoError <==> ReadEntries(x, 0).Refused?
      ensures r != AppNoError ==> ReadEntries(x, 0) == Refused(r)
      ensures r == AppNoError ==>
                && 1 <= entries <= MAX_ENTRIES && ReadEntries(x, 0) == Entries(plnEntries[..entries], p)
                && (forall k :: 0 <= k < entries ==> plnEntries[k].fmType != EntryNone)
                && (entries < MAX_ENTRIES ==> plnEntries[entries].fmType == EntryNone)
    {
      hide ReadEntries, ValidEntry, EntryAt;
      p := 4;
      entries := 0;
      var i := 0;
      while i < MAX_ENTRIES
        invariant 0 <= i <= MAX_ENTRIES && entries == i && p == 4 + 6 * i
        invariant ReadEntries(x, 0) == After(plnEntries[..i], ReadEntries(x, i))
        invariant forall k :: 0 <= k < i ==> plnEntries[k].fmType != EntryNone
      {
        ReadingStep(x, i);
        ghost var done := plnEntries[..i];
        var valid := ReadPlace(x, i);
        assert plnEntries[..i] == done;
        if plnEntries[i].fmType == EntryNone {
          return if i == 0 then LengthError else AppNoError, p + 1;
        }
        if !valid {
          return SyntaxError, p;
        }
        AfterBoth(done, [EntryAt(x, p)], ReadEntries(x, i + 1));
        p := p + 6;
        entries := entries + 1;
        i := i + 1;
        assert plnEntries[..i] == done + [plnEntries[i - 1]];
      }
      ReadingStep(x, MAX_ENTRIES);
      r := AppNoError;
    }

    /** One place: the type byte, and the other five unless the type closes or spoils the list. */
    method ReadPlace(x: seq<byte>, i: nat) returns (valid: bool)
      requires Valid() && PLN_LEN_MAX <= |x| && i < MAX_ENTRIES
      modifies plnEntries
      ensures forall k :: 0 <= k < MAX_ENTRIES && k != i ==> plnEntries[k] == old(plnEntries[k])
      ensures plnEntries[i].fmType == x[4 + 6 * i]
      ensures x[4 + 6 * i] != EntryNone ==> (valid <==> ValidEntry(EntryAt(x, 4 + 6 * i)))
      ensures x[4 + 6 * i] != EntryNone && valid ==> plnEntries[i] == EntryAt(x, 4 + 6 * i)
    {
      var p := 4 + 6 * i;
      plnEntries[i] := plnEntries[i].(fmType := x[p]);
      if plnEntries[i].fmType == EntryNone || plnEntries[i].fmType > EntryMessage {
        return false;
      }
      plnEntries[i] := PlnEntry(plnEntries[i].fmType, x[p + 1], Hm(x[p + 2], x[p + 3]), Hm(x[p + 4], x[p + 5]));
      valid := !(plnEntries[i].start.hour > 23 || plnEntries[i].start.min > 59 ||
                 plnEntries[i].stop.hour > 23 || plnEntries[i].stop.min > 59);
    }

    /** The nested loops that compare every entry with the later ones. */
    method Overlapping() returns (clash: bool)
      requires Valid() && entries <= MAX_ENTRIES
      requires forall k :: 0 <= k < entries ==> ValidEntry(plnEntries[k])
      ensures clash == AnyClash(plnEntries[..entries])
    {
      hide Minute;
      var start, stop := new int[6], new int[6];
      for i := 0 to entries
        invariant forall k :: 0 <= k < i ==>
                    start[k] == Minute(plnEntries[k].start) && stop[k] == Unrolled(plnEntries[k])
      {
        start[i] := Minute(plnEntries[i].start);
        stop[i] := Minute(plnEntries[i].stop);
        if start[i] >= stop[i] {
          stop[i] := stop[i] + DAY;
        }
      }
      for i := 0 to entries
        invariant forall a, b :: 0 <= a < i && a < b < entries ==> !Clash(plnEntries[a], plnEntries[b])
      {
        for j := i + 1 to entries
          invariant forall a, b :: 0 <= a < i && a < b < entries ==> !Clash(plnEntries[a], plnEntries[b])
          invariant forall b :: i < b < j ==> !Clash(plnEntries[i], plnEntries[b])
        {
          if (start[i] >= start[j] && start[i] < stop[j]) || (stop[i] > start[j] && stop[i] <= stop[j]) {
            assert Clash(plnEntries[..entries][i], plnEntries[..entries][j]);
            return true;
          }
        }
      }
      clash := false;
    }

    /** Prints the plan at the start of `pbuf` and returns its length. */
    method ToArray(pbuf: array<byte>) returns (n: nat)
      requires Valid() && Defined() && pbuf.Length >= PLN_LEN_MAX + PLN_TAIL
      modifies pbuf
      ensures n <= pbuf.Length && pbuf[..n] == Image(View())
    {
      hide EntriesImage;
      pbuf[0], pbuf[1], pbuf[2], pbuf[3] := micode, plnId, plnRev, weekdays;
      ghost var head := pbuf[..4];
      assert head == [SignSetPlan, plnId, plnRev, weekdays];
      n := PrintEntries(pbuf);
      ghost var body := pbuf[..n];
      pbuf[n], pbuf[n + 1] := crc.0, crc.1;
      n := n + 2;
      assert pbuf[..n] == body + [crc.0, crc.1];
    }

    /** The loop over the places, which stops behind the first empty one. */
    method PrintEntries(pbuf: array<byte>) returns (n: nat)
      requires Valid() && Defined() && pbuf.Length >= PLN_LEN_MAX + PLN_TAIL
      modifies pbuf
      ensures n == 4 + |EntriesImage(plnEntries[..entries], 0)|
      ensures pbuf[..n] == old(pbuf[..4]) + EntriesImage(plnEntries[..entries], 0)
    {
      hide EntriesImage, EntryImage;
      ghost var list := plnEntries[..entries];
      ghost var out := pbuf[..4];
      n := 4;
      var i := 0;
      assert list[0..] == list;
      while i < MAX_ENTRIES
        invariant 0 <= i <= entries && n == 4 + 6 * i
        invariant pbuf[..n] == out
        invariant out + EntriesImage(list[i..], i) == old(pbuf[..4]) + EntriesImage(list, 0)
        decreases MAX_ENTRIES - i
      {
        ImageStep(list[i..], i);
        if plnEntries[i].fmType == EntryNone {
          pbuf[n] := EntryNone;
          n := n + 1;
          assert pbuf[..n] == out + [EntryNone];
          return;
        }
        assert list[i..][0] == plnEntries[i] && list[i..][1..] == list[i + 1..];
        PrintPlace(pbuf, n, plnEntries[i]);
        Reassociate(out, EntryImage(plnEntries[i]), EntriesImage(list[i + 1..], i + 1));
        out := out + EntryImage(plnEntries[i]);
        n := n + 6;
        i := i + 1;
      }
      ImageStep(list[i..], i);
      assert out + [] == out;
    }

    static method PrintPlace(pbuf: array<byte>, n: nat, e: PlnEntry)
      requires n + 6 <= pbuf.Length
      modifies pbuf
      ensures pbuf[..n + 6] == old(pbuf[..n]) + EntryImage(e)
    {
      pbuf[n], pbuf[n + 1], pbuf[n + 2] := e.fmType, e.fmId, e.start.hour;
      pbuf[n + 3], pbuf[n + 4], pbuf[n + 5] := e.start.min, e.stop.hour, e.stop.min;
    }
  }

  function After(before: seq<PlnEntry>, r: Reading): Reading {
    match r
    case Refused(error) => r
    case Entries(list, end) => Entries(before + list, end)
  }

  lemma AfterBoth(a: seq<PlnEntry>, b: seq<PlnEntry>, r: Reading)
    ensures After(a, After(b, r)) == After(a + b, r)
  {
    if r.Entries? {
      assert a + (b + r.list) == (a + b) + r.list;
    }
  }

  lemma Reassociate(a: seq<byte>, b: seq<byte>, c: seq<byte>)
    ensures a + (b + c) == (a + b) + c
  {}

  lemma ReadingStep(x: seq<byte>, i: nat)
    requires i <= MAX_ENTRIES && PLN_LEN_MAX <= |x|
    ensures var at := 4 + 6 * i;
            ReadEntries(x, i) ==
            if i == MAX_ENTRIES then Entries([], at)
            else if x[at] == EntryNone then (if i == 0 then Refused(LengthError) else Entries([], at + 1))
            else if !ValidEntry(EntryAt(x, at)) then Refused(SyntaxError)
            else After([EntryAt(x, at)], ReadEntries(x, i + 1))
  {}

  lemma ImageStep(list: seq<PlnEntry>, i: nat)
    requires i + |list| <= MAX_ENTRIES
    ensures EntriesImage(list, i) ==
            if |list| > 0 then EntryImage(list[0]) + EntriesImage(list[1..], i + 1)
            else if i < MAX_ENTRIES then [EntryNone] else []
  {}

  /** An accepted image, read into a plan object and printed again, comes back byte for byte. */
  method ReadAndPrint(plan: PlanObject, x: seq<byte>, xlen: nat, frames: set<byte>, messages: set<byte>,
                      pbuf: array<byte>)
    returns (r: AppError, n: nat)
    requires plan.Valid() && PLN_LEN_MAX <= |x| && PLN_TAIL <= xlen <= |x|
    requires pbuf.Length >= PLN_LEN_MAX + PLN_TAIL
    modifies plan, plan.plnEntries, pbuf
    ensures r == AppNoError ==> n == xlen && n <= pbuf.Length && pbuf[..n] == x[..xlen]
  {
    r := plan.Init(x, xlen, frames, messages);
    n := 0;
    if r == AppNoError {
      AcceptedIsImage(x, xlen, frames, messages);
      n := plan.ToArray(pbuf);
    }
  }
}
