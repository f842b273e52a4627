/** The order in which the message task of src/sign/Group.cpp loads the frames of a message into slave slots while it
    composes the overlay entries, and what the slots end up holding. Entry k (counted from 0) has slot k + 1. */
module MessageSchedule {
  import opened Overlay

  /** One entry of a message: its frame, with pixels already at the depth of the overlay and the bytes that precede them
      on the way to a slave, and how long it is shown. An entry with on-time 0 is an overlay entry, unless it is the
      last. */
  datatype Entry = Entry(head: seq<bv8>, frame: Pixels, onTime: nat)

  type Message = seq<Entry>

  ghost predicate ValidMessage(m: Message, size: nat) {
    1 <= |m| <= 6 && forall e :: e in m ==> |e.frame| == size
  }

  predicate IsOverlay(m: Message, k: nat)
    requires k < |m|
  {
    k < |m| - 1 && m[k].onTime == 0
  }

  /** Whether entry k gets a slot and is shown. */
  predicate IsShown(m: Message, k: nat)
    requires k < |m|
  {
    !IsOverlay(m, k)
  }

  /** The overlay entries among the first `k`, composed in order over darkness. */
  function Underlay(depth: nat, m: Message, size: nat, k: nat): (u: Pixels)
    requires ValidMessage(m, size) && k <= |m|
    ensures |u| == size
  {
    if k == 0 then Dark(size)
    else if IsOverlay(m, k - 1) then Over(depth, m[k - 1].frame, Underlay(depth, m, size, k - 1))
    else Underlay(depth, m, size, k - 1)
  }

  // ----- InitMsgOverlayBuf -----

  predicate HasOverlay(m: Message) {
    exists k :: 0 <= k < |m| && IsOverlay(m, k)
  }

  /** An overlay entry that comes after an entry with a time. */
  predicate LateOverlay(m: Message, k: nat)
    requires k < |m|
  {
    IsOverlay(m, k) && exists j :: 0 <= j < k && m[j].onTime != 0
  }

  /** What `msgSetEntryMax` comes to: the number of entries, and as many again as stand before the last overlay entry
      that follows a timed one; an untimed last entry cancels the second round. */
  ghost predicate IsSetMax(m: Message, max: nat)
    requires |m| > 0
  {
    if m[|m| - 1].onTime == 0 || (forall k :: 0 <= k < |m| ==> !LateOverlay(m, k)) then max == |m|
    else
      exists last :: 0 <= last < |m| && LateOverlay(m, last) && max == |m| + last
                     && forall k :: last < k < |m| ==> !LateOverlay(m, k)
  }

  lemma SetMaxRange(m: Message, max: nat)
    requires |m| > 0 && IsSetMax(m, max)
    ensures |m| <= max < 2 * |m|
  {}

  /** The two loops of `InitMsgOverlayBuf`: whether frames are composed at all, and how many entries to load. */
  method CountSets(m: Message) returns (overlay: bool, max: nat)
    requires |m| > 0
    ensures overlay == HasOverlay(m)
    ensures IsSetMax(m, max)
  {
    overlay, max := false, |m|;
    var i := 0;
    while true
      invariant 0 <= i < |m|
      invariant forall k :: 0 <= k < i ==> m[k].onTime != 0
      decreases |m| - i
    {
      if i == |m| - 1 {
        return;
      }
      if m[i].onTime == 0 {
        break;
      }
      i := i + 1;
    }
    assert IsOverlay(m, i);
    var onTime1 := false;
    for i := 0 to |m|
      invariant onTime1 <==> exists j :: 0 <= j < i && m[j].onTime != 0
      invariant overlay <==> exists k :: 0 <= k < i && IsOverlay(m, k)
      invariant i < |m| ==> Counted(m, i, max)
      invariant i == |m| ==> IsSetMax(m, max)
    {
      if m[i].onTime == 0 {
        if i != |m| - 1 {
          overlay := true;
          if onTime1 {
            max := |m| + i;
            assert LateOverlay(m, i);
          }
          assert IsOverlay(m, i);
        } else {
          max := |m|;
        }
      } else {
        onTime1 := true;
      }
    }
  }

  /** `max` after the first `n` entries. */
  ghost predicate Counted(m: Message, n: nat, max: nat)
    requires n <= |m|
  {
    if forall k :: 0 <= k < n ==> !LateOverlay(m, k) then max == |m|
    else exists last :: 0 <= last < n && LateOverlay(m, last) && max == |m| + last
                        && forall k :: last < k < n ==> !LateOverlay(m, k)
  }

  // ----- Loading -----

  /** What has been collected for composing (`orBuf`) and what the slots hold. */
  datatype Loaded = Loaded(under: Pixels, slots: map<nat, Pixels>)

  /** The frame as it goes to a slave: on top of what was collected, when the message has overlays at all. */
  function Composed(depth: nat, m: Message, k: nat, under: Pixels): Pixels
    requires k < |m| && |m[k].frame| <= |under|
  {
    if HasOverlay(m) then Over(depth, m[k].frame, under) else m[k].frame
  }

  /** The effect of loading entry k for the (s+1)-st load since the message began. */
  function Load(depth: nat, m: Message, st: Loaded, s: nat, k: nat): Loaded
    requires k < |m| && |m[k].frame| <= |st.under|
  {
    if IsOverlay(m, k) then (if s < |m| then st.(under := Over(depth, m[k].frame, st.under)) else st)
    else st.(slots := st.slots[k + 1 := Composed(depth, m, k, st.under)])
  }

  /** The entry loaded after `s` others: two rounds through the message. */
  function Turn(m: Message, s: nat): nat
    requires s < 2 * |m|
  {
    if s < |m| then s else s - |m|
  }

  /** What is collected and loaded after `s` loads. */
  function After(depth: nat, m: Message, size: nat, s: nat): (st: Loaded)
    requires ValidMessage(m, size) && s <= 2 * |m|
    ensures |st.under| == size
    ensures st.under == Underlay(depth, m, size, if s < |m| then s else |m|)
    decreases s
  {
    if s == 0 then Loaded(Dark(size), map[])
    else Load(depth, m, After(depth, m, size, s - 1), s - 1, Turn(m, s - 1))
  }

  /** What slot k + 1 should hold after `s` loads: frame k over the overlay entries before it, and once the second round
      has passed it, over all of them. */
  function Held(depth: nat, m: Message, size: nat, s: nat, k: nat): (frame: Pixels)
    requires ValidMessage(m, size) && k < |m|
    ensures |frame| == size
  {
    Composed(depth, m, k, Underlay(depth, m, size, if |m| + k < s then |m| else k))
  }

  lemma {:induction false} SlotHolds(depth: nat, m: Message, size: nat, s: nat, k: nat)
    requires ValidMessage(m, size) && s <= 2 * |m| && k < |m| && IsShown(m, k)
    ensures k + 1 in After(depth, m, size, s).slots <==> k < s
    ensures k < s ==> After(depth, m, size, s).slots[k + 1] == Held(depth, m, size, s, k)
    decreases s
  {
    hide Underlay, Composed, HasOverlay;
    if s > 0 {
      SlotHolds(depth, m, size, s - 1, k);
    }
  }

  /** Without overlay entries nothing is ever underneath. */
  lemma {:induction false} NoOverlayNoUnderlay(depth: nat, m: Message, size: nat, k: nat)
    requires ValidMessage(m, size) && k <= |m|
    ensures !HasOverlay(m) ==> Underlay(depth, m, size, k) == Dark(size)
    decreases k
  {
    if k > 0 {
      NoOverlayNoUnderlay(depth, m, size, k - 1);
    }
  }

  /** Nothing is overlaid after the last overlay entry. */
  lemma {:induction false} UnderlayIsComplete(depth: nat, m: Message, size: nat, k: nat, n: nat)
    requires ValidMessage(m, size) && k <= n <= |m|
    requires forall j :: k <= j < n ==> !IsOverlay(m, j)
    ensures Underlay(depth, m, size, n) == Underlay(depth, m, size, k)
    decreases n
  {
    if k < n {
      UnderlayIsComplete(depth, m, size, k, n - 1);
    }
  }

  lemma {:induction false} HeldInTheEnd(depth: nat, m: Message, size: nat, max: nat, k: nat)
    requires ValidMessage(m, size) && IsSetMax(m, max)
    requires m[|m| - 1].onTime != 0
    requires k < |m| && IsShown(m, k)
    ensures Held(depth, m, size, max, k) == Composed(depth, m, k, Underlay(depth, m, size, |m|))
  {
    if |m| + k >= max {
      forall j | k <= j < |m| ensures !IsOverlay(m, j) {
        if IsOverlay(m, j) {
          assert m[k].onTime != 0;
          assert LateOverlay(m, j);
        }
      }
      UnderlayIsComplete(depth, m, size, k, |m|);
    }
  }

  /** Once the set counter has reached its maximum, and from then on, every shown slot k + 1 holds frame k composed over
      all overlay entries of the message, when its last entry has a time. */
  lemma {:induction false} AllOverlaysShow(depth: nat, m: Message, size: nat, max: nat, k: nat)
    requires ValidMessage(m, size) && IsSetMax(m, max)
    requires m[|m| - 1].onTime != 0
    requires k < |m| && IsShown(m, k)
    ensures max < 2 * |m|
    ensures k + 1 in After(depth, m, size, max).slots
    ensures After(depth, m, size, max).slots[k + 1] == Composed(depth, m, k, Underlay(depth, m, size, |m|))
  {
    SetMaxRange(m, max);
    SlotHolds(depth, m, size, max, k);
    HeldInTheEnd(depth, m, size, max, k);
  }

  lemma OneRound(m: Message, max: nat)
    requires |m| > 0 && IsSetMax(m, max) && m[|m| - 1].onTime == 0
    ensures max == |m|
  {}

  /** When the last entry has no time there is one round only, and slot k + 1 holds frame k over the overlay entries
      before it. */
  lemma {:induction false} EarlierOverlaysShow(depth: nat, m: Message, size: nat, max: nat, k: nat)
    requires ValidMessage(m, size) && IsSetMax(m, max)
    requires m[|m| - 1].onTime == 0
    requires k < |m| && IsShown(m, k)
    ensures max == |m|
    ensures k + 1 in After(depth, m, size, max).slots
    ensures After(depth, m, size, max).slots[k + 1] == Composed(depth, m, k, Underlay(depth, m, size, k))
  {
    SlotHolds(depth, m, size, max, k);
  }

  // ----- What the pixels of a slot show -----

  /** Some overlay entry among the first `k` lights a pixel. */
  ghost predicate OverlayLights(m: Message, k: nat, i: nat, bit: bv8)
    requires k <= |m| && forall j :: 0 <= j < k ==> i < |m[j].frame|
  {
    exists j :: 0 <= j < k && IsOverlay(m, j) && Lit(m[j].frame[i], bit)
  }

  lemma {:induction false} UnderlayLights(m: Message, size: nat, k: nat, i: nat, bit: bv8)
    requires ValidMessage(m, size) && k <= |m| && i < size
    ensures Lit(Underlay(1, m, size, k)[i], bit) <==> OverlayLights(m, k, i, bit)
    decreases k
  {
    if k == 0 {
      assert Underlay(1, m, size, k)[i] == 0;
    } else {
      UnderlayLights(m, size, k - 1, i, bit);
      if IsOverlay(m, k - 1) {
        OverLights(m[k - 1].frame, Underlay(1, m, size, k - 1), i, bit);
      }
      assert forall j :: 0 <= j < k && IsOverlay(m, j) ==> j < k - 1 || j == k - 1;
    }
  }

  /** The overlay entries that a shown entry is seen over: all of them when the last entry has a time, and otherwise those
      before it. */
  function Under(m: Message, k: nat): (n: nat)
    requires k < |m|
    ensures n <= |m|
  {
    if m[|m| - 1].onTime != 0 then |m| else k
  }

  /** On a sign of one bit a pixel, a pixel of shown slot k + 1 is lit, once the set counter has reached its maximum,
      exactly when it is lit in frame k or in one of those overlay entries. */
  lemma {:induction false} SlotLights(m: Message, size: nat, max: nat, k: nat, i: nat, bit: bv8)
    requires ValidMessage(m, size) && IsSetMax(m, max) && k < |m| && IsShown(m, k) && i < size
    ensures max <= 2 * |m| && k + 1 in After(1, m, size, max).slots && |After(1, m, size, max).slots[k + 1]| == size
    ensures Lit(After(1, m, size, max).slots[k + 1][i], bit) <==>
            Lit(m[k].frame[i], bit) || OverlayLights(m, Under(m, k), i, bit)
  {
    hide Underlay, Lit, Over, IsSetMax, After;
    SlotInTheEnd(1, m, size, max, k);
    UnderlayLights(m, size, Under(m, k), i, bit);
    if HasOverlay(m) {
      OverLights(m[k].frame, Underlay(1, m, size, Under(m, k)), i, bit);
    }
  }

  lemma {:induction false} SlotInTheEnd(depth: nat, m: Message, size: nat, max: nat, k: nat)
    requires ValidMessage(m, size) && IsSetMax(m, max) && k < |m| && IsShown(m, k)
    ensures max <= 2 * |m| && k + 1 in After(depth, m, size, max).slots
    ensures After(depth, m, size, max).slots[k + 1] == Composed(depth, m, k, Underlay(depth, m, size, Under(m, k)))
  {
    hide After, Composed, Underlay;
    SetMaxRange(m, max);
    if m[|m| - 1].onTime != 0 {
      AllOverlaysShow(depth, m, size, max, k);
    } else {
      EarlierOverlaysShow(depth, m, size, max, k);
    }
  }

  /** A pixel of the uppermost of the first `k` overlay entries that has it on, or off where none has. */
  ghost predicate IsUppermost(m: Message, k: nat, i: nat, high: bool, pixel: bv8)
    requires k <= |m| && forall j :: 0 <= j < k ==> i < |m[j].frame|
  {
    if pixel == 0 then forall j :: 0 <= j < k && IsOverlay(m, j) ==> Half(m[j].frame[i], high) == 0
    else exists top :: 0 <= top < k && IsOverlay(m, top) && Half(m[top].frame[i], high) == pixel
                       && forall j :: top < j < k && IsOverlay(m, j) ==> Half(m[j].frame[i], high) == 0
  }

  lemma {:induction false} UnderlayPixel(m: Message, size: nat, k: nat, i: nat, high: bool)
    requires ValidMessage(m, size) && k <= |m| && i < size
    ensures IsUppermost(m, k, i, high, Half(Underlay(4, m, size, k)[i], high))
    decreases k
  {
    hide IsUppermost, Half, Over;
    if k == 0 {
      NoneIsUppermost(m, i, high);
    } else {
      UnderlayPixel(m, size, k - 1, i, high);
      if IsOverlay(m, k - 1) {
        OverPixel(m[k - 1].frame, Underlay(4, m, size, k - 1), i, high);
      }
      OneMore(m, k, i, high, Half(Underlay(4, m, size, k - 1)[i], high));
    }
  }

  lemma NoneIsUppermost(m: Message, i: nat, high: bool)
    ensures Half(0, high) == 0 && IsUppermost(m, 0, i, high, 0)
  {}

  lemma OneMore(m: Message, k: nat, i: nat, high: bool, pixel: bv8)
    requires 0 < k <= |m| && forall j :: 0 <= j < k ==> i < |m[j].frame|
    requires IsUppermost(m, k - 1, i, high, pixel)
    ensures if IsOverlay(m, k - 1) && Half(m[k - 1].frame[i], high) != 0
            then IsUppermost(m, k, i, high, Half(m[k - 1].frame[i], high))
            else IsUppermost(m, k, i, high, pixel)
  {
    hide Half;
  }

  /** On a sign of four bits a pixel, a pixel of that slot is the one of frame k where that is on, and otherwise that
      of the uppermost of those overlay entries. */
  lemma {:induction false} SlotPixel(m: Message, size: nat, max: nat, k: nat, i: nat, high: bool)
    requires ValidMessage(m, size) && IsSetMax(m, max) && k < |m| && IsShown(m, k) && i < size
    ensures max <= 2 * |m| && k + 1 in After(4, m, size, max).slots && |After(4, m, size, max).slots[k + 1]| == size
    ensures var pixel := Half(After(4, m, size, max).slots[k + 1][i], high);
            if Half(m[k].frame[i], high) != 0 then pixel == Half(m[k].frame[i], high)
            else IsUppermost(m, Under(m, k), i, high, pixel)
  {
    hide Underlay, Over, Half, IsSetMax, After, IsUppermost;
    SlotInTheEnd(4, m, size, max, k);
    UnderlayPixel(m, size, Under(m, k), i, high);
    if HasOverlay(m) {
      OverPixel(m[k].frame, Underlay(4, m, size, Under(m, k)), i, high);
    } else {
      NothingOver(m, size, Under(m, k), i, high);
    }
  }

  lemma NothingOver(m: Message, size: nat, k: nat, i: nat, high: bool)
    requires ValidMessage(m, size) && k <= |m| && i < size && !HasOverlay(m)
    ensures IsUppermost(m, k, i, high, 0)
  {}

  /** The overlay entry that the second round is for, and what all overlays come to. */
  lemma {:induction false} LastOverlayIsOnTop(depth: nat, m: Message, size: nat, max: nat)
    requires ValidMessage(m, size) && IsSetMax(m, max) && max > |m|
    ensures max < 2 * |m| && LateOverlay(m, max - |m|)
    ensures Underlay(depth, m, size, |m|) == Over(depth, m[max - |m|].frame, Underlay(depth, m, size, max - |m|))
  {
    var last := max - |m|;
    assert LateOverlay(m, last);
    forall j | last < j < |m| ensures !IsOverlay(m, j) {
      if IsOverlay(m, j) {
        assert LateOverlay(m, j);
      }
    }
    UnderlayIsComplete(depth, m, size, last + 1, |m|);
  }

  /** How tight the count is: one load less leaves the same frames in all slots exactly when the entry before the last
      late overlay is an overlay itself, or hides that overlay. Otherwise no smaller count will do. */
  lemma SecondRoundIsNeeded(depth: nat, m: Message, size: nat, max: nat)
    requires ValidMessage(m, size) && IsSetMax(m, max) && max > |m|
    ensures max < 2 * |m|
    ensures var p := max - |m| - 1;
            && (After(depth, m, size, max - 1).slots == After(depth, m, size, max).slots
                <==> IsOverlay(m, p) || HidesLast(depth, m, size, p))
            && forall s | 0 <= s < max && IsShown(m, p) && p + 1 in After(depth, m, size, s).slots ::
                 After(depth, m, size, s).slots[p + 1] == Composed(depth, m, p, Underlay(depth, m, size, p))
  {
    hide Underlay, Composed, Over;
    LastOverlayIsOnTop(depth, m, size, max);
    var p := max - |m| - 1;
    if IsShown(m, p) {
      SlotHolds(depth, m, size, max - 1, p);
      var before, after := After(depth, m, size, max - 1), After(depth, m, size, max);
      assert after.slots == before.slots[p + 1 := Composed(depth, m, p, before.under)];
      assert before.slots[p + 1] == after.slots[p + 1] ==> after.slots == before.slots;
      forall s | 0 <= s < max
        ensures p + 1 in After(depth, m, size, s).slots ==>
                  After(depth, m, size, s).slots[p + 1] == Composed(depth, m, p, Underlay(depth, m, size, p))
      {
        SlotHolds(depth, m, size, s, p);
      }
    }
  }

  /** Shown over the overlays before it, frame p looks as it does over the next one too. */
  ghost predicate HidesLast(depth: nat, m: Message, size: nat, p: nat)
    requires ValidMessage(m, size) && p + 1 < |m|
  {
    Composed(depth, m, p, Underlay(depth, m, size, p))
    == Composed(depth, m, p, Over(depth, m[p + 1].frame, Underlay(depth, m, size, p + 1)))
  }
}
