/** Debouncing (include/module/Debounce.h): an input counts as changed once it has kept its new value for long enough. */
module Debouncing {
  import opened Edges

  /** The state of a `Debounce`: its edge state, the weight of low and high samples counted, and their limits. */
  datatype State = State(value: Edge, cnt0: int, cnt1: int, CNT0: int, CNT1: int)
  {
    function Set(): State {
      this.(value := value.Set(), cnt0 := 0, cnt1 := CNT1)
    }

    function Clr(): State {
      this.(value := value.Clr(), cnt0 := CNT0, cnt1 := 0)
    }

    function Check(v: bool, cnt: nat): State {
      if v then
        var s := this.(cnt1 := cnt1 + cnt);
        if s.cnt1 >= CNT1 then s.Set() else s
      else
        var s := this.(cnt0 := cnt0 + cnt);
        if s.cnt0 >= CNT0 then s.Clr() else s
    }

    /** Once the state is known: the counter of the present level is full, the other is short of its limit. */
    ghost predicate Known() {
      && CNT0 > 0 && CNT1 > 0
      && match value
         case NotKnown => false
         case High => cnt1 == CNT1 && 0 <= cnt0 < CNT0
         case Rising => cnt1 == CNT1 && 0 <= cnt0 < CNT0
         case Low => cnt0 == CNT0 && 0 <= cnt1 < CNT1
         case Falling => cnt0 == CNT0 && 0 <= cnt1 < CNT1
    }
  }

  class Debounce {
    var value: Edge
    var cnt0: int
    var cnt1: int
    var CNT0: int
    var CNT1: int

    ghost function View(): State
      reads this
    {
      State(value, cnt0, cnt1, CNT0, CNT1)
    }

    constructor (true_cnt: int, false_cnt: int)
      ensures View() == State(NotKnown, 0, 0, false_cnt, true_cnt)
    {
      value, cnt0, cnt1, CNT0, CNT1 := NotKnown, 0, 0, false_cnt, true_cnt;
    }

    method SetState(s: bool)
      modifies this
      ensures View() == if s then State(High, 0, CNT1, old(CNT0), old(CNT1))
                        else State(Low, CNT0, 0, old(CNT0), old(CNT1))
      ensures CNT0 > 0 && CNT1 > 0 ==> View().Known()
    {
      if s {
        cnt0, cnt1, value := 0, CNT1, High;
      } else {
        cnt0, cnt1, value := CNT0, 0, Low;
      }
    }

    method Set()
      modifies this
      ensures View() == old(View()).Set()
    {
      cnt0 := 0;
      cnt1 := CNT1;
      if value == NotKnown || value == Low || value == Falling {
        value := Rising;
      }
    }

    method Clr()
      modifies this
      ensures View() == old(View()).Clr()
    {
      cnt1 := 0;
      cnt0 := CNT0;
      if value == NotKnown || value == High || value == Rising {
        value := Falling;
      }
    }

    method Check(v: bool, cnt: nat)
      modifies this
      ensures View() == old(View()).Check(v, cnt)
    {
      if v {
        cnt1 := cnt1 + cnt;
        if cnt1 >= CNT1 {
          Set();
        }
      } else {
        cnt0 := cnt0 + cnt;
        if cnt0 >= CNT0 {
          Clr();
        }
      }
    }

    /** What may happen to an input. */
    method Take(e: Event)
      modifies this
      ensures View() == OneStep(old(View()), e)
    {
      match e {
        case Sample(v, cnt) => Check(v, cnt);
        case Force(v) =>
          if v {
            Set();
          } else {
            Clr();
          }
        case ClearRising =>
          if value == Rising {
            value := High;
          }
        case ClearFalling =>
          if value == Falling {
            value := Low;
          }
      }
    }
  }

  // ----- Runs -----

  /** A sample with its weight, a level forced by `Set` or `Clr`, or the edge taken note of. */
  datatype Event = Sample(v: bool, cnt: nat) | Force(v: bool) | ClearRising | ClearFalling

  function OneStep(s: State, e: Event): State {
    match e
    case Sample(v, cnt) => s.Check(v, cnt)
    case Force(v) => if v then s.Set() else s.Clr()
    case ClearRising => s.(value := s.value.ClearRising())
    case ClearFalling => s.(value := s.value.ClearFalling())
  }

  function After(s: State, t: seq<Event>): State
    decreases |t|
  {
    if t == [] then s else OneStep(After(s, t[..|t| - 1]), t[|t| - 1])
  }

  /** An edge that is taken note of is gone, and nothing else changes: neither the other edge nor the level nor a
      counter. */
  lemma NotedEdgeIsGone(s: State, rising: bool)
    ensures var r := OneStep(s, if rising then ClearRising else ClearFalling);
            && r == s.(value := r.value)
            && !(if rising then r.value.Rising? else r.value.Falling?)
            && (r.value.IsHigh() <==> s.value.IsHigh()) && (r.value.IsLow() <==> s.value.IsLow())
            && (s.value != (if rising then Rising else Falling) ==> r == s)
  {}

  /** The weight of the samples `v` at the end of a run, back to the last other sample or forced level. */
  function Trailing(t: seq<Event>, v: bool): nat
    decreases |t|
  {
    if t == [] then 0
    else
      var before := t[..|t| - 1];
      match t[|t| - 1]
      case Sample(x, cnt) => if x == v then cnt + Trailing(before, v) else 0
      case Force(_) => 0
      case ClearRising => Trailing(before, v)
      case ClearFalling => Trailing(before, v)
  }

  /** The debounced level, told without counters: it flips with a sample that makes the trailing run of opposite samples
      weigh its limit or more. */
  function Level(init: bool, t: seq<Event>, CNT0: int, CNT1: int): bool
    decreases |t|
  {
    if t == [] then init
    else
      var level := Level(init, t[..|t| - 1], CNT0, CNT1);
      match t[|t| - 1]
      case Sample(x, _) =>
        if x != level && Trailing(t, x) >= (if x then CNT1 else CNT0) then x else level
      case Force(v) => v
      case ClearRising => level
      case ClearFalling => level
  }

  /** A known state starting with nothing counted against it. */
  ghost predicate Settled(s: State) {
    s.Known() && (if s.value.IsHigh() then s.cnt0 == 0 else s.cnt1 == 0)
  }

  /** In every run the counters keep their limits, the counter against the present level is the weight of the trailing
      run of opposite samples, and the level is the one told without counters. */
  lemma {:induction false} CountersTellTheRun(s: State, t: seq<Event>)
    requires Settled(s)
    ensures var e := After(s, t);
            && e.Known() && e.CNT0 == s.CNT0 && e.CNT1 == s.CNT1
            && e.value.IsHigh() == Level(s.value.IsHigh(), t, s.CNT0, s.CNT1)
            && (if e.value.IsHigh() then e.cnt0 == Trailing(t, false) else e.cnt1 == Trailing(t, true))
    decreases |t|
  {
    if t != [] {
      CountersTellTheRun(s, t[..|t| - 1]);
    }
  }

  /** An edge appears with exactly the event that flips the level, in the direction of the flip. */
  lemma {:induction false} EdgesAreFlips(s: State, t: seq<Event>, e: Event)
    requires Settled(s)
    ensures var was, now := After(s, t).value, After(s, t + [e]).value;
            && (now == Rising && was != Rising <==> was.IsLow() && now.IsHigh())
            && (now == Falling && was != Falling <==> was.IsHigh() && now.IsLow())
  {
    assert (t + [e])[..|t|] == t;
    CountersTellTheRun(s, t);
  }

  /** The n-th event of a run makes an edge appear. */
  ghost predicate EdgeAt(s: State, t: seq<Event>, n: nat)
    requires 0 < n <= |t|
  {
    var was, now := After(s, t[..n - 1]).value, After(s, t[..n]).value;
    now.HasEdge() && now != was
  }

  lemma {:induction false} EdgeIsFlip(s: State, t: seq<Event>, n: nat)
    requires Settled(s) && 0 < n <= |t|
    ensures var was, now := After(s, t[..n - 1]).value, After(s, t[..n]).value;
            && (EdgeAt(s, t, n) <==> was.IsHigh() != now.IsHigh())
            && (EdgeAt(s, t, n) ==> now == if now.IsHigh() then Rising else Falling)
  {
    assert t[..n] == t[..n - 1] + [t[n - 1]];
    EdgesAreFlips(s, t[..n - 1], t[n - 1]);
    CountersTellTheRun(s, t[..n - 1]);
    CountersTellTheRun(s, t[..n]);
  }

  lemma {:induction false} NoEdgeNoFlip(s: State, t: seq<Event>, j: nat, k: nat)
    requires Settled(s) && j <= k <= |t|
    requires forall n :: j < n <= k ==> !EdgeAt(s, t, n)
    ensures After(s, t[..j]).value.IsHigh() == After(s, t[..k]).value.IsHigh()
    decreases k
  {
    if j < k {
      NoEdgeNoFlip(s, t, j, k - 1);
      EdgeIsFlip(s, t, k);
    }
  }

  /** In every run rising and falling edges take turns: of two edges with none between them one is rising and the other
      falling. */
  lemma {:induction false} EdgesTakeTurns(s: State, t: seq<Event>, j: nat, k: nat)
    requires Settled(s) && 0 < j < k <= |t|
    requires EdgeAt(s, t, j) && EdgeAt(s, t, k) && forall n :: j < n < k ==> !EdgeAt(s, t, n)
    ensures {After(s, t[..j]).value, After(s, t[..k]).value} == {Rising, Falling}
  {
    EdgeIsFlip(s, t, j);
    EdgeIsFlip(s, t, k);
    NoEdgeNoFlip(s, t, j, k - 1);
  }

  /** A shorter disturbance never shows: while no run of opposite samples reaches its limit the level stays. */
  lemma {:induction false} GlitchesAreIgnored(s: State, t: seq<Event>)
    requires Settled(s)
    requires forall k :: 0 <= k < |t| ==> !t[k].Force?
    requires forall k :: 0 <= k <= |t| ==>
               if s.value.IsHigh() then Trailing(t[..k], false) < s.CNT0 else Trailing(t[..k], true) < s.CNT1
    ensures After(s, t).value.IsHigh() == s.value.IsHigh()
    decreases |t|
  {
    if t != [] {
      var before := t[..|t| - 1];
      forall k | 0 <= k <= |before| ensures before[..k] == t[..k] {}
      GlitchesAreIgnored(s, before);
      CountersTellTheRun(s, before);
      CountersTellTheRun(s, t);
      assert t[..|t|] == t;
    }
  }

  /** The weight of all samples `v` of a run. */
  function Total(t: seq<Event>, v: bool): nat
    decreases |t|
  {
    if t == [] then 0
    else Total(t[..|t| - 1], v) + (if t[|t| - 1].Sample? && t[|t| - 1].v == v then t[|t| - 1].cnt else 0)
  }

  /** A fresh input stays unknown exactly while the samples of neither level weigh their limit in total, in a run or
      not. */
  lemma {:induction false} FirstLevelGoesByTotals(CNT0: int, CNT1: int, t: seq<Event>)
    requires CNT0 > 0 && CNT1 > 0
    requires forall k :: 0 <= k < |t| ==> !t[k].Force?
    ensures var e := After(State(NotKnown, 0, 0, CNT0, CNT1), t);
            && (e.value.NotKnown? <==> Total(t, true) < CNT1 && Total(t, false) < CNT0)
            && (e.value.NotKnown? ==> e.cnt1 == Total(t, true) && e.cnt0 == Total(t, false))
            && e.CNT0 == CNT0 && e.CNT1 == CNT1
    decreases |t|
  {
    if t != [] {
      FirstLevelGoesByTotals(CNT0, CNT1, t[..|t| - 1]);
    }
  }

  /** The sample with which the samples of its level first weigh their limit decides: the input goes to that level, with
      the edge towards it, and is known from then on. */
  lemma {:induction false} FirstLevelIsDecided(CNT0: int, CNT1: int, t: seq<Event>, v: bool, cnt: nat)
    requires CNT0 > 0 && CNT1 > 0
    requires forall k :: 0 <= k < |t| ==> !t[k].Force?
    requires Total(t, true) < CNT1 && Total(t, false) < CNT0
    ensures var e := After(State(NotKnown, 0, 0, CNT0, CNT1), t + [Sample(v, cnt)]);
            var decided := Total(t, v) + cnt >= if v then CNT1 else CNT0;
            e.value == (if !decided then NotKnown else if v then Rising else Falling) && (decided ==> Settled(e))
  {
    var s := State(NotKnown, 0, 0, CNT0, CNT1);
    assert (t + [Sample(v, cnt)])[..|t|] == t;
    FirstLevelGoesByTotals(CNT0, CNT1, t);
    assert After(s, t + [Sample(v, cnt)]) == OneStep(After(s, t), Sample(v, cnt));
  }

  /** So two high samples with a low one between them already make a fresh input high for a limit of two, a run of which a
      known input takes no notice. */
  lemma FirstLevelNeedsNoRun()
    ensures var t := [Sample(true, 1), Sample(false, 1), Sample(true, 1)];
            && After(State(NotKnown, 0, 0, 2, 2), t).value == Rising && Trailing(t, true) == 1
            && After(State(Low, 2, 0, 2, 2), t).value == Low
  {
    var s := State(NotKnown, 0, 0, 2, 2);
    var t := [Sample(true, 1), Sample(false, 1), Sample(true, 1)];
    assert t[..2] == [Sample(true, 1), Sample(false, 1)];
    assert t[..2][..1] == [Sample(true, 1)];
    assert t[..2][..1][..0] == [];
    assert After(s, t[..2][..1]) == s.(cnt1 := 1);
    assert After(s, t[..2]) == s.(cnt1 := 1, cnt0 := 1);
    var low := State(Low, 2, 0, 2, 2);
    assert After(low, t[..2][..1]) == low.(cnt1 := 1);
    assert After(low, t[..2]) == low;
  }
}
