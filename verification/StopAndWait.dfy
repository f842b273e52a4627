/** A session as it is used: a master that sends one command at a time and repeats it until the reply arrives, over a
    link that loses or damages commands and replies, against the counters of `LayerNTS`. The handler of a command
    sends exactly one reply. */
module StopAndWait {
  import opened Nts
  import opened Wrappers

  /** The number that stands for the k-th exchange of a session: 0, 1, ..., 255, 1, 2, ... */
  function Number(k: nat): bv8
    decreases k
  {
    if k == 0 then 0 else IncN(Number(k - 1))
  }

  /** What becomes of one attempt. A command whose CRC fails is answered NAK, and a damaged reply is dropped. A command
      whose length has become impossible is answered with a refusal before its CRC is looked at; `taken` says whether the
      refusal arrives and the master takes it, when it carries the number awaited, for the reply to its command. */
  datatype Fate =
    | CommandLost | CommandDamaged | LengthDamaged(taken: bool) | ReplyLost | ReplyDamaged | BothArrive

  /** `sends` and `expects` are the master's numbers, `step` counts the exchanges it has ended and `refused` those of them
      that ended with a refusal; `log` lists, in the order of execution, the exchanges whose command the controller
      carried out; `naks` counts the undamaged commands it refused. */
  datatype World = World(controller: Counters, sends: bv8, expects: bv8, step: nat, refused: nat, log: seq<nat>,
                         naks: nat)

  const Opened := World(Counters(0, 0), 0, 0, 0, 0, [], 0)

  function NextExchange(w: World): World {
    w.(sends := IncN(w.sends), expects := IncN(w.expects), step := w.step + 1)
  }

  /** One attempt of the master to get its current command through. */
  function Attempt(w: World, fate: Fate): World {
    match fate
    case CommandLost => w
    case CommandDamaged => w
    case LengthDamaged(taken) =>
      var after := w.(controller := AfterReply(w.controller, OnLine));
      if taken && w.controller.ns == w.expects then NextExchange(after.(refused := w.refused + 1)) else after
    case _ =>
      match OnCommand(w.controller, Some(w.sends), Some(w.expects))
      case None => w.(naks := w.naks + 1)
      case Some(c) =>
        var after := w.(controller := AfterReply(c, OnLine), log := w.log + [w.step]);
        if fate.BothArrive? && c.ns == w.expects then NextExchange(after) else after
  }

  function Run(w: World, fates: seq<Fate>): World
    decreases |fates|
  {
    if |fates| == 0 then w else Run(Attempt(w, fates[0]), fates[1..])
  }

  lemma {:induction false} RunSplits(w: World, a: seq<Fate>, b: seq<Fate>)
    ensures Run(w, a + b) == Run(Run(w, a), b)
    decreases |a|
  {
    if a == [] {
      assert a + b == b;
    } else {
      assert (a + b)[1..] == a[1..] + b;
      RunSplits(Attempt(w, a[0]), a[1..], b);
    }
  }

  /** Exchanges 0, 1, ..., n - 1 in this order, each once or several times in a row. */
  ghost predicate InOrderAtLeastOnce(log: seq<nat>, n: nat) {
    && (|log| == 0 <==> n == 0)
    && (|log| > 0 ==> log[0] == 0 && log[|log| - 1] == n - 1)
    && forall i :: 0 < i < |log| ==> log[i] == log[i - 1] || log[i] == log[i - 1] + 1
  }

  /** Both ends agree on the exchange in progress, or the controller is one ahead because its reply was lost. */
  ghost predicate InStep(w: World) {
    && w.sends == Number(w.step) && w.expects == Number(w.step)
    && w.naks == 0 && w.refused == 0
    && (  (w.controller == Counters(Number(w.step), Number(w.step)) && InOrderAtLeastOnce(w.log, w.step))
       || (w.controller == Counters(Number(w.step + 1), Number(w.step + 1))
           && InOrderAtLeastOnce(w.log, w.step + 1)))
  }

  lemma NumberMoves(k: nat)
    ensures Number(k + 1) == IncN(Number(k)) != Number(k)
  {}

  lemma Executed(log: seq<nat>, k: nat)
    requires InOrderAtLeastOnce(log, k) || InOrderAtLeastOnce(log, k + 1)
    ensures InOrderAtLeastOnce(log + [k], k + 1)
  {
    var longer := log + [k];
    assert longer[|longer| - 1] == k;
    assert |log| > 0 ==> longer[|log| - 1] == log[|log| - 1];
  }

  predicate KeepsLength(fates: seq<Fate>) {
    forall i :: 0 <= i < |fates| ==> !fates[i].LengthDamaged?
  }

  /** Both ends are in step before and after every attempt of a run. */
  ghost predicate InStepThroughout(w: World, fates: seq<Fate>) {
    forall n :: 0 <= n <= |fates| ==> InStep(Run(w, fates[..n]))
  }

  /** An attempt keeps both ends in step exactly when its command is not damaged in length. An undamaged command is then
      never refused, a new one or a repeated one, and the reply to it carries the number the master waits for. */
  lemma AttemptStaysInStep(w: World, fate: Fate)
    requires InStep(w)
    ensures InStep(Attempt(w, fate)) <==> !fate.LengthDamaged?
    ensures OnCommand(w.controller, Some(w.sends), Some(w.expects)).Some?
    ensures OnCommand(w.controller, Some(w.sends), Some(w.expects)).value.ns == w.expects
    ensures !fate.LengthDamaged? ==> Attempt(w, fate).step == if fate.BothArrive? then w.step + 1 else w.step
  {
    hide IncN, Number;
    if fate.LengthDamaged? {
      LengthDamageBreaksStep(w, fate.taken);
      UndamagedIsTaken(w);
    } else {
      UndamagedIsTaken(w);
      NumberMoves(w.step);
      Executed(w.log, w.step);
    }
  }

  lemma UndamagedIsTaken(w: World)
    requires InStep(w)
    ensures OnCommand(w.controller, Some(w.sends), Some(w.expects)).Some?
    ensures OnCommand(w.controller, Some(w.sends), Some(w.expects)).value.ns == w.expects
  {
    hide IncN, Number;
    NumberMoves(w.step);
  }

  lemma LengthDamageBreaksStep(w: World, taken: bool)
    requires InStep(w)
    ensures !InStep(Attempt(w, LengthDamaged(taken)))
  {
    hide IncN, Number, InOrderAtLeastOnce;
    NumberMoves(w.step);
    NumberMoves(w.step + 1);
  }

  /** For every run, over any number of wraps from 255 to 1: the numbers stay in step, no undamaged command is refused,
      and the commands are carried out in order and at least once, exactly when no command is damaged in length,
      whatever else is lost or damaged. */
  lemma {:induction false} EveryRunStaysInStep(w: World, fates: seq<Fate>)
    requires InStep(w)
    ensures InStepThroughout(w, fates) <==> KeepsLength(fates)
    decreases |fates|
  {
    hide InStep, Attempt;
    assert fates[..0] == [];
    if fates != [] {
      var next, rest := Attempt(w, fates[0]), fates[1..];
      AttemptStaysInStep(w, fates[0]);
      forall n | 0 <= n <= |rest| ensures Run(w, fates[..n + 1]) == Run(next, rest[..n]) {
        assert fates[..n + 1][1..] == rest[..n];
      }
      if !fates[0].LengthDamaged? {
        EveryRunStaysInStep(next, rest);
        assert InStepThroughout(w, fates) <==> InStepThroughout(next, rest) by {
          PrefixesOfRest(w, fates);
        }
        assert KeepsLength(fates) <==> KeepsLength(rest) by {
          assert fates == [fates[0]] + rest;
        }
      } else {
        assert !InStep(Run(w, fates[..1])) by {
          assert rest[..0] == [];
          assert fates[..0 + 1] == fates[..1];
        }
      }
    }
  }

  lemma PrefixesOfRest(w: World, fates: seq<Fate>)
    requires fates != [] && InStep(w)
    ensures InStepThroughout(w, fates) <==> InStepThroughout(Attempt(w, fates[0]), fates[1..])
  {
    hide InStep, Attempt;
    var next, rest := Attempt(w, fates[0]), fates[1..];
    forall n | 0 < n <= |fates| ensures Run(w, fates[..n]) == Run(next, rest[..n - 1]) {
      assert fates[..n][1..] == rest[..n - 1];
    }
    assert fates[..0] == [];
    if InStepThroughout(w, fates) {
      forall n | 0 <= n <= |rest| ensures InStep(Run(next, rest[..n])) {
        assert Run(w, fates[..n + 1]) == Run(next, rest[..n + 1 - 1]);
      }
    }
  }

  function Completed(fates: seq<Fate>): nat
    decreases |fates|
  {
    if |fates| == 0 then 0 else (if fates[0].BothArrive? then 1 else 0) + Completed(fates[1..])
  }

  /** A session from its start without damage to a length: every exchange whose command and reply got through once is
      completed, and the log holds the completed commands in order, each at least once, with at most the one in progress
      after them. */
  lemma {:induction false} SessionRuns(fates: seq<Fate>)
    ensures KeepsLength(fates) ==>
              var w := Run(Opened, fates);
              && w.step == Completed(fates)
              && w.naks == 0 && w.refused == 0
              && (InOrderAtLeastOnce(w.log, w.step) || InOrderAtLeastOnce(w.log, w.step + 1))
              && w.controller.ns == w.controller.nr
              && (w.controller.nr == w.sends || w.controller.nr == IncN(w.sends))
  {
    OpenedInStep();
    EveryRunStaysInStep(Opened, fates);
    if KeepsLength(fates) {
      CompletedExchanges(Opened, fates);
      assert InStep(Run(Opened, fates[..|fates|]));
      assert fates[..|fates|] == fates;
    }
  }

  lemma OpenedInStep()
    ensures InStep(Opened)
  {
    assert Number(0) == 0 && InOrderAtLeastOnce([], 0);
  }

  lemma {:induction false} CompletedExchanges(w: World, fates: seq<Fate>)
    requires InStep(w) && KeepsLength(fates)
    ensures Run(w, fates).step == w.step + Completed(fates)
    decreases |fates|
  {
    if |fates| != 0 {
      AttemptStaysInStep(w, fates[0]);
      CompletedExchanges(Attempt(w, fates[0]), fates[1..]);
    }
  }

  // ----- Damage to the length of a command -----

  /** The number g exchanges after n. */
  function Advance(n: bv8, g: nat): bv8
    decreases g
  {
    if g == 0 then n else IncN(Advance(n, g - 1))
  }

  lemma {:induction false} AdvanceMoves(n: bv8, g: nat)
    ensures Advance(IncN(n), g) == IncN(Advance(n, g))
    decreases g
  {
    hide IncN;
    if g > 0 {
      AdvanceMoves(n, g - 1);
    }
  }

  /** The same on integers. */
  function AdvancedFrom(n: nat, g: nat): int {
    if g == 0 then n else if n == 0 then (g - 1) % 255 + 1 else (n - 1 + g) % 255 + 1
  }

  lemma AdvancedFromMoves(n: nat, g: nat)
    requires g > 0 && n <= 255
    ensures AdvancedFrom(n, g) == if AdvancedFrom(n, g - 1) == 255 then 1 else AdvancedFrom(n, g - 1) + 1
  {}

  lemma {:induction false} AdvanceInClosedForm(n: bv8, g: nat)
    ensures Advance(n, g) as int == AdvancedFrom(n as int, g)
    decreases g
  {
    hide IncN, AdvancedFrom;
    if g > 0 {
      AdvanceInClosedForm(n, g - 1);
      IncNAsInt(Advance(n, g - 1));
      AdvancedFromMoves(n as int, g);
    } else {
      AdvancedFromStarts(n as int);
    }
  }

  lemma AdvancedFromStarts(n: nat)
    ensures AdvancedFrom(n, 0) == n
  {}

  lemma {:induction false} AdvanceReturns(n: bv8, g: nat)
    requires Advance(n, g) == n
    ensures g % 255 == 0
  {
    AdvanceInClosedForm(n, g);
    if g > 0 {
      assert n as int > 0;
      assert (n as int - 1 + g) % 255 == n as int - 1;
    }
  }

  function LengthDamages(fates: seq<Fate>): nat
    decreases |fates|
  {
    if fates == [] then 0 else (if fates[0].LengthDamaged? then 1 else 0) + LengthDamages(fates[1..])
  }

  /** N(S) of the controller is `gap` exchanges ahead of its N(R). */
  ghost predicate HasGap(w: World, gap: nat) {
    w.sends == w.expects && w.controller.ns == Advance(w.controller.nr, gap)
  }

  /** Each command damaged in length puts N(S) one further ahead of N(R), and nothing else changes the distance. An
      attempt ends an exchange otherwise than by a refusal only when the two are together again. */
  lemma AttemptKeepsGap(w: World, fate: Fate, gap: nat)
    requires HasGap(w, gap)
    ensures HasGap(Attempt(w, fate), gap + if fate.LengthDamaged? then 1 else 0)
    ensures var after := Attempt(w, fate);
            after.step - after.refused != w.step - w.refused ==>
              after.step - after.refused == w.step - w.refused + 1 && gap % 255 == 0
  {
    hide IncN;
    AdvanceMoves(w.controller.nr, gap);
    if w.controller.ns == w.controller.nr {
      AdvanceReturns(w.controller.nr, gap);
    }
  }

  /** In every run the controller's N(S) is ahead of its N(R) by the number of commands damaged in length. */
  lemma {:induction false} GapCountsLengthDamages(w: World, fates: seq<Fate>, gap: nat)
    requires HasGap(w, gap)
    ensures HasGap(Run(w, fates), gap + LengthDamages(fates))
    decreases |fates|
  {
    if fates != [] {
      AttemptKeepsGap(w, fates[0], gap);
      GapCountsLengthDamages(Attempt(w, fates[0]), fates[1..], gap + if fates[0].LengthDamaged? then 1 else 0);
    }
  }

  /** While N(S) is ahead by 1 to 254, no exchange is completed any more: exchanges end with a refusal or not at all. */
  lemma {:induction false} NothingCompletesOutOfStep(w: World, fates: seq<Fate>, gap: nat)
    requires HasGap(w, gap) && 0 < gap && gap + LengthDamages(fates) < 255
    ensures Run(w, fates).step - Run(w, fates).refused == w.step - w.refused
    decreases |fates|
  {
    if fates != [] {
      AttemptKeepsGap(w, fates[0], gap);
      NothingCompletesOutOfStep(Attempt(w, fates[0]), fates[1..], gap + if fates[0].LengthDamaged? then 1 else 0);
    }
  }

  /** One command damaged in length ends the session for good: whatever the link does afterwards, no later exchange is
      completed, unless 254 more commands are damaged in length or the session is started anew. */
  lemma {:induction false} LengthDamageEndsSession(before: seq<Fate>, taken: bool, later: seq<Fate>)
    requires KeepsLength(before) && LengthDamages(later) < 254
    ensures var w := Run(Opened, before + [LengthDamaged(taken)] + later);
            w.step - w.refused == Completed(before)
  {
    OpenedInStep();
    SessionRuns(before);
    NoLengthDamages(before);
    var w := Run(Opened, before);
    assert HasGap(Opened, 0);
    GapCountsLengthDamages(Opened, before, 0);
    AttemptKeepsGap(w, LengthDamaged(taken), 0);
    var hit := Attempt(w, LengthDamaged(taken));
    NothingCompletesOutOfStep(hit, later, 1);
    RunSplits(Opened, before, [LengthDamaged(taken)]);
    assert Run(w, [LengthDamaged(taken)]) == Run(hit, []);
    RunSplits(Opened, before + [LengthDamaged(taken)], later);
  }

  lemma {:induction false} NoLengthDamages(fates: seq<Fate>)
    requires KeepsLength(fates)
    ensures LengthDamages(fates) == 0
    decreases |fates|
  {
    if fates != [] {
      NoLengthDamages(fates[1..]);
    }
  }

  /** In a log of this shape every exchange up to the last really occurs. */
  lemma {:induction false} EveryCommandRuns(log: seq<nat>, n: nat, k: nat)
    requires InOrderAtLeastOnce(log, n) && k < n
    ensures k in log
    decreases |log|
  {
    var last := |log| - 1;
    if log[last] != k {
      var shorter := log[..last];
      assert last > 0;
      assert InOrderAtLeastOnce(shorter, log[last - 1] + 1);
      EveryCommandRuns(shorter, log[last - 1] + 1, k);
    }
  }

  /** The numbers in closed form: they repeat every 255 exchanges, and 0 is never used again. */
  lemma {:induction false} NumberInClosedForm(k: nat)
    ensures Number(k) as int == if k == 0 then 0 else (k - 1) % 255 + 1
    decreases k
  {
    hide IncN;
    if k > 0 {
      NumberInClosedForm(k - 1);
      IncNAsInt(Number(k - 1));
    }
  }

  lemma IncNAsInt(n: bv8)
    ensures IncN(n) as int == if n as int == 255 then 1 else n as int + 1
  {}
}
