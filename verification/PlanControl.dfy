/** Enabling, disabling and replacing plans: `Group` and `Controller` (src/sign/Group.cpp, src/sign/Controller.cpp) over
    one plan store, and what holds of the minute table after every sequence of commands. */
module PlanControl {
  import opened BitSet
  import opened Bytes
  import opened Plans
  import opened PlanTable
  import opened Wrappers

  // ----- The state and its commands -----

  /** The plan store (`UciPln`): the plans that are defined. */
  type Store = map<byte, Plan>

  /** `active` is the plan on display (`onDispPlnId`), 0 for none; `enabled` the persistent set. */
  datatype GroupState = GroupState(table: Table, enabled: set<byte>, active: byte)

  datatype State = State(store: Store, groups: seq<GroupState>)

  ghost predicate ValidStore(store: Store) {
    forall id :: id in store ==> id != 0 && ValidPlan(store[id]) && store[id].plnId == id
  }

  function Empty(): Table {
    seq(MINUTES_A_WEEK, _ => FreeMinute)
  }

  predicate IsPlanActive(g: GroupState, id: byte) {
    if id == 0 then g.active != 0 else g.active == id
  }

  /** `Group::EnDisPlan`: plan 0 stands for all plans, and either way disables them. */
  ghost function EnDisPlan(store: Store, g: GroupState, id: byte, endis: bool): (GroupState, AppError)
    requires ValidStore(store)
  {
    if IsPlanActive(g, id) then (g, FrmMsgPlnActive)
    else if id == 0 then (g.(table := Empty(), enabled := {}), AppNoError)
    else if id !in store then (g, FrmMsgPlnUndefined)
    else if endis then
      if id in g.enabled then (g, PlanEnabled)
      else if Taken(g.table, store[id]) then (g, OverlaysNotSupported)
      else (g.(table := Loaded(g.table, id, store[id]), enabled := g.enabled + {id}), AppNoError)
    else
      if id !in g.enabled then (g, PlanNotEnabled)
      else (g.(table := Cleared(g.table, store[id]), enabled := g.enabled - {id}), AppNoError)
  }

  /** The plan part of `Group::SystemReset`: from level 1 on, nothing is on display and no plan is enabled. */
  ghost function ResetGroup(g: GroupState, level: byte): GroupState {
    if level == 0 then g else GroupState(Empty(), {}, 0)
  }

  /** The constructor's loop over the ids from `id` up to 255. */
  ghost function Rebuilt(store: Store, enabled: set<byte>, id: nat, t: Table): Table
    requires ValidStore(store) && id <= 256
    decreases 256 - id
  {
    if id == 256 then t
    else Rebuilt(store, enabled, id + 1, if id in enabled && id in store then Loaded(t, id, store[id]) else t)
  }

  /** A group after start-up: nothing is on display, and the stored set of enabled plans fills the table. */
  ghost function Restarted(store: Store, g: GroupState): GroupState
    requires ValidStore(store)
  {
    GroupState(Rebuilt(store, g.enabled, 1, Empty()), g.enabled, 0)
  }

  datatype Command =
    | EnDis(grpId: byte, plnId: byte, endis: bool)
    | SetPlan(plan: AcceptedPlan)
    | SpoiltPlan(plnId: byte, error: AppError)
    | OverlongPlan(plnId: byte)
    | SystemReset(grpId: byte, level: byte)
    | Display(grpId: byte, plnId: byte)
    | Restart

  /** A plan that `Plan::Init` accepts. */
  type AcceptedPlan = p: Plan | ValidPlan(p)
    witness Plan(1, 0, 1, [PlnEntry(EntryFrame, 1, Hm(0, 0), Hm(0, 0))], (0, 0))

  /** What `SignSetPlan` checks before it looks at the plan itself. */
  ghost function SetPlanRefusal(s: State, id: byte): AppError {
    if id == 0 then SyntaxError
    else if exists g :: g in s.groups && g.active == id then FrmMsgPlnActive
    else if exists g :: g in s.groups && id in g.enabled then PlanEnabled
    else AppNoError
  }

  /** One command. `SpoiltPlan` is a set-plan command whose plan `Plan::Init` refuses with `error`; one that is longer
      than any plan is refused before it is asked whether the plan is in use. `Display` is not one of the protocol: it
      stands for the display tasks, which may at any time put any plan of a group on display, or none. After `Restart`
      the stores are as they were and the groups are built anew from them. */
  ghost function Step(s: State, c: Command): (State, AppError)
    requires ValidStore(s.store)
  {
    match c
    case EnDis(grpId, plnId, endis) =>
      if grpId == 0 || grpId > |s.groups| then (s, UndefinedDeviceNumber)
      else if endis && plnId != 0 && plnId !in s.store then (s, FrmMsgPlnUndefined)
      else
        var (g, r) := EnDisPlan(s.store, s.groups[grpId - 1], plnId, endis);
        (s.(groups := s.groups[grpId - 1 := g]), r)
    case SetPlan(plan) =>
      var r := SetPlanRefusal(s, plan.plnId);
      (if r == AppNoError then s.(store := s.store[plan.plnId := plan]) else s, r)
    case SpoiltPlan(plnId, error) =>
      var r := SetPlanRefusal(s, plnId);
      (s, if r == AppNoError then error else r)
    case OverlongPlan(plnId) => (s, if plnId == 0 then SyntaxError else LengthError)
    case SystemReset(grpId, level) =>
      if 3 < level < 255 then (s, SyntaxError)
      else if level > 1 && grpId != 0 then (s, UndefinedDeviceNumber)
      else if grpId > |s.groups| then (s, UndefinedDeviceNumber)
      else if grpId != 0 then (s.(groups := s.groups[grpId - 1 := ResetGroup(s.groups[grpId - 1], level)]), AppNoError)
      else
        (State(if level >= 3 then map[] else s.store,
               seq(|s.groups|, i requires 0 <= i < |s.groups| => ResetGroup(s.groups[i], level))), AppNoError)
    case Display(grpId, plnId) =>
      if grpId == 0 || grpId > |s.groups| then (s, UndefinedDeviceNumber)
      else (s.(groups := s.groups[grpId - 1 := s.groups[grpId - 1].(active := plnId)]), AppNoError)
    case Restart =>
      (s.(groups := seq(|s.groups|, i requires 0 <= i < |s.groups| => Restarted(s.store, s.groups[i]))), AppNoError)
  }

  // ----- The index is right -----

  /** Every minute is marked with plan p, and with the entry of p that its sweep leaves there, exactly when p is enabled
      and covers it. */
  ghost predicate IndexIsRight(store: Store, g: GroupState)
    requires ValidStore(store)
  {
    && (forall p :: p in g.enabled ==> p in store)
    && forall m :: 0 <= m < MINUTES_A_WEEK ==> MinuteIsRight(store, g, m)
  }

  ghost predicate MinuteIsRight(store: Store, g: GroupState, m: nat)
    requires ValidStore(store) && m < MINUTES_A_WEEK
    requires forall p :: p in g.enabled ==> p in store
  {
    && (forall p :: p in g.enabled && EntryOf(store[p], m).Some? ==> g.table[m].plnId == p)
    && (g.table[m].plnId != 0 ==>
          g.table[m].plnId in g.enabled
          && EntryOf(store[g.table[m].plnId], m).Some?
          && g.table[m] == Owned(g.table[m].plnId, EntryOf(store[g.table[m].plnId], m).value))
  }

  ghost predicate AllRight(s: State) {
    ValidStore(s.store) && forall g :: g in s.groups ==> IndexIsRight(s.store, g)
  }

  lemma LoadKeepsRight(store: Store, g: GroupState, id: byte)
    requires ValidStore(store) && IndexIsRight(store, g)
    requires id in store && id !in g.enabled && !Taken(g.table, store[id])
    ensures IndexIsRight(store, g.(table := Loaded(g.table, id, store[id]), enabled := g.enabled + {id}))
  {
    hide EntryOf, ValidPlan;
    var after := g.(table := Loaded(g.table, id, store[id]), enabled := g.enabled + {id});
    forall m | 0 <= m < MINUTES_A_WEEK ensures MinuteIsRight(store, after, m) {
      assert MinuteIsRight(store, g, m);
    }
  }

  lemma ClearKeepsRight(store: Store, g: GroupState, id: byte)
    requires ValidStore(store) && IndexIsRight(store, g)
    requires id in g.enabled
    ensures IndexIsRight(store, g.(table := Cleared(g.table, store[id]), enabled := g.enabled - {id}))
  {
    hide EntryOf, ValidPlan;
    var after := g.(table := Cleared(g.table, store[id]), enabled := g.enabled - {id});
    forall m | 0 <= m < MINUTES_A_WEEK ensures MinuteIsRight(store, after, m) {
      assert MinuteIsRight(store, g, m);
    }
  }

  lemma EmptyIsRight(store: Store, active: byte)
    requires ValidStore(store)
    ensures IndexIsRight(store, GroupState(Empty(), {}, active))
  {}

  lemma EnDisKeepsRight(store: Store, g: GroupState, id: byte, endis: bool)
    requires ValidStore(store) && IndexIsRight(store, g)
    ensures IndexIsRight(store, EnDisPlan(store, g, id, endis).0)
  {
    hide IndexIsRight, Loaded, Cleared;
    EmptyIsRight(store, g.active);
    if id in store && id !in g.enabled && !Taken(g.table, store[id]) {
      LoadKeepsRight(store, g, id);
    }
    if id in g.enabled && id in store {
      ClearKeepsRight(store, g, id);
    }
  }

  /** Replacing a plan no group has enabled leaves every index right. */
  lemma SetPlanKeepsRight(store: Store, g: GroupState, plan: Plan)
    requires ValidStore(store) && IndexIsRight(store, g)
    requires plan.plnId != 0 && ValidPlan(plan) && plan.plnId !in g.enabled
    ensures ValidStore(store[plan.plnId := plan]) && IndexIsRight(store[plan.plnId := plan], g)
  {
    hide EntryOf, ValidPlan;
    var after := store[plan.plnId := plan];
    forall m | 0 <= m < MINUTES_A_WEEK ensures MinuteIsRight(after, g, m) {
      assert MinuteIsRight(store, g, m);
    }
  }

  // ----- The table rebuilt at start-up -----

  /** Two tables say the same about a minute: the same plan, and the same entry unless the minute is free. */
  predicate SameMinute(a: PlnMinute, b: PlnMinute) {
    a.plnId == b.plnId && (a.plnId != 0 ==> a == b)
  }

  ghost predicate PartlyRight(store: Store, g: GroupState, id: nat, t: Table) {
    forall m :: 0 <= m < MINUTES_A_WEEK ==>
                  SameMinute(t[m], if g.table[m].plnId < id then g.table[m] else FreeMinute)
  }

  lemma {:induction false} RebuildAgrees(store: Store, g: GroupState, id: nat, t: Table)
    requires ValidStore(store) && IndexIsRight(store, g)
    requires 1 <= id <= 256 && PartlyRight(store, g, id, t)
    ensures forall m :: 0 <= m < MINUTES_A_WEEK ==> SameMinute(Rebuilt(store, g.enabled, id, t)[m], g.table[m])
    decreases 256 - id
  {
    hide EntryOf, ValidPlan;
    if id < 256 {
      var next := if id in g.enabled && id in store then Loaded(t, id, store[id]) else t;
      forall m | 0 <= m < MINUTES_A_WEEK
        ensures SameMinute(next[m], if g.table[m].plnId < id + 1 then g.table[m] else FreeMinute)
      {
        assert MinuteIsRight(store, g, m);
      }
      RebuildAgrees(store, g, id + 1, next);
    }
  }

  /** Whatever order the plans were enabled in, start-up, which loads the enabled ones in ascending order into an empty
      table, gives the same answer at every minute; so the new index is right again. */
  lemma RestartKeepsRight(store: Store, g: GroupState)
    requires ValidStore(store) && IndexIsRight(store, g)
    ensures IndexIsRight(store, Restarted(store, g)) && Restarted(store, g).active == 0
    ensures forall m :: 0 <= m < MINUTES_A_WEEK ==> SameMinute(Restarted(store, g).table[m], g.table[m])
  {
    hide EntryOf, ValidPlan, Rebuilt;
    RebuildAgrees(store, g, 1, Empty());
    forall m | 0 <= m < MINUTES_A_WEEK ensures MinuteIsRight(store, Restarted(store, g), m) {
      assert MinuteIsRight(store, g, m);
      assert SameMinute(Restarted(store, g).table[m], g.table[m]);
    }
  }

  /** A stored set of enabled plans: each is in the store, and no two of them cover a minute together. */
  ghost predicate Compatible(store: Store, enabled: set<byte>)
    requires ValidStore(store)
  {
    && (forall p :: p in enabled ==> p in store)
    && forall p, q, m | p in enabled && q in enabled && 0 <= m < MINUTES_A_WEEK
         :: EntryOf(store[p], m).Some? && EntryOf(store[q], m).Some? ==> p == q
  }

  ghost function MinuteFor(store: Store, enabled: set<byte>, m: nat): PlnMinute
    requires ValidStore(store) && Compatible(store, enabled) && m < MINUTES_A_WEEK
  {
    if exists p :: p in enabled && EntryOf(store[p], m).Some? then
      var p :| p in enabled && EntryOf(store[p], m).Some?;
      Owned(p, EntryOf(store[p], m).value)
    else FreeMinute
  }

  /** Start-up from any stored set of enabled plans gives a right index exactly when the plans are compatible; that is a
      question of the stored data alone, and every set that a run leaves is. */
  lemma StartUpIsRight(store: Store, g: GroupState)
    requires ValidStore(store)
    ensures IndexIsRight(store, Restarted(store, g)) <==> Compatible(store, g.enabled)
    ensures IndexIsRight(store, g) ==> Compatible(store, g.enabled)
  {
    hide EntryOf, ValidPlan, Rebuilt, Restarted;
    if IndexIsRight(store, g) {
      RightIsCompatible(store, g);
    }
    assert Restarted(store, g).enabled == g.enabled by {
      RestartKeepsEnabled(store, g);
    }
    if IndexIsRight(store, Restarted(store, g)) {
      RightIsCompatible(store, Restarted(store, g));
    }
    if Compatible(store, g.enabled) {
      var ideal := GroupState(seq(MINUTES_A_WEEK, m requires 0 <= m < MINUTES_A_WEEK => MinuteFor(store, g.enabled, m)),
                              g.enabled, 0);
      forall m | 0 <= m < MINUTES_A_WEEK ensures MinuteIsRight(store, ideal, m) {}
      RestartKeepsRight(store, ideal);
      RestartGoesByEnabled(store, g, ideal);
    }
  }

  lemma RightIsCompatible(store: Store, g: GroupState)
    requires ValidStore(store) && IndexIsRight(store, g)
    ensures Compatible(store, g.enabled)
  {
    hide EntryOf;
    forall p, q, m | p in g.enabled && q in g.enabled && 0 <= m < MINUTES_A_WEEK
                     && EntryOf(store[p], m).Some? && EntryOf(store[q], m).Some?
      ensures p == q
    {
      assert MinuteIsRight(store, g, m);
    }
  }

  lemma RestartKeepsEnabled(store: Store, g: GroupState)
    requires ValidStore(store)
    ensures Restarted(store, g).enabled == g.enabled
  {}

  lemma RestartGoesByEnabled(store: Store, g: GroupState, h: GroupState)
    requires ValidStore(store) && g.enabled == h.enabled
    ensures Restarted(store, g) == Restarted(store, h)
  {}

  // ----- Every run -----

  /** Every command leaves every index right. */
  lemma StepKeepsRight(s: State, c: Command)
    requires AllRight(s)
    ensures AllRight(Step(s, c).0)
  {
    hide IndexIsRight, EnDisPlan, ValidPlan, Restarted;
    var after := Step(s, c).0;
    match c
    case EnDis(grpId, plnId, endis) =>
      if 0 < grpId <= |s.groups| {
        EnDisKeepsRight(s.store, s.groups[grpId - 1], plnId, endis);
      }
    case SpoiltPlan(_, _) =>
    case OverlongPlan(_) =>
    case SetPlan(plan) =>
      if SetPlanRefusal(s, plan.plnId) == AppNoError {
        forall g | g in s.groups ensures IndexIsRight(after.store, g) {
          SetPlanKeepsRight(s.store, g, plan);
        }
      }
    case SystemReset(grpId, level) =>
      EmptyIsRight(s.store, 0);
      EmptyIsRight(map[], 0);
    case Display(grpId, plnId) =>
      if 0 < grpId <= |s.groups| {
        ActiveDoesNotMatter(s.store, s.groups[grpId - 1], plnId);
      }
    case Restart =>
      forall i | 0 <= i < |s.groups| ensures IndexIsRight(after.store, after.groups[i]) {
        RestartKeepsRight(s.store, s.groups[i]);
      }
  }

  lemma ActiveDoesNotMatter(store: Store, g: GroupState, active: byte)
    requires ValidStore(store) && IndexIsRight(store, g)
    ensures IndexIsRight(store, g.(active := active))
  {
    hide EntryOf;
    forall m | 0 <= m < MINUTES_A_WEEK ensures MinuteIsRight(store, g.(active := active), m) {
      assert MinuteIsRight(store, g, m);
    }
  }

  ghost function Run(s: State, cs: seq<Command>): (r: State)
    requires AllRight(s)
    ensures AllRight(r)
    decreases |cs|
  {
    if |cs| == 0 then s
    else
      StepKeepsRight(s, cs[0]);
      Run(Step(s, cs[0]).0, cs[1..])
  }

  /** A run carries out its commands one after the other, from the first to the last. */
  lemma {:induction false} RunsInOrder(s: State, cs: seq<Command>, c: Command)
    requires AllRight(s)
    ensures Run(s, []) == s && Run(s, cs + [c]) == Step(Run(s, cs), c).0
    decreases |cs|
  {
    hide IndexIsRight, Step;
    if cs == [] {
      assert [] + [c] == [c] && [c][1..] == [];
    } else {
      StepKeepsRight(s, cs[0]);
      RunsInOrder(Step(s, cs[0]).0, cs[1..], c);
      assert (cs + [c])[1..] == cs[1..] + [c];
    }
  }

  /** A slot names plan p and carries an entry of p that covers the minute on a day of p. */
  ghost predicate CarriesEntry(slot: PlnMinute, p: byte, plan: Plan, m: int)
    requires forall e :: e in plan.entries ==> ValidEntry(e)
  {
    exists day, j :: 0 <= day < DAYS_A_WEEK && 0 <= j < |plan.entries|
                     && OnDay(plan.weekdays, day) && EntryCovers(day, plan.entries[j], m)
                     && slot == Owned(p, plan.entries[j])
  }

  /** After every sequence of commands and restarts from a controller without enabled plans: a minute is marked with p
      exactly when p is enabled in that group and one of its entries covers the minute, the mark is of such an entry, and
      no minute belongs to two plans. */
  lemma {:induction false} IndexAgreesWithPlans(s: State, cs: seq<Command>, i: nat, m: nat)
    requires ValidStore(s.store) && forall g :: g in s.groups ==> g.table == Empty() && g.enabled == {}
    requires i < |s.groups| && m < MINUTES_A_WEEK
    ensures AllRight(s) && |Run(s, cs).groups| == |s.groups| && ValidStore(Run(s, cs).store)
    ensures var after := Run(s, cs); var g := after.groups[i];
            && g.enabled <= after.store.Keys
            && (forall p: byte :: p != 0 ==>
                 (g.table[m].plnId == p <==> p in g.enabled && Covers(after.store[p], m)))
            && (g.table[m].plnId != 0 ==>
                  CarriesEntry(g.table[m], g.table[m].plnId, after.store[g.table[m].plnId], m))
            && (forall p, q :: p in g.enabled && q in g.enabled && Covers(after.store[p], m) && Covers(after.store[q], m)
                 ==> p == q)
  {
    hide EntryOf, Covers, ValidPlan, CarriesEntry;
    forall g | g in s.groups ensures IndexIsRight(s.store, g) {
      EmptyIsRight(s.store, g.active);
      assert g == GroupState(Empty(), {}, g.active);
    }
    RunKeepsGroups(s, cs);
    var after := Run(s, cs);
    var g := after.groups[i];
    assert g in after.groups && MinuteIsRight(after.store, g, m);
    forall p | p in g.enabled ensures forall e :: e in after.store[p].entries ==> ValidEntry(e) {
      PlanEntriesValid(after.store[p]);
    }
    forall p | p in g.enabled ensures EntryOf(after.store[p], m).Some? <==> Covers(after.store[p], m) {
      EntryOfCovered(after.store[p], m);
    }
    if g.table[m].plnId != 0 {
      OwnedIsCarried(g.table[m].plnId, after.store[g.table[m].plnId], m);
    }
  }

  /** What a group finds in its table at a time of the week, after every such sequence: plan p exactly when p is enabled
      and one of its entries is in force by the clock, and then the frame or message of such an entry. */
  lemma {:induction false} TableByTheClock(s: State, cs: seq<Command>, i: nat, day: nat, hour: nat, min: nat)
    requires ValidStore(s.store) && forall g :: g in s.groups ==> g.table == Empty() && g.enabled == {}
    requires i < |s.groups| && day < DAYS_A_WEEK && hour < 24 && min < 60
    ensures AllRight(s) && |Run(s, cs).groups| == |s.groups| && ValidStore(Run(s, cs).store)
    ensures var after := Run(s, cs); var g := after.groups[i]; var now := g.table[(day * 24 + hour) * 60 + min];
            && g.enabled <= after.store.Keys
            && (forall p: byte :: p != 0 ==>
                 (now.plnId == p <==> p in g.enabled && IsInForce(after.store[p], day, hour, min)))
            && (now.plnId != 0 ==>
                  var entries := after.store[now.plnId].entries;
                  exists j :: 0 <= j < |entries| && InForce(after.store[now.plnId], j, day, hour, min)
                              && now.fmType == entries[j].fmType && now.fmId == entries[j].fmId)
  {
    hide EntryOf, Covers, ValidPlan, InForce, Run, Empty, CarriesEntry, EntryCovers;
    var m := (day * 24 + hour) * 60 + min;
    IndexAgreesWithPlans(s, cs, i, m);
    var after := Run(s, cs);
    var g := after.groups[i];
    forall p | p in g.enabled ensures forall e :: e in after.store[p].entries ==> ValidEntry(e) {
      PlanEntriesValid(after.store[p]);
    }
    forall p | p in g.enabled ensures Covers(after.store[p], m) <==> IsInForce(after.store[p], day, hour, min) {
      CoversByTheClock(after.store[p], day, hour, min);
    }
    if g.table[m].plnId != 0 {
      PlanEntriesValid(after.store[g.table[m].plnId]);
      CarriedByTheClock(g.table[m], after.store[g.table[m].plnId], day, hour, min);
    }
  }

  /** Some entry of the plan is in force. */
  ghost predicate IsInForce(p: Plan, day: nat, hour: nat, min: nat) {
    exists j :: 0 <= j < |p.entries| && InForce(p, j, day, hour, min)
  }

  lemma CarriedByTheClock(slot: PlnMinute, plan: Plan, day: nat, hour: nat, min: nat)
    requires forall e :: e in plan.entries ==> ValidEntry(e)
    requires day < DAYS_A_WEEK && hour < 24 && min < 60
    requires CarriesEntry(slot, slot.plnId, plan, (day * 24 + hour) * 60 + min)
    ensures exists j :: 0 <= j < |plan.entries| && InForce(plan, j, day, hour, min)
                        && slot.fmType == plan.entries[j].fmType && slot.fmId == plan.entries[j].fmId
  {
    hide OnDay, EntryCovers;
    var m := (day * 24 + hour) * 60 + min;
    var from, j :| 0 <= from < DAYS_A_WEEK && 0 <= j < |plan.entries| && OnDay(plan.weekdays, from)
                   && EntryCovers(from, plan.entries[j], m) && slot == Owned(slot.plnId, plan.entries[j]);
    EntryByTheClock(plan.entries[j], from, day, hour, min);
  }

  lemma OwnedIsCarried(p: byte, plan: Plan, m: nat)
    requires ValidPlan(plan) && EntryOf(plan, m).Some?
    ensures CarriesEntry(Owned(p, EntryOf(plan, m).value), p, plan, m)
  {
    hide OnDay, EntryCovers;
    EntryOfCovers(plan, m);
  }

  lemma PlanEntriesValid(p: Plan)
    requires ValidPlan(p)
    ensures forall e :: e in p.entries ==> ValidEntry(e)
  {}

  lemma {:induction false} RunKeepsGroups(s: State, cs: seq<Command>)
    requires AllRight(s)
    ensures |Run(s, cs).groups| == |s.groups|
    decreases |cs|
  {
    if |cs| != 0 {
      StepKeepsRight(s, cs[0]);
      RunKeepsGroups(Step(s, cs[0]).0, cs[1..]);
    }
  }

  /** At any time in any run a restart changes the answer at no minute. */
  lemma {:induction false} RestartAgrees(s: State, cs: seq<Command>, i: nat, m: nat)
    requires AllRight(s) && i < |Run(s, cs).groups| && m < MINUTES_A_WEEK
    ensures var after := Run(s, cs);
            var again := Step(after, Restart).0;
            && again.store == after.store && again.groups[i].enabled == after.groups[i].enabled
            && SameMinute(again.groups[i].table[m], after.groups[i].table[m])
  {
    hide IndexIsRight, Run;
    var after := Run(s, cs);
    RestartKeepsRight(after.store, after.groups[i]);
  }

  /** Two plans of the store cover a minute together. */
  ghost predicate Overlap(store: Store, p: byte, q: byte)
    requires ValidStore(store) && p in store && q in store
  {
    exists m :: 0 <= m < MINUTES_A_WEEK && EntryOf(store[p], m).Some? && EntryOf(store[q], m).Some?
  }

  lemma TakenMeansOverlap(store: Store, g: GroupState, id: byte)
    requires ValidStore(store) && IndexIsRight(store, g) && id in store
    ensures Taken(g.table, store[id]) <==> exists q :: q in g.enabled && Overlap(store, id, q)
  {
    hide EntryOf, ValidPlan;
    PlanEntriesValid(store[id]);
    if Taken(g.table, store[id]) {
      var m :| 0 <= m < MINUTES_A_WEEK && EntryOf(store[id], m).Some? && g.table[m].plnId != 0;
      assert MinuteIsRight(store, g, m);
      assert Overlap(store, id, g.table[m].plnId);
    }
    forall q | q in g.enabled && Overlap(store, id, q) ensures Taken(g.table, store[id]) {
      PlanEntriesValid(store[q]);
      var m :| 0 <= m < MINUTES_A_WEEK && EntryOf(store[id], m).Some? && EntryOf(store[q], m).Some?;
      assert MinuteIsRight(store, g, m);
    }
  }

  lemma OverlapIsCommonMinute(store: Store, p: byte, q: byte)
    requires ValidStore(store) && p in store && q in store
    ensures Overlap(store, p, q) <==>
            exists m :: 0 <= m < MINUTES_A_WEEK && Covers(store[p], m) && Covers(store[q], m)
  {
    hide EntryOf, Covers, ValidPlan;
    PlanEntriesValid(store[p]);
    PlanEntriesValid(store[q]);
    forall m | 0 <= m < MINUTES_A_WEEK
      ensures EntryOf(store[p], m).Some? == Covers(store[p], m) && EntryOf(store[q], m).Some? == Covers(store[q], m)
    {
      EntryOfCovered(store[p], m);
      EntryOfCovered(store[q], m);
    }
  }

  /** How a command for one plan is answered, and what becomes of the enabled set. A plan on display is left alone, and
      so is one that does not exist. To enable one that is enabled already, or has a minute in common with an enabled
      plan, is refused, and so is to disable one that is not enabled. */
  lemma AnswerByPlans(store: Store, g: GroupState, id: byte, endis: bool)
    requires ValidStore(store) && IndexIsRight(store, g) && id != 0
    ensures var (after, r) := EnDisPlan(store, g, id, endis);
            && r == (if g.active == id then FrmMsgPlnActive
                     else if id !in store then FrmMsgPlnUndefined
                     else if endis && id in g.enabled then PlanEnabled
                     else if endis && exists q :: q in g.enabled && Overlap(store, id, q) then OverlaysNotSupported
                     else if !endis && id !in g.enabled then PlanNotEnabled
                     else AppNoError)
            && after.enabled == (if r != AppNoError then g.enabled else if endis then g.enabled + {id}
                                 else g.enabled - {id})
            && after.active == g.active
  {
    hide EntryOf, ValidPlan, Taken, Overlap, IndexIsRight, Loaded, Cleared;
    if id in store {
      TakenMeansOverlap(store, g, id);
    }
    assert forall p :: p in g.enabled ==> p in store by { EnabledAreStored(store, g); }
  }

  lemma EnabledAreStored(store: Store, g: GroupState)
    requires ValidStore(store) && IndexIsRight(store, g)
    ensures forall p :: p in g.enabled ==> p in store
  {}

  /** Plan 0 stands for all plans, and either way disables them, unless some plan is on display. */
  lemma AnswerForAll(store: Store, g: GroupState, endis: bool)
    requires ValidStore(store)
    ensures var (after, r) := EnDisPlan(store, g, 0, endis);
            if g.active != 0 then r == FrmMsgPlnActive && after == g
            else r == AppNoError && after.enabled == {} &&
                 forall m :: 0 <= m < MINUTES_A_WEEK ==> after.table[m].plnId == 0
  {}

  /** A command for the plans of one group reaches that group only, and no plan store. */
  lemma OneGroupAnswers(s: State, grpId: byte, plnId: byte, endis: bool)
    requires ValidStore(s.store)
    ensures var (after, r) := Step(s, EnDis(grpId, plnId, endis));
            && after.store == s.store && |after.groups| == |s.groups|
            && (grpId == 0 || grpId > |s.groups| ==> r == UndefinedDeviceNumber && after == s)
            && (1 <= grpId <= |s.groups| && endis && plnId != 0 && plnId !in s.store ==>
                r == FrmMsgPlnUndefined && after == s)
            && (1 <= grpId <= |s.groups| && (plnId == 0 || plnId in s.store) ==>
                  (after.groups[grpId - 1], r) == EnDisPlan(s.store, s.groups[grpId - 1], plnId, endis))
            && forall i :: 0 <= i < |s.groups| && i != grpId - 1 ==> after.groups[i] == s.groups[i]
  {
    hide EnDisPlan;
  }

  /** A plan is replaced exactly when it has an id, and no group has it on display or enabled; otherwise nothing
      happens. */
  lemma SetPlanAnswers(s: State, plan: AcceptedPlan)
    requires ValidStore(s.store)
    ensures var (after, r) := Step(s, SetPlan(plan)); var id := plan.plnId;
            var shown := exists i :: 0 <= i < |s.groups| && s.groups[i].active == id;
            var enabled := exists i :: 0 <= i < |s.groups| && id in s.groups[i].enabled;
            && r == (if id == 0 then SyntaxError else if shown then FrmMsgPlnActive else if enabled then PlanEnabled
                     else AppNoError)
            && after.store == (if id != 0 && !shown && !enabled then s.store[id := plan] else s.store)
            && after.groups == s.groups
  {
    hide ValidPlan;
    var id := plan.plnId;
    assert (exists g :: g in s.groups && g.active == id) <==> exists i :: 0 <= i < |s.groups| && s.groups[i].active == id;
    assert (exists g :: g in s.groups && id in g.enabled) <==>
           exists i :: 0 <= i < |s.groups| && id in s.groups[i].enabled;
  }

  /** A reset by its level: 0 changes nothing here; from 1 on, and 255, the groups reached have nothing on display, no
      plan enabled and no minute taken; from 3 on no plan is left in the store. Levels other than 0 and 1 are for all
      groups at once, and those between 3 and 255 do not exist. */
  lemma ResetByLevel(s: State, grpId: byte, level: byte)
    requires ValidStore(s.store)
    ensures var (after, r) := Step(s, SystemReset(grpId, level));
            && |after.groups| == |s.groups|
            && (r == AppNoError <==>
                  level in {0, 1, 2, 3, 255} && grpId <= |s.groups| && (grpId == 0 || level in {0, 1}))
            && (r != AppNoError ==>
                  after == s && r == if level in {0, 1, 2, 3, 255} then UndefinedDeviceNumber else SyntaxError)
            && (r == AppNoError ==>
                  && after.store == (if level in {3, 255} then map[] else s.store)
                  && forall i :: 0 <= i < |s.groups| ==>
                       if level != 0 && grpId in {0, i + 1} then IsCleared(after.groups[i])
                       else after.groups[i] == s.groups[i])
  {}

  ghost predicate IsCleared(g: GroupState) {
    g.active == 0 && g.enabled == {} && forall m :: 0 <= m < MINUTES_A_WEEK ==> g.table[m].plnId == 0
  }

  /** Enabling a plan and disabling it again restores the plan of every minute and the enabled set. */
  lemma EnableThenDisable(store: Store, g: GroupState, id: byte)
    requires ValidStore(store) && IndexIsRight(store, g)
    requires id != 0 && EnDisPlan(store, g, id, true).1 == AppNoError
    ensures var on := EnDisPlan(store, g, id, true).0;
            var (off, r) := EnDisPlan(store, on, id, false);
            && r == AppNoError && off.enabled == g.enabled && off.active == g.active
            && forall m :: 0 <= m < MINUTES_A_WEEK ==> off.table[m].plnId == g.table[m].plnId
  {
    hide EntryOf, ValidPlan;
    forall m | 0 <= m < MINUTES_A_WEEK
      ensures Cleared(Loaded(g.table, id, store[id]), store[id])[m].plnId == g.table[m].plnId
    {
      assert MinuteIsRight(store, g, m);
    }
  }
}
