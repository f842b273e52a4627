/** The objects behind `PlanControl`: a group with its minute table and its persistent set of enabled plans, and the
    controller that owns the groups and the plan store. */
module PlanGroups {
  import opened BitSet
  import opened Bytes
  import opened PlanControl
  import opened PlanRecord
  import opened Plans
  import opened PlanTable
  import opened Wrappers

  class Group {
    const minutes: MinuteTable
    const enabledPln: Bits
    var onDispPlnId: byte

    ghost predicate Valid() {
      minutes.Valid() && enabledPln.Valid() && enabledPln.size == 256
    }

    /** Everything a group writes. */
    ghost function Repr(): set<object> {
      {this, minutes.plnMin, enabledPln.data}
    }

    ghost function Enabled(): set<byte>
      requires Valid()
      reads Repr()
    {
      set id: byte | id in enabledPln.Contents() && id != 0
    }

    ghost function View(): GroupState
      requires Valid()
      reads Repr()
    {
      GroupState(minutes.View(), Enabled(), onDispPlnId)
    }

    /** Start-up: an empty table, then the enabled plans in ascending order. `enabledPln` is the stored set. */
    constructor (enabledPln: Bits, store: Store)
      requires enabledPln.Valid() && enabledPln.size == 256 && ValidStore(store)
      ensures Valid() && this.enabledPln == enabledPln && fresh(minutes.plnMin)
      ensures enabledPln.Contents() == old(enabledPln.Contents())
      ensures View() == GroupState(Rebuilt(store, Enabled(), 1, Empty()), Enabled(), 0)
    {
      this.enabledPln := enabledPln;
      minutes := new MinuteTable();
      onDispPlnId := 0;
      new;
      LoadEnabled(store);
    }

    method LoadEnabled(store: Store)
      requires Valid() && ValidStore(store)
      modifies minutes.plnMin
      ensures minutes.View() == Rebuilt(store, Enabled(), 1, old(minutes.View()))
    {
      hide Loaded, ValidPlan;
      for i := 1 to 256
        invariant Rebuilt(store, Enabled(), i, minutes.View()) == Rebuilt(store, Enabled(), 1, old(minutes.View()))
      {
        var on := IsPlanEnabled(i);
        if on && i in store {
          minutes.LoadPlan(i, store[i]);
        }
      }
    }

    /** `GrpProc::IsPlanEnabled`. */
    method IsPlanEnabled(id: byte) returns (on: bool)
      requires Valid()
      ensures on == (id in Enabled())
    {
      if id == 0 {
        return false;
      }
      on := enabledPln.GetBit(id);
    }

    /** `GrpProc::EnDisPlan`. */
    method SetEnabled(id: byte, endis: bool)
      requires Valid()
      modifies enabledPln.data
      ensures Enabled() == if id == 0 then {} else if endis then old(Enabled()) + {id} else old(Enabled()) - {id}
    {
      if id == 0 {
        enabledPln.ClrAll();
      } else if endis {
        enabledPln.SetBit(id);
      } else {
        enabledPln.ClrBit(id);
      }
    }

    method EnablePlan(store: Store, id: byte) returns (r: AppError)
      requires Valid() && ValidStore(store) && id in store
      modifies minutes.plnMin
      ensures r == if id in Enabled() then PlanEnabled
                   else if Taken(old(minutes.View()), store[id]) then OverlaysNotSupported else AppNoError
      ensures minutes.View() == if r == AppNoError then Loaded(old(minutes.View()), id, store[id])
                                else old(minutes.View())
    {
      hide Loaded, Taken;
      var on := IsPlanEnabled(id);
      if on {
        return PlanEnabled;
      }
      var taken := minutes.IsEnPlanOverlap(store[id]);
      if taken {
        return OverlaysNotSupported;
      }
      minutes.LoadPlan(id, store[id]);
      r := AppNoError;
    }

    method DisablePlan(store: Store, id: byte) returns (r: AppError)
      requires Valid() && ValidStore(store) && id in store
      modifies minutes.plnMin, enabledPln.data
      ensures r == if id !in old(Enabled()) then PlanNotEnabled else AppNoError
      ensures Enabled() == old(Enabled()) - {id}
      ensures minutes.View() == if r == AppNoError then Cleared(old(minutes.View()), store[id])
                                else old(minutes.View())
    {
      hide Cleared;
      var on := IsPlanEnabled(id);
      if !on {
        return PlanNotEnabled;
      }
      SetEnabled(id, false);
      minutes.ClearPlan(store[id]);
      r := AppNoError;
    }

    method EnDisPlan(store: Store, id: byte, endis: bool) returns (r: AppError)
      requires Valid() && ValidStore(store)
      modifies minutes.plnMin, enabledPln.data
      ensures (View(), r) == PlanControl.EnDisPlan(store, old(View()), id, endis)
    {
      hide Loaded, Cleared, Taken, ValidPlan;
      if (if id == 0 then onDispPlnId != 0 else onDispPlnId == id) {
        return FrmMsgPlnActive;
      }
      ghost var enabled := Enabled();
      if id == 0 {
        minutes.Fill();
        assert minutes.View() == Empty();
      } else {
        if id !in store {
          return FrmMsgPlnUndefined;
        }
        if endis {
          r := EnablePlan(store, id);
        } else {
          r := DisablePlan(store, id);
        }
        if r != AppNoError {
          assert Enabled() == enabled;
          return;
        }
        assert (if endis then Enabled() + {id} else Enabled() - {id})
            == if endis then enabled + {id} else enabled - {id};
      }
      SetEnabled(id, endis);
      r := AppNoError;
    }

    /** The part of `SystemReset` that concerns plans. */
    method SystemReset(store: Store, level: byte)
      requires Valid() && ValidStore(store)
      modifies Repr()
      ensures View() == ResetGroup(old(View()), level)
    {
      if level > 0 {
        onDispPlnId := 0;
        var r := EnDisPlan(store, 0, false);
      }
    }
  }

  ghost predicate Separate(groups: seq<Group>) {
    forall i, j :: 0 <= i < j < |groups| ==> groups[i].Repr() !! groups[j].Repr()
  }

  ghost function Footprint(groups: seq<Group>): set<object> {
    set g, o | g in groups && o in g.Repr() :: o
  }

  /** The command with its checksum attached. */
  function Attached(data: seq<byte>, len: nat, crc: (byte, byte)): (x: seq<byte>)
    requires len + PLN_TAIL <= |data|
    ensures |x| == |data|
  {
    data[len := crc.0][len + 1 := crc.1]
  }

  /** The step of `PlanControl` that a set-plan command stands for. */
  ghost function SetPlanCommand(data: seq<byte>, len: nat, crc: (byte, byte), frames: set<byte>, messages: set<byte>)
    : Command
    requires PLN_LEN_MAX <= |data| && len + PLN_TAIL <= |data|
  {
    if len > PLN_LEN_MAX then OverlongPlan(data[1])
    else
      var x := Attached(data, len, crc);
      var r := Verdict(x, len + PLN_TAIL, frames, messages);
      if r == AppNoError then
        AcceptedImages(x, len + PLN_TAIL, frames, messages);
        SetPlan(Read(x, len + PLN_TAIL))
      else SpoiltPlan(data[1], r)
  }

  /** What the controller looks at first is the id of the plan that is read. */
  lemma CommandKeepsId(data: seq<byte>, len: nat, crc: (byte, byte), frames: set<byte>, messages: set<byte>)
    requires PLN_LEN_MAX <= |data| && len + PLN_TAIL <= |data|
    ensures match SetPlanCommand(data, len, crc, frames, messages)
            case SetPlan(plan) =>
              var x := Attached(data, len, crc);
              && plan.plnId == data[1] != 0 && len <= PLN_LEN_MAX
              && Verdict(x, len + PLN_TAIL, frames, messages) == AppNoError
              && ReadEntries(x, 0).Entries? && plan == Read(x, len + PLN_TAIL)
            case SpoiltPlan(id, error) =>
              id == data[1] && len <= PLN_LEN_MAX
              && error == Verdict(Attached(data, len, crc), len + PLN_TAIL, frames, messages) != AppNoError
            case OverlongPlan(id) => id == data[1] && len > PLN_LEN_MAX
            case _ => false
  {
    hide ReadEntries, AnyClash, AllDefined;
  }

  class Controller {
    const groups: seq<Group>
    var store: Store

    ghost predicate Valid()
      reads this, Footprint(groups)
    {
      && this !in Footprint(groups)
      && Separate(groups)
      && (forall g :: g in groups ==> g.Valid())
      && AllRight(View())
    }

    ghost function View(): State
      requires forall g :: g in groups ==> g.Valid()
      reads this, Footprint(groups)
    {
      State(store, seq(|groups|, i requires 0 <= i < |groups| reads Footprint(groups) => groups[i].View()))
    }

    /** The groups as their constructors leave them; the stored sets of enabled plans are compatible. */
    constructor (groups: seq<Group>, store: Store)
      requires forall g :: g in groups ==> g.Valid()
      requires Separate(groups) && ValidStore(store)
      requires forall g :: g in groups ==>
                 g.View() == Restarted(store, g.View()) && Compatible(store, g.View().enabled)
      ensures Valid() && this.groups == groups && this.store == store
    {
      hide IndexIsRight, Compatible, Restarted;
      this.groups := groups;
      this.store := store;
      new;
      forall g | g in groups ensures IndexIsRight(store, g.View()) {
        StartUpIsRight(store, g.View());
      }
    }

    /** `IsPlnActive` and `IsPlnEnabled`: in any group. */
    method IsPlnActive(id: byte) returns (active: bool)
      requires Valid() && id != 0
      ensures active <==> exists g :: g in View().groups && g.active == id
    {
      for i := 0 to |groups|
        invariant forall k :: 0 <= k < i ==> groups[k].onDispPlnId != id
      {
        if groups[i].onDispPlnId == id {
          assert View().groups[i].active == id;
          return true;
        }
      }
      active := false;
    }

    method IsPlnEnabled(id: byte) returns (enabled: bool)
      requires Valid()
      ensures enabled <==> exists g :: g in View().groups && id in g.enabled
    {
      for i := 0 to |groups|
        invariant forall k :: 0 <= k < i ==> id !in groups[k].Enabled()
      {
        var on := groups[i].IsPlanEnabled(id);
        if on {
          assert id in View().groups[i].enabled;
          return true;
        }
      }
      enabled := false;
    }

    method CmdEnDisPlan(grpId: byte, plnId: byte, endis: bool) returns (r: AppError)
      requires Valid()
      modifies Footprint(groups)
      ensures Valid() && (View(), r) == Step(old(View()), EnDis(grpId, plnId, endis))
    {
      hide PlanControl.EnDisPlan, IndexIsRight, ValidStore, Group.View, Group.Valid;
      if grpId > |groups| || grpId == 0 {
        return UndefinedDeviceNumber;
      } else if endis && plnId != 0 && plnId !in store {
        return FrmMsgPlnUndefined;
      }
      ghost var before := View();
      StepKeepsRight(before, EnDis(grpId, plnId, endis));
      var g := groups[grpId - 1];
      assert g.Repr() <= Footprint(groups);
      r := g.EnDisPlan(store, plnId, endis);
      assert View() == before.(groups := before.groups[grpId - 1 := g.View()]);
    }

    /** `SignSetPlan`: `data` is the buffer that holds the command in its first `len` bytes, and `crc` the checksum that
        is attached to it; `frames` and `messages` are the ids defined. */
    method SignSetPlan(data: seq<byte>, len: nat, crc: (byte, byte), frames: set<byte>, messages: set<byte>)
      returns (r: AppError)
      requires Valid() && PLN_LEN_MAX <= |data| && len + PLN_TAIL <= |data|
      modifies this
      ensures Valid() && (View(), r) == Step(old(View()), SetPlanCommand(data, len, crc, frames, messages))
    {
      hide IndexIsRight, ValidPlan, Verdict, Read, Image, SetPlanCommand, Attached;
      StepKeepsRight(View(), SetPlanCommand(data, len, crc, frames, messages));
      CommandKeepsId(data, len, crc, frames, messages);
      var id := data[1];
      if id == 0 {
        return SyntaxError;
      }
      if len > PLN_LEN_MAX {
        return LengthError;
      }
      var active := IsPlnActive(id);
      if active {
        return FrmMsgPlnActive;
      }
      var enabled := IsPlnEnabled(id);
      if enabled {
        return PlanEnabled;
      }
      r := SetPln(id, Attached(data, len, crc), len + PLN_TAIL, frames, messages);
    }

    /** `UciPln::SetPln`: nothing is stored unless the plan is accepted. */
    method SetPln(id: byte, x: seq<byte>, xlen: nat, frames: set<byte>, messages: set<byte>) returns (r: AppError)
      requires (forall g :: g in groups ==> g.Valid()) && this !in Footprint(groups)
      requires PLN_LEN_MAX <= |x| && PLN_TAIL <= xlen <= |x|
      modifies this`store
      ensures forall g :: g in groups ==> g.Valid()
      ensures r == Verdict(x, xlen, frames, messages)
      ensures r == AppNoError ==> ReadEntries(x, 0).Entries?
      ensures View() == if r == AppNoError then old(View()).(store := old(store)[id := Read(x, xlen)]) else old(View())
    {
      hide Verdict, Read, Group.View, Group.Valid, ReadEntries;
      ghost var before := View();
      var pln := new PlanObject();
      r := pln.Init(x, xlen, frames, messages);
      if r == AppNoError {
        store := store[id := Plan(pln.plnId, pln.plnRev, pln.weekdays, pln.plnEntries[..pln.entries], pln.crc)];
      }
      assert View() == before.(store := store);
    }

    /** The part of `CmdSystemReset` that concerns plans. */
    method CmdSystemReset(grpId: byte, level: byte) returns (r: AppError)
      requires Valid()
      modifies this, Footprint(groups)
      ensures Valid() && (View(), r) == Step(old(View()), SystemReset(grpId, level))
    {
      hide IndexIsRight, ValidStore, ResetGroup, Group.View, Group.Valid;
      ghost var before := View();
      StepKeepsRight(before, SystemReset(grpId, level));
      if 3 < level < 255 {
        return SyntaxError;
      }
      if level > 1 && grpId != 0 {
        return UndefinedDeviceNumber;
      }
      if grpId > |groups| {
        return UndefinedDeviceNumber;
      }
      r := AppNoError;
      if grpId != 0 {
        var g := groups[grpId - 1];
        g.SystemReset(store, level);
        assert View() == before.(groups := before.groups[grpId - 1 := g.View()]);
      } else {
        ResetAll(groups, store, level, before.groups);
        assert View().groups == seq(|groups|, i requires 0 <= i < |groups| => ResetGroup(before.groups[i], level));
        if level >= 3 {
          ClearStore();
        }
      }
      assert View() == Step(before, SystemReset(grpId, level)).0;
    }

    method ClearStore()
      requires forall g :: g in groups ==> g.Valid()
      requires this !in Footprint(groups)
      modifies this
      ensures forall g :: g in groups ==> g.Valid()
      ensures View() == old(View()).(store := map[])
    {
      store := map[];
      assert View() == old(View()).(store := map[]);
    }

    static method ResetAll(groups: seq<Group>, store: Store, level: byte, ghost before: seq<GroupState>)
      requires ValidStore(store) && Separate(groups)
      requires forall g :: g in groups ==> g.Valid()
      requires |before| == |groups| && forall i :: 0 <= i < |groups| ==> groups[i].View() == before[i]
      modifies Footprint(groups)
      ensures forall i :: 0 <= i < |groups| ==> groups[i].View() == ResetGroup(before[i], level)
    {
      hide Group.View, Group.Valid, Group.Repr, Separate, Footprint, ResetGroup, ValidStore;
      for i := 0 to |groups|
        invariant forall k :: 0 <= k < i ==> groups[k].View() == ResetGroup(before[k], level)
        invariant forall k :: i <= k < |groups| ==> groups[k].View() == before[k]
      {
        OwnFootprint(groups, i);
        ResetOne(groups, i, store, level);
      }
    }

    static method ResetOne(groups: seq<Group>, i: nat, store: Store, level: byte)
      requires ValidStore(store) && Separate(groups) && i < |groups|
      requires forall g :: g in groups ==> g.Valid()
      modifies groups[i].Repr()
      ensures groups[i].View() == ResetGroup(old(groups[i].View()), level)
      ensures forall k :: 0 <= k < |groups| && k != i ==> groups[k].View() == old(groups[k].View())
    {
      hide Group.View, Group.Valid, ResetGroup, ValidStore;
      forall k | 0 <= k < |groups| && k != i ensures groups[k].Repr() !! groups[i].Repr() {}
      groups[i].SystemReset(store, level);
    }

    static lemma OwnFootprint(groups: seq<Group>, i: nat)
      requires i < |groups|
      ensures groups[i].Repr() <= Footprint(groups)
    {}
  }

  // ----- Restart -----

  /** `g` is what start-up makes of the stored set of `was`. */
  ghost predicate Rebuilds(g: Group, was: Group, store: Store)
    requires ValidStore(store)
    reads g.Repr(), was.Repr()
  {
    && g.Valid() && was.Valid() && g.enabledPln == was.enabledPln
    && g.View() == Restarted(store, was.View())
  }

  method RebuildGroup(was: Group, store: Store) returns (g: Group)
    requires was.Valid() && ValidStore(store)
    ensures fresh(g) && fresh(g.minutes.plnMin) && Rebuilds(g, was, store)
  {
    hide Rebuilt;
    g := new Group(was.enabledPln, store);
  }

  /** A restart: everything is built anew from the plan store and the stored sets of enabled plans. */
  method Restart(c: Controller) returns (again: Controller)
    requires c.Valid()
    ensures fresh(again) && again.Valid() && again.View() == Step(old(c.View()), PlanControl.Restart).0
  {
    hide IndexIsRight, ValidStore, Restarted, Compatible, Group.View, Group.Valid;
    StepKeepsRight(c.View(), PlanControl.Restart);
    var store, was, groups: seq<Group> := c.store, c.groups, [];
    for i := 0 to |was|
      invariant |groups| == i && c.Valid() && c.View() == old(c.View())
      invariant forall k :: 0 <= k < i ==> Rebuilds(groups[k], was[k], store)
      invariant forall k :: 0 <= k < i ==> fresh(groups[k]) && fresh(groups[k].minutes.plnMin)
      invariant forall j, k :: 0 <= j < k < i ==>
                  groups[j] != groups[k] && groups[j].minutes.plnMin != groups[k].minutes.plnMin
    {
      label Before:
      var g := RebuildGroup(was[i], store);
      forall k | 0 <= k < i ensures Rebuilds(groups[k], was[k], store) {
        assert old@Before(Rebuilds(groups[k], was[k], store));
        assert unchanged@Before(groups[k].Repr());
        assert unchanged@Before(was[k].Repr());
      }
      groups := groups + [g];
    }
    forall k | 0 <= k < |groups|
      ensures groups[k].View() == Restarted(store, groups[k].View()) && Compatible(store, groups[k].View().enabled)
    {
      assert c.View().groups[k] == was[k].View();
      StartUpIsRight(store, was[k].View());
      RestartTwice(store, was[k].View());
    }
    again := new Controller(groups, store);
    assert again.View().groups == Step(old(c.View()), PlanControl.Restart).0.groups;
  }

  lemma RestartTwice(store: Store, g: GroupState)
    requires ValidStore(store)
    ensures Restarted(store, g).enabled == g.enabled
    ensures Restarted(store, Restarted(store, g)) == Restarted(store, g)
  {}
}
