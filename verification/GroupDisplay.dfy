/** The display part of `Group` (src/sign/Group.cpp) on its own objects: four display statuses, the fault state and the
    flags, changed in place as `DisplayArbiter` says. */
module GroupDisplay {
  import opened Bytes
  import opened DisplayArbiter
  import opened Edges

  /** include/sign/DispStatus.h */
  class DispStatus {
    var dispType: DispType
    const fmpid: array<byte>

    constructor (signCnt: nat)
      requires signCnt > 0
      ensures fresh(fmpid) && fmpid.Length == signCnt
      ensures View() == Disp(NA, seq(signCnt, _ => 0))
    {
      dispType := NA;
      fmpid := new byte[signCnt](_ => 0);
    }

    ghost function View(): Disp
      reads this, fmpid
    {
      Disp(dispType, fmpid[..])
    }

    method Clone(ds: DispStatus)
      requires ds.fmpid.Length == fmpid.Length
      modifies this, fmpid
      ensures View() == old(ds.View())
    {
      dispType := ds.dispType;
      for i := 0 to fmpid.Length
        invariant dispType == old(ds.dispType)
        invariant forall k :: 0 <= k < i ==> fmpid[k] == old(ds.fmpid[k])
        invariant forall k :: i <= k < fmpid.Length ==> ds.fmpid[k] == old(ds.fmpid[k])
      {
        fmpid[i] := ds.fmpid[i];
      }
    }

    /** `Frm0`, `Pln0`, `BLK` and `N_A`, and the assignments of `DispNext`. */
    method Become(kind: DispType, id: byte)
      requires fmpid.Length > 0
      modifies this, fmpid
      ensures View() == old(View()).Become(kind, id)
    {
      dispType := kind;
      fmpid[0] := id;
    }

    method Equal(dst: DispStatus) returns (r: bool)
      requires fmpid.Length > 0 && dst.fmpid.Length > 0
      ensures r <==> fmpid.Length == dst.fmpid.Length && Same(View(), dst.View())
      ensures r <==>
                && dispType == dst.dispType && fmpid.Length == dst.fmpid.Length
                && (dispType == ATF ==> fmpid[..] == dst.fmpid[..])
                && (dispType !in {NA, BLK, ATF} ==> fmpid[0] == dst.fmpid[0])
    {
      if dispType == dst.dispType && fmpid.Length == dst.fmpid.Length {
        if dispType == ATF {
          for i := 0 to fmpid.Length
            invariant forall k :: 0 <= k < i ==> fmpid[k] == dst.fmpid[k]
          {
            if fmpid[i] != dst.fmpid[i] {
              return false;
            }
          }
          return true;
        } else if dispType == NA || dispType == BLK {
          return true;
        } else {
          return fmpid[0] == dst.fmpid[0];
        }
      }
      return false;
    }
  }

  class Display {
    const dsCurrent: DispStatus
    const dsNext: DispStatus
    const dsBak: DispStatus
    const dsExt: DispStatus
    const fatalError: State5
    var readyToLoad: bool
    var reloadCurrent: bool
    var extDispTmrSet: bool

    ghost function Repr(): set<object> {
      {this, dsCurrent, dsNext, dsBak, dsExt, fatalError,
       dsCurrent.fmpid, dsNext.fmpid, dsBak.fmpid, dsExt.fmpid}
    }

    ghost predicate Valid() {
      && dsCurrent != dsNext && dsCurrent != dsBak && dsCurrent != dsExt && dsNext != dsBak && dsNext != dsExt
      && dsBak != dsExt
      && dsCurrent.fmpid != dsNext.fmpid && dsCurrent.fmpid != dsBak.fmpid && dsCurrent.fmpid != dsExt.fmpid
      && dsNext.fmpid != dsBak.fmpid && dsNext.fmpid != dsExt.fmpid && dsBak.fmpid != dsExt.fmpid
      && dsCurrent.fmpid.Length == dsNext.fmpid.Length == dsBak.fmpid.Length == dsExt.fmpid.Length > 0
    }

    ghost function View(): State
      reads Repr()
    {
      State(dsCurrent.View(), dsNext.View(), dsBak.View(), dsExt.View(), fatalError.value, readyToLoad, reloadCurrent,
            extDispTmrSet)
    }

    constructor (signCnt: nat)
      requires signCnt > 0
      ensures Valid() && Fresh(View()) && fresh(Repr())
    {
      dsCurrent := new DispStatus(signCnt);
      var next := new DispStatus(signCnt);
      dsNext := next;
      dsBak := new DispStatus(signCnt);
      dsExt := new DispStatus(signCnt);
      fatalError := new State5(Low);
      readyToLoad, reloadCurrent, extDispTmrSet := true, false, false;
      new;
      next.Become(BLK, 0);
    }

    /** `DispNext` of anything but an external input. */
    method DispNext(kind: DispType, id: byte)
      requires Valid() && kind != EXT
      modifies dsNext, dsNext.fmpid
      ensures View() == old(View()).(next := old(View().next).Become(kind, id))
    {
      dsNext.Become(kind, id);
    }

    /** `DispExt`, and `DispNext` of an external input. */
    method DispExt(id: byte, allowed: bool, lasting: bool, mayInterrupt: bool)
      requires Valid()
      modifies this, dsExt, dsExt.fmpid
      ensures View() == OnExternal(old(View()), id, allowed, lasting, mayInterrupt)
    {
      if allowed && 3 <= id && id <= 6
         && !((dsCurrent.dispType == EXT && dsCurrent.fmpid[0] < id) || (dsExt.dispType == EXT && dsExt.fmpid[0] < id)) {
        if lasting {
          if dsCurrent.dispType == EXT && dsCurrent.fmpid[0] == id {
            extDispTmrSet := true;
          } else if dsCurrent.dispType == NA || dsCurrent.dispType == BLK || mayInterrupt {
            extDispTmrSet := true;
            dsExt.Become(EXT, id);
          }
        }
      }
    }

    /** `DispFrm`. */
    method DispFrm(id: byte, allowed: bool, rejected: bool) returns (ok: bool)
      requires Valid()
      modifies dsNext, dsNext.fmpid
      ensures ok == Accepts(old(View()), ShowFrame(id, allowed, rejected))
      ensures View() == Apply(old(View()), ShowFrame(id, allowed, rejected))
    {
      if id != 0 && (!allowed || fatalError.value.IsHigh()) {
        return false;
      }
      if rejected {
        return false;
      }
      DispNext(FRM, id);
      return true;
    }

    /** `DispMsg`. */
    method DispMsg(id: byte, allowed: bool) returns (ok: bool)
      requires Valid()
      modifies dsNext, dsNext.fmpid
      ensures ok == Accepts(old(View()), ShowMessage(id, allowed))
      ensures View() == Apply(old(View()), ShowMessage(id, allowed))
    {
      if id != 0 && (!allowed || fatalError.value.IsHigh()) {
        return false;
      }
      DispNext(MSG, id);
      return true;
    }

    /** `DispAtomicFrm`, up to what becomes pending. */
    method DispAtomic(frames: seq<byte>, allowed: bool) returns (ok: bool)
      requires Valid()
      modifies dsNext, dsNext.fmpid
      ensures ok == Accepts(old(View()), ShowAtomic(frames, allowed))
      ensures View() == Apply(old(View()), ShowAtomic(frames, allowed))
    {
      if |frames| != dsNext.fmpid.Length || !allowed || fatalError.value.IsHigh() {
        return false;
      }
      dsNext.dispType := ATF;
      for i := 0 to |frames|
        invariant dsNext.dispType == ATF && forall k :: 0 <= k < i ==> dsNext.fmpid[k] == frames[k]
      {
        dsNext.fmpid[i] := frames[i];
      }
      assert dsNext.fmpid[..] == frames;
      return true;
    }

    /** Any command or input. */
    method Perform(c: Command)
      requires Valid()
      modifies Repr()
      ensures View() == Apply(old(View()), c)
    {
      match c {
        case ShowFrame(id, allowed, rejected) => var _ := DispFrm(id, allowed, rejected);
        case ShowMessage(id, allowed) => var _ := DispMsg(id, allowed);
        case ShowAtomic(frames, allowed) => var _ := DispAtomic(frames, allowed);
        case Switch(msg) =>
          if msg == 0 {
            DispNext(FRM, 0);
          } else {
            DispNext(FSW, msg);
          }
        case PoweredUp => extDispTmrSet, readyToLoad := false, true;
        case Reset =>
          DispNext(FRM, 0);
          readyToLoad := true;
        case External(id, allowed, lasting, mayInterrupt) => DispExt(id, allowed, lasting, mayInterrupt);
      }
    }

    /** `DispBackup`. */
    method DispBackup()
      requires Valid()
      modifies dsNext, dsNext.fmpid, dsBak, dsBak.fmpid
      ensures View() == Backup(old(View()))
    {
      if dsNext.dispType == NA {
        dsNext.Clone(dsBak);
        dsBak.Become(NA, 0);
      }
    }

    /** `LoadDsNext`, with what its caller does when something has been loaded. */
    method LoadDsNext()
      requires Valid()
      modifies Repr()
      ensures View() == Load(old(View()))
    {
      TakeNext();
      if dsCurrent.dispType == NA {
        dsBak.Become(FRM, 0);
        dsCurrent.Become(FRM, 0);
        reloadCurrent := true;
      }
      if dsCurrent.fmpid[0] == 0 && (dsCurrent.dispType == FRM || dsCurrent.dispType == MSG) {
        dsCurrent.dispType := PLN;
        reloadCurrent := true;
      }
    }

    method TakeNext()
      requires Valid()
      modifies Repr()
      ensures View() == Taken(old(View()))
    {
      if dsNext.dispType == FSW {
        dsBak.Become(FRM, 0);
        dsCurrent.Clone(dsNext);
        dsNext.Become(NA, 0);
        reloadCurrent := true;
      } else if dsExt.dispType == EXT {
        dsBak.Clone(dsCurrent);
        dsCurrent.Clone(dsExt);
        dsExt.Become(NA, 0);
        reloadCurrent := true;
      } else if dsNext.dispType != NA {
        dsBak.Clone(dsCurrent);
        dsCurrent.Clone(dsNext);
        dsNext.Become(NA, 0);
        reloadCurrent := true;
      }
    }

    /** The fault part of `NormalMode`. */
    method CheckFault(fatal: bool)
      requires Valid()
      modifies Repr()
      ensures View() == Faults(old(View()), fatal)
    {
      if fatal {
        fatalError.Set();
      } else {
        fatalError.Clr();
      }
      if fatalError.value == Rising {
        FaultRises();
      } else if fatalError.value == Falling {
        DispBackup();
        dsCurrent.Become(NA, 0);
        readyToLoad := true;
        fatalError.ClearFalling();
      }
    }

    method FaultRises()
      requires Valid() && fatalError.value == Rising
      modifies Repr()
      ensures View() == Risen(old(View()))
    {
      if dsCurrent.dispType != EXT {
        if dsNext.dispType != NA && dsNext.dispType != EXT {
          dsBak.Clone(dsNext);
        } else {
          dsBak.Clone(dsCurrent);
        }
      }
      reloadCurrent := true;
      dsNext.Become(NA, 0);
      dsCurrent.Become(BLK, 0);
      fatalError.ClearRising();
    }

    /** The loading part of `NormalMode`. */
    method LoadIfReady(i: Input)
      requires Valid()
      modifies Repr()
      ensures View() == Loading(old(View()), i)
    {
      hide Load, Backup;
      if fatalError.value.IsLow() {
        if dsExt.dispType == EXT && 3 <= dsExt.fmpid[0] && dsExt.fmpid[0] <= 6 && i.emergency {
          readyToLoad := true;
        }
        if readyToLoad {
          reloadCurrent := false;
          if dsCurrent.dispType == EXT && extDispTmrSet && i.extExpired {
            extDispTmrSet := false;
            DispBackup();
          }
          LoadDsNext();
        }
      }
    }

    /** One tick of `NormalMode`, with the part of the message task that concerns the display. */
    method NormalMode(i: Input)
      requires Valid()
      modifies Repr()
      ensures View() == Tick(old(View()), i)
    {
      hide Faults, Loading;
      CheckFault(i.fatal);
      LoadIfReady(i);
      readyToLoad := i.ready;
      if i.undefinedMsg && (dsCurrent.dispType == MSG || dsCurrent.dispType == PLN) {
        dsCurrent.Become(PLN, 0);
        reloadCurrent := true;
      }
    }
  }
}
