/** The atomic-frame command of ISLUS signs: a frame for every sign of a group at once (`CmdDispAtomicFrm` and
    `CheckAdjacentLane` of src/sign/Controller.cpp, `DispAtomicFrm` of src/sign/GroupIslus.cpp). */
module AtomicFrame {
  import opened Bytes
  import A = DisplayArbiter

  datatype Reply = Done | SyntaxError | UndefinedDeviceNumber | FrmMsgPlnUndefined | OverlaysNotSupported | NotNow

  /** One entry of the command: a sign and its frame. */
  datatype Pair = Pair(sign: byte, frame: byte)

  /** What the command is checked against. Signs are numbered from 1; `signs` are those of the group, `reported` what
      every sign reports, `allowed` the display check of the group. */
  datatype Site = Site(signs: seq<byte>, total: nat, defined: set<byte>, barred: set<Pair>, reported: seq<byte>,
                       allowed: bool)
  {
    ghost predicate Valid() {
      && (forall i, j :: 0 <= i < j < |signs| ==> signs[i] != signs[j])
      && (forall i :: 0 <= i < |signs| ==> 1 <= signs[i] <= total)
      && |reported| == total
      && 0 !in defined
    }
  }

  // ----- What is acceptable -----

  predicate NamesGroup(signs: seq<byte>, cmd: seq<Pair>) {
    forall i :: 0 <= i < |cmd| ==> cmd[i].sign in signs
  }

  predicate NoDuplicates(cmd: seq<Pair>) {
    forall i, j :: 0 <= i < j < |cmd| ==> cmd[i].sign != cmd[j].sign
  }

  predicate IsSpeedFrame(f: byte) {
    25 <= f <= 29 || (1 <= f / 10 <= 11 && f % 10 <= 4)
  }

  predicate SpeedsAgree(cmd: seq<Pair>) {
    forall i, j :: 0 <= i < j < |cmd| && IsSpeedFrame(cmd[i].frame) && IsSpeedFrame(cmd[j].frame) ==>
                     cmd[i].frame == cmd[j].frame
  }

  predicate IsLeft(f: byte) { f == 184 || f == 194 }

  predicate IsRight(f: byte) { f == 185 || f == 195 }

  predicate IsCross(f: byte) { f == 189 || f == 199 }

  /** Traffic would be led into a closed lane, or two lanes into each other. */
  predicate Conflict(left: byte, right: byte) {
    (IsRight(left) && (IsCross(right) || IsLeft(right))) || (IsCross(left) && IsLeft(right))
  }

  /** By the numbers of the frames: 184 and 194 send traffic to the left, 185 and 195 to the right, 189 and 199 are red
      crosses. */
  lemma ConflictByNumber(left: byte, right: byte)
    ensures Conflict(left, right) <==>
            (left in {185, 195} && right in {184, 189, 194, 199}) || (left in {189, 199} && right in {184, 194})
  {}

  /** The frames that show a speed. */
  lemma SpeedsByNumber(f: byte)
    ensures IsSpeedFrame(f) <==>
            || 10 <= f <= 14 || 20 <= f <= 29 || 30 <= f <= 34 || 40 <= f <= 44 || 50 <= f <= 54 || 60 <= f <= 64
            || 70 <= f <= 74 || 80 <= f <= 84 || 90 <= f <= 94 || 100 <= f <= 104 || 110 <= f <= 114
  {}

  predicate NoConflict(frames: seq<byte>) {
    forall i :: 0 < i < |frames| ==> !Conflict(frames[i - 1], frames[i])
  }

  /** What all signs show once the command is carried out: its frame on a sign it names, and on any other what that sign
      reports. */
  function Shown(cmd: seq<Pair>, reported: seq<byte>): (frames: seq<byte>)
    ensures |frames| == |reported|
  {
    seq(|reported|, k requires 0 <= k < |reported| => FrameOn(cmd, k + 1, reported[k]))
  }

  /** The frame of a sign: the last entry that names it counts. */
  function FrameOn(cmd: seq<Pair>, sign: int, otherwise: byte): byte
    decreases |cmd|
  {
    if cmd == [] then otherwise
    else if cmd[|cmd| - 1].sign == sign then cmd[|cmd| - 1].frame
    else FrameOn(cmd[..|cmd| - 1], sign, otherwise)
  }

  ghost predicate Acceptable(site: Site, cmd: seq<Pair>) {
    && |cmd| == |site.signs|
    && NamesGroup(site.signs, cmd)
    && NoDuplicates(cmd)
    && (forall i :: 0 <= i < |cmd| ==> cmd[i].frame in site.defined && cmd[i] !in site.barred)
    && SpeedsAgree(cmd)
    && NoConflict(Shown(cmd, site.reported))
    && site.allowed
  }

  // ----- The pigeonhole -----

  function SignsNamed(cmd: seq<Pair>): set<byte> {
    set i | 0 <= i < |cmd| :: cmd[i].sign
  }

  lemma {:induction false} NamedCount(cmd: seq<Pair>)
    requires NoDuplicates(cmd)
    ensures |SignsNamed(cmd)| == |cmd|
    decreases |cmd|
  {
    if cmd == [] {
      assert SignsNamed(cmd) == {};
    } else {
      var before, last := cmd[..|cmd| - 1], cmd[|cmd| - 1];
      NamedCount(before);
      assert SignsNamed(cmd) == SignsNamed(before) + {last.sign} by {
        forall s | s in SignsNamed(cmd) ensures s in SignsNamed(before) + {last.sign} {
          var i :| 0 <= i < |cmd| && cmd[i].sign == s;
          assert i < |before| ==> before[i].sign == s;
        }
        forall s | s in SignsNamed(before) ensures s in SignsNamed(cmd) {
          var i :| 0 <= i < |before| && before[i].sign == s;
          assert cmd[i].sign == s;
        }
      }
      assert last.sign !in SignsNamed(before);
    }
  }

  function Members(signs: seq<byte>): set<byte> {
    set s | s in signs
  }

  lemma {:induction false} MemberCount(signs: seq<byte>)
    requires forall i, j :: 0 <= i < j < |signs| ==> signs[i] != signs[j]
    ensures |Members(signs)| == |signs|
    decreases |signs|
  {
    if signs == [] {
      assert Members(signs) == {};
    } else {
      var before, last := signs[..|signs| - 1], signs[|signs| - 1];
      MemberCount(before);
      assert signs == before + [last];
      assert Members(signs) == Members(before) + {last};
      assert last !in before;
    }
  }

  lemma SubsetOfSameSize(a: set<byte>, b: set<byte>)
    requires a <= b && |a| == |b|
    ensures a == b
  {
    assert |b - a| == |b| - |a|;
    assert b - a == {};
  }

  /** As many entries as signs, none for another sign and no sign twice: every sign is named, exactly once. */
  lemma EverySignIsNamed(signs: seq<byte>, cmd: seq<Pair>, k: nat)
    requires forall i, j :: 0 <= i < j < |signs| ==> signs[i] != signs[j]
    requires |cmd| == |signs| && NamesGroup(signs, cmd) && NoDuplicates(cmd) && k < |signs|
    ensures exists i :: 0 <= i < |cmd| && cmd[i].sign == signs[k]
                        && forall j :: 0 <= j < |cmd| && cmd[j].sign == signs[k] ==> j == i
  {
    NamedCount(cmd);
    MemberCount(signs);
    assert SignsNamed(cmd) <= Members(signs);
    SubsetOfSameSize(SignsNamed(cmd), Members(signs));
    assert signs[k] in Members(signs);
    assert signs[k] in SignsNamed(cmd);
    var i :| 0 <= i < |cmd| && cmd[i].sign == signs[k];
  }

  lemma {:induction false} FrameOnNamed(cmd: seq<Pair>, i: nat, otherwise: byte)
    requires i < |cmd| && NoDuplicates(cmd)
    ensures FrameOn(cmd, cmd[i].sign, otherwise) == cmd[i].frame
    decreases |cmd|
  {
    if i < |cmd| - 1 {
      assert cmd[..|cmd| - 1][i] == cmd[i];
      FrameOnNamed(cmd[..|cmd| - 1], i, otherwise);
    }
  }

  // ----- The checks -----

  /** `CheckAdjacentLane`: `frms` has 0 for a sign that is not told anything; that is replaced by what it reports. */
  method CheckAdjacentLane(frms: array<byte>, reported: seq<byte>) returns (ok: bool)
    requires frms.Length == |reported|
    modifies frms
    ensures ok <==> NoConflict(Filled(old(frms[..]), reported))
    ensures ok ==> frms[..] == Filled(old(frms[..]), reported)
  {
    ghost var filled := Filled(frms[..], reported);
    for i := 0 to frms.Length
      invariant forall k :: 0 <= k < i ==> frms[k] == filled[k]
      invariant forall k :: i <= k < frms.Length ==> frms[k] == old(frms[k])
      invariant forall k :: 0 < k < i ==> !Conflict(filled[k - 1], filled[k])
    {
      if frms[i] == 0 {
        frms[i] := reported[i];
      }
      if i > 0 {
        var left, right := frms[i - 1], frms[i];
        if (IsRight(left) && (IsCross(right) || IsLeft(right))) || (IsCross(left) && IsLeft(right)) {
          assert Conflict(filled[i - 1], filled[i]);
          return false;
        }
      }
    }
    ok := true;
  }

  function Filled(frames: seq<byte>, reported: seq<byte>): seq<byte>
    requires |frames| == |reported|
  {
    seq(|frames|, k requires 0 <= k < |frames| => if frames[k] == 0 then reported[k] else frames[k])
  }

  /** `DispAtomicFrm`: the status that is to be shown next, one frame for each sign of the group. */
  method DispAtomicFrm(site: Site, cmd: seq<Pair>) returns (r: Reply, fmpid: seq<byte>)
    requires site.Valid() && |cmd| == |site.signs|
    ensures r == Done || r == SyntaxError
    ensures r == Done <==> NoDuplicates(cmd) && SpeedsAgree(cmd) && forall i :: 0 <= i < |cmd| ==> cmd[i] !in site.barred
    ensures r == Done ==> fmpid == StatusOf(site.signs, cmd)
  {
    fmpid := seq(|site.signs|, _ => 0);
    var speed: byte := 0;
    for i := 0 to |cmd|
      invariant forall a, b :: 0 <= a < i && a < b < |cmd| ==> cmd[a].sign != cmd[b].sign
      invariant speed == 0 ==> forall a :: 0 <= a < i ==> !IsSpeedFrame(cmd[a].frame)
      invariant speed != 0 ==> exists a :: 0 <= a < i && cmd[a].frame == speed && IsSpeedFrame(speed)
      invariant forall a :: 0 <= a < i && IsSpeedFrame(cmd[a].frame) ==> cmd[a].frame == speed
      invariant forall a :: 0 <= a < i ==> cmd[a] !in site.barred
      invariant fmpid == StatusOf(site.signs, cmd[..i])
    {
      for j := i + 1 to |cmd|
        invariant forall b :: i < b < j ==> cmd[i].sign != cmd[b].sign
      {
        if cmd[i].sign == cmd[j].sign {
          return SyntaxError, [];
        }
      }
      if IsSpeedFrame(cmd[i].frame) {
        if speed == 0 {
          speed := cmd[i].frame;
        } else if speed != cmd[i].frame {
          return SyntaxError, [];
        }
      }
      if cmd[i] in site.barred {
        return SyntaxError, [];
      }
      fmpid := PutFrame(site.signs, fmpid, cmd[..i], cmd[i]);
      assert cmd[..i + 1] == cmd[..i] + [cmd[i]];
    }
    assert cmd[..|cmd|] == cmd;
    r := Done;
  }

  /** One frame a sign, 0 for one that is not named. */
  function StatusOf(signs: seq<byte>, cmd: seq<Pair>): (s: seq<byte>)
    ensures |s| == |signs|
  {
    seq(|signs|, k requires 0 <= k < |signs| => FrameOn(cmd, signs[k], 0))
  }

  /** The inner loop that looks for the place of a sign. */
  method PutFrame(signs: seq<byte>, fmpid: seq<byte>, ghost before: seq<Pair>, entry: Pair) returns (now: seq<byte>)
    requires forall i, j :: 0 <= i < j < |signs| ==> signs[i] != signs[j]
    requires fmpid == StatusOf(signs, before)
    ensures now == StatusOf(signs, before + [entry])
  {
    now := fmpid;
    for j := 0 to |signs|
      invariant now == fmpid && forall k :: 0 <= k < j ==> signs[k] != entry.sign
    {
      if entry.sign == signs[j] {
        now := fmpid[j := entry.frame];
        break;
      }
    }
    assert (before + [entry])[..|before|] == before;
  }

  /** `CmdDispAtomicFrm`, up to and including the group's own checks. */
  method CmdDispAtomicFrm(site: Site, cmd: seq<Pair>) returns (r: Reply, fmpid: seq<byte>)
    requires site.Valid()
    ensures r == Done <==> Acceptable(site, cmd)
    ensures r == Done ==> fmpid == StatusOf(site.signs, cmd)
    ensures |cmd| != |site.signs| ==> r == SyntaxError
  {
    if |cmd| != |site.signs| {
      return SyntaxError, [];
    }
    var frms := new byte[site.total](_ => 0);
    for i := 0 to |cmd|
      invariant forall k :: 0 <= k < i ==> cmd[k].sign in site.signs && cmd[k].frame in site.defined
      invariant forall k :: 0 <= k < site.total ==> frms[k] == FrameOn(cmd[..i], k + 1, 0)
    {
      if cmd[i].sign !in site.signs {
        return UndefinedDeviceNumber, [];
      }
      if cmd[i].frame !in site.defined {
        return FrmMsgPlnUndefined, [];
      }
      frms[cmd[i].sign - 1] := cmd[i].frame;
      assert cmd[..i + 1][..i] == cmd[..i];
    }
    assert cmd[..|cmd|] == cmd;
    FilledIsShown(site, cmd, frms[..]);
    var ok := CheckAdjacentLane(frms, site.reported);
    if !ok {
      return OverlaysNotSupported, [];
    }
    if !site.allowed {
      return NotNow, [];
    }
    r, fmpid := DispAtomicFrm(site, cmd);
  }

  lemma {:induction false} FilledIsShown(site: Site, cmd: seq<Pair>, frames: seq<byte>)
    requires site.Valid() && |frames| == site.total
    requires forall i :: 0 <= i < |cmd| ==> cmd[i].frame in site.defined
    requires forall k :: 0 <= k < site.total ==> frames[k] == FrameOn(cmd, k + 1, 0)
    ensures Filled(frames, site.reported) == Shown(cmd, site.reported)
  {
    forall k | 0 <= k < site.total
      ensures FrameOn(cmd, k + 1, site.reported[k]) == if frames[k] == 0 then site.reported[k] else frames[k]
    {
      ZeroMeansOther(cmd, site.defined, k + 1, site.reported[k]);
    }
  }

  lemma {:induction false} ZeroMeansOther(cmd: seq<Pair>, defined: set<byte>, sign: int, otherwise: byte)
    requires 0 !in defined && forall i :: 0 <= i < |cmd| ==> cmd[i].frame in defined
    ensures FrameOn(cmd, sign, otherwise) == if FrameOn(cmd, sign, 0) == 0 then otherwise else FrameOn(cmd, sign, 0)
    decreases |cmd|
  {
    if cmd != [] && cmd[|cmd| - 1].sign != sign {
      ZeroMeansOther(cmd[..|cmd| - 1], defined, sign, otherwise);
    }
  }

  // ----- What an accepted command amounts to -----

  /** Every sign of the group gets the frame of the one entry that names it, and none is left out. */
  lemma AcceptedSetsEverySign(site: Site, cmd: seq<Pair>, k: nat)
    requires site.Valid() && Acceptable(site, cmd) && k < |site.signs|
    ensures StatusOf(site.signs, cmd)[k] in site.defined && StatusOf(site.signs, cmd)[k] != 0
    ensures exists i :: 0 <= i < |cmd| && cmd[i] == Pair(site.signs[k], StatusOf(site.signs, cmd)[k])
    ensures Shown(cmd, site.reported)[site.signs[k] - 1] == StatusOf(site.signs, cmd)[k]
  {
    EverySignIsNamed(site.signs, cmd, k);
    var i :| 0 <= i < |cmd| && cmd[i].sign == site.signs[k];
    FrameOnNamed(cmd, i, 0);
    FrameOnNamed(cmd, i, site.reported[site.signs[k] - 1]);
    assert cmd[i] == Pair(site.signs[k], StatusOf(site.signs, cmd)[k]);
  }

  /** So every accepted command is an atomic display as the group takes it: a frame, and not frame 0, for each sign. */
  lemma AcceptedHasFrames(site: Site, cmd: seq<Pair>)
    requires site.Valid() && Acceptable(site, cmd)
    ensures A.HasFrames(A.Disp(A.ATF, StatusOf(site.signs, cmd)), |site.signs|)
  {
    forall k | 0 <= k < |site.signs| ensures StatusOf(site.signs, cmd)[k] != 0 {
      AcceptedSetsEverySign(site, cmd, k);
    }
  }

  /** Any two signs of the group that show a speed show the same. */
  lemma AcceptedSpeedsAgree(site: Site, cmd: seq<Pair>, a: nat, b: nat)
    requires site.Valid() && Acceptable(site, cmd) && a < |site.signs| && b < |site.signs|
    requires IsSpeedFrame(StatusOf(site.signs, cmd)[a]) && IsSpeedFrame(StatusOf(site.signs, cmd)[b])
    ensures StatusOf(site.signs, cmd)[a] == StatusOf(site.signs, cmd)[b]
  {
    AcceptedSetsEverySign(site, cmd, a);
    AcceptedSetsEverySign(site, cmd, b);
    var i :| 0 <= i < |cmd| && cmd[i] == Pair(site.signs[a], StatusOf(site.signs, cmd)[a]);
    var j :| 0 <= j < |cmd| && cmd[j] == Pair(site.signs[b], StatusOf(site.signs, cmd)[b]);
  }

  /** Side by side no sign sends traffic to the right where the next shows a red cross or sends it to the left, and none
      shows a red cross to which the next sends traffic. */
  lemma AcceptedIsSafe(site: Site, cmd: seq<Pair>, k: nat)
    requires site.Valid() && Acceptable(site, cmd) && 0 < k < site.total
    ensures var left, right := Shown(cmd, site.reported)[k - 1], Shown(cmd, site.reported)[k];
            && (left in {185, 195} ==> right !in {184, 189, 194, 199})
            && (left in {189, 199} ==> right !in {184, 194})
  {
    hide Conflict, Shown;
    ConflictByNumber(Shown(cmd, site.reported)[k - 1], Shown(cmd, site.reported)[k]);
  }

  lemma {:induction false} FrameNeedsEntry(cmd: seq<Pair>, sign: byte)
    requires FrameOn(cmd, sign, 0) != 0
    ensures sign in SignsNamed(cmd)
    decreases |cmd|
  {
    var before, last := cmd[..|cmd| - 1], cmd[|cmd| - 1];
    if last.sign != sign {
      FrameNeedsEntry(before, sign);
      var i :| 0 <= i < |before| && before[i].sign == sign;
      assert cmd[i].sign == sign;
    }
  }

  /** What the group's own checks leave to the membership check of the controller: of the commands that pass them, exactly
      those that name no foreign sign leave no sign of the group at frame 0. */
  lemma NoSignIsLeftOut(signs: seq<byte>, cmd: seq<Pair>)
    requires forall i, j :: 0 <= i < j < |signs| ==> signs[i] != signs[j]
    requires |cmd| == |signs| && NoDuplicates(cmd) && forall i :: 0 <= i < |cmd| ==> cmd[i].frame != 0
    ensures 0 !in StatusOf(signs, cmd) <==> NamesGroup(signs, cmd)
  {
    if NamesGroup(signs, cmd) {
      forall k | 0 <= k < |signs| ensures StatusOf(signs, cmd)[k] != 0 {
        EverySignIsNamed(signs, cmd, k);
        var i :| 0 <= i < |cmd| && cmd[i].sign == signs[k];
        FrameOnNamed(cmd, i, 0);
      }
    }
    if 0 !in StatusOf(signs, cmd) {
      forall s | s in Members(signs) ensures s in SignsNamed(cmd) {
        var k :| 0 <= k < |signs| && signs[k] == s;
        assert StatusOf(signs, cmd)[k] in StatusOf(signs, cmd);
        FrameNeedsEntry(cmd, s);
      }
      NamedCount(cmd);
      MemberCount(signs);
      SubsetOfSameSize(Members(signs), SignsNamed(cmd));
      forall i | 0 <= i < |cmd| ensures cmd[i].sign in signs {
        assert cmd[i].sign in SignsNamed(cmd);
      }
    }
  }
}
