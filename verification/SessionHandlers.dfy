/** The session commands of src/tsisp003/TsiSp003App.cpp: each sends its reply before it changes the session, because a
    change of the session restarts the sequence numbers. */
module SessionHandlers {
  import opened Control
  import opened Hex
  import opened Nts
  import opened StopAndWait
  import opened Wrappers

  const AckMi: bv8 := 0x01
  const PasswordSeedMi: bv8 := 0x03

  const SYNTAX_ERROR: bv8 := 0x02
  const LENGTH_ERROR: bv8 := 0x03
  const OFFLINE_ERROR: bv8 := 0x01
  const INCORRECT_PASSWORD: bv8 := 0x21

  /** The reply that goes down for `data`, through the presentation layer. */
  function Packet(c: Counters, device: bv8, data: seq<bv8>): seq<bv8> {
    Reply(c, device, Encode(data))
  }

  /** The application over its network layer, on a connection that is no broadcast. */
  class App {
    const nts: LayerNTS
    var seed: bv8

    ghost predicate Valid()
      reads this, nts
    {
      nts.Valid() && nts.addr != nts.broadcast
    }

    constructor (nts: LayerNTS)
      requires nts.Valid() && nts.addr != nts.broadcast
      ensures Valid() && this.nts == nts
    {
      this.nts, seed := nts, 0;
    }

    method Send(data: seq<bv8>) returns (wire: seq<bv8>)
      requires Valid() && |data| <= 3
      modifies nts`ns, nts.txbuf
      ensures Valid() && wire == Packet(old(nts.Numbers()), nts.device, data)
      ensures nts.Numbers() == AfterReply(old(nts.Numbers()), nts.session)
    {
      hide Encode, Reply, IncN;
      var sent := nts.Tx(Encode(data));
      wire := sent.value;
    }

    /** `ChkLen`: none for the right length, else the reply that refuses. */
    method ChkLen(rcvd: nat, due: nat, mi: bv8) returns (refusal: Option<seq<bv8>>)
      requires Valid()
      modifies nts`ns, nts.txbuf
      ensures Valid() && (refusal == None <==> rcvd == due)
      ensures refusal.Some? ==> refusal.value == Packet(old(nts.Numbers()), nts.device, [0, mi, LENGTH_ERROR])
      ensures nts.Numbers() == if refusal.Some? then AfterReply(old(nts.Numbers()), nts.session) else old(nts.Numbers())
    {
      if rcvd == due {
        return None;
      }
      var wire := Send([0, mi, LENGTH_ERROR]);
      refusal := Some(wire);
    }

    /** A refusal changes nothing but the N(S) that its reply uses up on-line. */
    ghost predicate Refused(wire: seq<bv8>, numbers: Counters, session: Session, mi: bv8, error: bv8)
      reads this, nts
    {
      && wire == Packet(numbers, nts.device, [0, mi, error])
      && nts.session == session && nts.Numbers() == AfterReply(numbers, session)
    }

    /** `StartSession`; `chance` is the random seed. */
    method StartSession(len: nat, chance: bv8) returns (wire: seq<bv8>)
      requires Valid()
      modifies this, nts, nts.txbuf
      ensures Valid()
      ensures len == 1 ==> nts.session == Start && nts.Numbers() == Counters(0, 0) && seed == chance
                           && wire == Packet(Counters(0, 0), nts.device, [PasswordSeedMi, chance])
      ensures len != 1 ==> Refused(wire, old(nts.Numbers()), old(nts.session), StartSessionMi, LENGTH_ERROR)
                           && seed == old(seed)
    {
      hide Packet, IncN;
      var refusal := ChkLen(len, 1, StartSessionMi);
      if refusal.Some? {
        return refusal.value;
      }
      nts.SetSession(Start);
      seed := chance;
      wire := Send([PasswordSeedMi, chance]);
    }

    /** `Password`; `right` says whether the password is the one expected for the seed. */
    method Password(len: nat, right: bool) returns (wire: seq<bv8>)
      requires Valid()
      modifies nts, nts.txbuf
      ensures Valid()
      ensures len == 3 && old(nts.session) == Start ==>
                && wire == (if right then Packet(old(nts.Numbers()), nts.device, [AckMi, 0x04])
                            else Packet(Counters(0, 0), nts.device, [0, 0x04, INCORRECT_PASSWORD]))
                && nts.session == (if right then OnLine else OffLine)
                && nts.Numbers() == Counters(0, 0)
      ensures len != 3 || old(nts.session) != Start ==>
                Refused(wire, old(nts.Numbers()), old(nts.session), 0x04, if len != 3 then LENGTH_ERROR else SYNTAX_ERROR)
    {
      hide Packet, IncN;
      var refusal := ChkLen(len, 3, 0x04);
      if refusal.Some? {
        return refusal.value;
      }
      if nts.session != Start {
        wire := Send([0, 0x04, SYNTAX_ERROR]);
        return;
      }
      if right {
        wire := Send([AckMi, 0x04]);
        nts.SetSession(OnLine);
      } else {
        nts.SetSession(OffLine);
        wire := Send([0, 0x04, INCORRECT_PASSWORD]);
      }
    }

    /** `EndSession`. */
    method EndSession(len: nat) returns (wire: seq<bv8>)
      requires Valid()
      modifies nts, nts.txbuf
      ensures Valid()
      ensures old(nts.session) == OnLine && len == 1 ==>
                && wire == Packet(old(nts.Numbers()), nts.device, [AckMi, 0x07])
                && nts.session == OffLine && nts.Numbers() == Counters(0, 0)
      ensures old(nts.session) != OnLine || len != 1 ==>
                Refused(wire, old(nts.Numbers()), old(nts.session), 0x07,
                        if old(nts.session) != OnLine then OFFLINE_ERROR else LENGTH_ERROR)
    {
      hide Packet, IncN;
      if nts.session != OnLine {
        wire := Send([0, 0x07, OFFLINE_ERROR]);
        return;
      }
      var refusal := ChkLen(len, 1, 0x07);
      if refusal.Some? {
        return refusal.value;
      }
      wire := Send([AckMi, 0x07]);
      nts.SetSession(OffLine);
    }

    /** The handshake: after it the session is on-line, both of its replies carried the numbers 0 and 0, and the numbers
        are where every run of the stop-and-wait protocol starts. */
    method Handshake(chance: bv8) returns (first: seq<bv8>, second: seq<bv8>)
      requires Valid()
      modifies this, nts, nts.txbuf
      ensures Valid() && nts.session == OnLine && nts.Numbers() == Opened.controller
      ensures first == Packet(Counters(0, 0), nts.device, [PasswordSeedMi, chance])
      ensures second == Packet(Counters(0, 0), nts.device, [AckMi, 0x04])
    {
      first := StartSession(1, chance);
      second := Password(3, true);
    }
  }

  // ----- Why the order matters -----

  /** The numbers if the session went on-line before the password was acknowledged. */
  function OnLineThenReply(): Counters {
    AfterReply(Counters(0, 0), OnLine)
  }

  /** The other way round no exchange would ever complete: the acknowledgement of the password would use up number 0,
      and N(S) would stay ahead of N(R) whatever the link loses or damages, unless it spoils the length of at least 254
      commands. */
  lemma {:induction false} OtherOrderNeverCompletes(fates: seq<Fate>)
    requires LengthDamages(fates) < 254
    ensures var w := Run(Opened.(controller := OnLineThenReply()), fates);
            w.step == w.refused
  {
    var w := Opened.(controller := OnLineThenReply());
    assert Advance(0, 1) == IncN(Advance(0, 0));
    NothingCompletesOutOfStep(w, fates, 1);
  }
}
