/** The composed receive verdict: MAC first, then freshness, then the durable accept, with
    one drop counter and one log event per frame. */
module SecocRx {
  import opened Words
  import opened WorkFlash
  import opened SecocStore
  import opened SecocFreshness
  import opened SecocFrame

  datatype RxVerdict = Accept | DropMac | DropFreshness

  /** The contract events of the receive path; MAC reasons are 1 forged, 2 length, 3 oracle. */
  datatype Event =
    | EvtAccept(id: u16, counter: u16)
    | EvtRejectMac(id: u16, reason: nat)
    | EvtRejectFreshness(id: u16, counter: u16)

  /** New receiver state and store, whether power was lost, and what the caller sees. */
  datatype Received = Received(rx: RxState, st: Store, cut: bool, verdict: RxVerdict, event: Event,
                               epoch: u16, counter: u16, pdu: seq<byte>)

  function Reason(r: VerifyResult): nat {
    match r
    case BadMac => 1
    case BadLength => 2
    case _ => 3
  }

  /** `plen` is the PDU length configured for the ID, 0 when there is none. */
  function VerifySpec(mac: Mac, up: bool, id: u16, frame: seq<byte>, plen: nat): VerifyResult {
    if plen != 0 then VerifyLen(mac, up, id, frame, plen, MAX_DLEN)
    else VerifyInferred(mac, up, id, frame, MAX_DLEN)
  }

  function ProcessSpec(mac: Mac, up: bool, rx: RxState, st: Store, id: u16, frame: seq<byte>, plen: nat, f: Fault)
    : Received
  {
    match VerifySpec(mac, up, id, frame, plen)
    case Verified(epoch, counter, pdu) =>
      if RxCheckSpec(rx, id, epoch, counter) != Fresh then
        Received(rx, st, false, DropFreshness, EvtRejectFreshness(id, counter), epoch, counter, [])
      else
        var (rx', st', rc) := RxAcceptSpec(rx, st, id, epoch, counter, f);
        if rc == Done then Received(rx', st', false, Accept, EvtAccept(id, counter), epoch, counter, pdu)
        else Received(rx', st', rc == Cut, DropFreshness, EvtRejectFreshness(id, counter), epoch, counter, [])
    case bad =>
      Received(rx, st, false, DropMac, EvtRejectMac(id, Reason(bad)), 0, 0, [])
  }

  /** A frame of the configured length or padded to its CAN FD length; any length that holds the
      trailer when none is configured. */
  predicate LengthOk(frame: seq<byte>, plen: nat) {
    if plen != 0 then plen + TRAILER_LEN <= |frame| <= FdLen(plen + TRAILER_LEN) && plen <= MAX_PDU
    else TRAILER_LEN <= |frame| <= MAX_DLEN + TRAILER_LEN
  }

  /** The tag the frame carries is the MAC of its ID, freshness and PDU. */
  predicate TagOk(mac: Mac, id: u16, frame: seq<byte>, plen: nat)
    requires LengthOk(frame, plen)
  {
    var n := if plen != 0 then plen else |frame| - TRAILER_LEN;
    mac(MacInput(id, frame[n..n + 4], frame[..n]))[..8] == WireTag(frame, n)
  }

  lemma FieldsAt(frame: seq<byte>, n: nat)
    requires n + 4 <= |frame|
    ensures GetU16(frame[n..n + 4]) == GetU16(frame[n..]) && GetU16(frame[n..n + 4][2..]) == GetU16(frame[n + 2..])
  {
    assert frame[n..n + 4][..2] == frame[n..][..2] && frame[n..n + 4][2..][..2] == frame[n + 2..][..2];
    U16Prefix(frame[n..n + 4], frame[n..n + 2]);
    U16Prefix(frame[n..], frame[n..n + 2]);
    U16Prefix(frame[n..n + 4][2..], frame[n + 2..n + 4]);
    U16Prefix(frame[n + 2..], frame[n + 2..n + 4]);
  }

  lemma VerifySays(mac: Mac, up: bool, id: u16, frame: seq<byte>, plen: nat)
    ensures var vr, n := VerifySpec(mac, up, id, frame, plen), if plen != 0 then plen else |frame| - TRAILER_LEN;
      if !LengthOk(frame, plen) then vr == BadLength
      else if !up then vr == MacError
      else if !TagOk(mac, id, frame, plen) then vr == BadMac
      else vr == Verified(GetU16(frame[n..]), GetU16(frame[n + 2..]), frame[..n])
  {
    hide MacInput, FdLen, GetU16;
    if LengthOk(frame, plen) {
      FieldsAt(frame, if plen != 0 then plen else |frame| - TRAILER_LEN);
    }
  }

  /** Which event belongs to which verdict: a MAC drop is logged with reason 2 for a wrong length,
      3 if the oracle gave no tag, 1 for a wrong tag, in this order of precedence; a freshness drop
      and an acceptance are logged with the ID and the counter of the frame. */
  lemma EventsMean(mac: Mac, up: bool, rx: RxState, st: Store, id: u16, frame: seq<byte>, plen: nat, f: Fault)
    ensures var r := ProcessSpec(mac, up, rx, st, id, frame, plen, f);
      if !LengthOk(frame, plen) then r.verdict == DropMac && r.event == EvtRejectMac(id, 2)
      else if !up then r.verdict == DropMac && r.event == EvtRejectMac(id, 3)
      else if !TagOk(mac, id, frame, plen) then r.verdict == DropMac && r.event == EvtRejectMac(id, 1)
      else
        var n := if plen != 0 then plen else |frame| - TRAILER_LEN;
        && r.verdict != DropMac && r.epoch == GetU16(frame[n..]) && r.counter == GetU16(frame[n + 2..])
        && r.event == (if r.verdict == Accept then EvtAccept(id, r.counter) else EvtRejectFreshness(id, r.counter))
        && r.pdu == (if r.verdict == Accept then frame[..n] else [])
  {
    hide RxCheckSpec, RxAcceptSpec, VerifySpec, TagOk, LengthOk, GetU16;
    VerifySays(mac, up, id, frame, plen);
  }

  lemma VerifiedFits(mac: Mac, up: bool, id: u16, frame: seq<byte>, plen: nat)
    ensures var vr := VerifySpec(mac, up, id, frame, plen); vr.Verified? ==> |vr.pdu| <= MAX_DLEN
  {
  }

  /** The promise of an untouched buffer fails for every replay: a frame that was accepted and
      comes again is dropped for its freshness, and its PDU stands in the buffer. */
  lemma ReplayIsWritten(mac: Mac, rx: RxState, st: Store, id: u16, frame: seq<byte>, plen: nat, f: Fault, g: Fault,
                        before: seq<byte>)
    requires |before| == MAX_DLEN && ProcessSpec(mac, true, rx, st, id, frame, plen, f).verdict == Accept
    ensures var r := ProcessSpec(mac, true, rx, st, id, frame, plen, f);
            var again := ProcessSpec(mac, true, r.rx, r.st, id, frame, plen, g);
            var vr := VerifySpec(mac, true, id, frame, plen);
            && again.verdict == DropFreshness && again.pdu == []
            && vr.Verified? && |vr.pdu| <= |before| && Written(vr, before)[..|r.pdu|] == r.pdu
            && (before[..|r.pdu|] != r.pdu ==> Written(vr, before) != before)
  {
    hide VerifySpec, CommitSpec;
    VerifiedFits(mac, true, id, frame, plen);
  }

  lemma WrittenFront(vr: VerifyResult, before: seq<byte>)
    requires vr.Verified? && |vr.pdu| <= |before|
    ensures Written(vr, before)[..|vr.pdu|] == vr.pdu
  {
  }

  class SecocReceiver {
    const context: RxContext
    var nAccept: u32
    var nDropMac: u32
    var nDropFresh: u32
    var events: seq<Event>

    constructor (context: RxContext)
      ensures this.context == context && nAccept == nDropMac == nDropFresh == 0 && events == []
    {
      this.context := context;
      nAccept, nDropMac, nDropFresh, events := 0, 0, 0, [];
    }

    /** One frame: exactly one event, exactly one counter, and a PDU length of 0 unless accepted.
        When power is lost inside the commit nothing is counted or logged. The buffer is left
        alone exactly on a MAC drop: a frame that verifies is written to it before its
        freshness is judged. */
    method Process(mac: Mac, up: bool, id: u16, frame: seq<byte>, plen: nat, f: Fault, out: array<byte>)
      returns (verdict: RxVerdict, pduLen: nat, cut: bool)
      requires context.Valid() && out.Length == MAX_DLEN
      modifies this, context, context.store, context.store.flash, out
      ensures context.Valid()
      ensures var r := ProcessSpec(mac, up, old(context.Value()), old(context.store.State()), id, frame, plen, f);
              && context.Value() == r.rx && context.store.State() == r.st
              && verdict == r.verdict && pduLen == |r.pdu| <= out.Length && out[..pduLen] == r.pdu && cut == r.cut
              && events == old(events) + (if cut then [] else [r.event])
      ensures verdict != Accept ==> pduLen == 0
      ensures var vr := VerifySpec(mac, up, id, frame, plen);
              && (verdict == DropMac <==> !vr.Verified?)
              && (vr.Verified? ==> |vr.pdu| <= out.Length) && out[..] == Written(vr, old(out[..]))
      ensures nAccept == (old(nAccept) + if !cut && verdict == Accept then 1 else 0) % U32_MOD
      ensures nDropMac == (old(nDropMac) + if !cut && verdict == DropMac then 1 else 0) % U32_MOD
      ensures nDropFresh == (old(nDropFresh) + if !cut && verdict == DropFreshness then 1 else 0) % U32_MOD
    {
      hide CommitSpec, VerifySpec, Written, RxCheckSpec, RxAcceptSpec;
      var vr := Verify(mac, up, id, frame, plen, out);
      if !vr.Verified? {
        nDropMac := (nDropMac + 1) % U32_MOD;
        events := events + [EvtRejectMac(id, Reason(vr))];
        return DropMac, 0, false;
      }
      WrittenFront(vr, old(out[..]));
      var v := context.Check(id, vr.epoch, vr.counter);
      if v == Fresh {
        var rc := context.Accept(id, vr.epoch, vr.counter, f);
        if rc == Done {
          nAccept := (nAccept + 1) % U32_MOD;
          events := events + [EvtAccept(id, vr.counter)];
          return Accept, |vr.pdu|, false;
        }
        if rc == Cut {
          return DropFreshness, 0, true;
        }
      }
      nDropFresh := (nDropFresh + 1) % U32_MOD;
      events := events + [EvtRejectFreshness(id, vr.counter)];
      return DropFreshness, 0, false;
    }

    method Verify(mac: Mac, up: bool, id: u16, frame: seq<byte>, plen: nat, out: array<byte>) returns (vr: VerifyResult)
      requires out.Length == MAX_DLEN
      modifies out
      ensures vr == VerifySpec(mac, up, id, frame, plen)
      ensures (vr.Verified? ==> |vr.pdu| <= out.Length) && out[..] == Written(vr, old(out[..]))
    {
      if plen != 0 {
        vr := VerifyConfigured(mac, up, id, frame, plen, out);
      } else {
        vr := VerifyUnconfigured(mac, up, id, frame, out);
      }
    }
  }
}
