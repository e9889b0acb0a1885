/** SecOC's MAC oracle is `crypto_mac`: what the frame code sees as a MAC and an `up` flag is
    what a run of the two cores around the mailbox returns. */
module SecocOracle {
  import opened Words
  import opened SecocFrame
  import R = CryptoRpc
  import S = CryptoSystem

  /** The secure core computes `mac` under this key whenever it answers at all. */
  ghost predicate Computes(e: R.Secure, key: u32, mac: Mac) {
    forall k, input {:trigger R.Answer(e, k, key, input)} ::
      R.Answer(e, k, key, input).Some? ==> R.Answer(e, k, key, input).value == mac(input)
  }

  /** Task `c` has finished a call for this MAC input, and no wait has timed out so far. */
  predicate Called(e: R.Secure, states: seq<S.Sys>, acts: seq<S.Action>, c: nat, key: u32, input: seq<byte>) {
    && S.Trace(e, states, acts) && S.Boot(states[0]) && !states[|acts|].late
    && c < |states[|acts|].clients| && states[|acts|].clients[c].Done?
    && R.Request(key, input) == Some(states[|acts|].clients[c].req)
  }

  /** What the call returned. */
  function Returned(states: seq<S.Sys>, c: nat): Option<Tag>
    requires |states| > 0 && c < |states[|states| - 1].clients| && states[|states| - 1].clients[c].Done?
  {
    R.TagOf(states[|states| - 1].clients[c].result)
  }

  /** The MAC input of any frame fits the mailbox, so a call fails only if the channel was busy
      or the secure core gave no tag, and otherwise returns the MAC of exactly this input. */
  lemma OracleAnswers(e: R.Secure, states: seq<S.Sys>, acts: seq<S.Action>, c: nat, key: u32, mac: Mac,
                      id: u16, fv: seq<byte>, pdu: seq<byte>)
    requires |fv| == 4 && |pdu| <= MAX_PDU && Called(e, states, acts, c, key, MacInput(id, fv, pdu))
      && Computes(e, key, mac)
    ensures var tag, x := Returned(states, c), states[|acts|].clients[c];
      && |MacInput(id, fv, pdu)| <= 70
      && (tag.None? <==> x.result == R.BUSY || R.Answer(e, x.k, key, MacInput(id, fv, pdu)).None?)
      && (tag.Some? ==> tag.value == mac(MacInput(id, fv, pdu)))
  {
    hide MacInput, R.Request, R.TagOf, R.Answer, S.Next, S.Enabled;
    S.MacIsTransparent(e, states, acts, |acts|, c, key, MacInput(id, fv, pdu));
  }

  /** The verification of a frame with the answer of a call. */
  function VerifyWith(tag: Option<Tag>, frame: seq<byte>, plen: nat): VerifyResult
    requires plen + TRAILER_LEN <= |frame|
  {
    match tag
    case None => MacError
    case Some(t) =>
      if t[..8] != WireTag(frame, plen) then BadMac
      else Verified(GetU16(frame[plen..plen + 4]), GetU16(frame[plen..plen + 4][2..]), frame[..plen])
  }

  /** So verifying with the oracle is verifying with what the call returned. */
  lemma VerifiedThroughCall(e: R.Secure, states: seq<S.Sys>, acts: seq<S.Action>, c: nat, key: u32, mac: Mac,
                            id: u16, frame: seq<byte>, plen: nat)
    requires plen + TRAILER_LEN <= |frame| && plen <= MAX_PDU && Computes(e, key, mac)
    requires Called(e, states, acts, c, key, MacInput(id, frame[plen..plen + 4], frame[..plen]))
    ensures var tag := Returned(states, c); VerifyCore(mac, tag.Some?, id, frame, plen) == VerifyWith(tag, frame, plen)
  {
    hide MacInput, R.TagOf, GetU16, Called, Computes;
    OracleAnswers(e, states, acts, c, key, mac, id, frame[plen..plen + 4], frame[..plen]);
  }

  /** The frame made with the answer of a call. */
  function SecureWith(tag: Option<Tag>, epoch: u16, counter: u16, pdu: seq<byte>): Option<seq<byte>> {
    if |pdu| + TRAILER_LEN > MAX_DLEN || tag.None? then None else Some(pdu + Freshness(epoch, counter) + tag.value[..8])
  }

  lemma SecuredThroughCall(e: R.Secure, states: seq<S.Sys>, acts: seq<S.Action>, c: nat, key: u32, mac: Mac,
                           id: u16, epoch: u16, counter: u16, pdu: seq<byte>)
    requires |pdu| <= MAX_PDU && Computes(e, key, mac)
    requires Called(e, states, acts, c, key, MacInput(id, Freshness(epoch, counter), pdu))
    ensures var tag := Returned(states, c);
      Secure(mac, tag.Some?, id, epoch, counter, pdu, MAX_DLEN) == SecureWith(tag, epoch, counter, pdu)
  {
    hide MacInput, R.TagOf, Freshness, Called, Computes;
    OracleAnswers(e, states, acts, c, key, mac, id, Freshness(epoch, counter), pdu);
  }

  /** End to end over both nodes' mailboxes: a frame made through one node's secure core verifies
      through the other's, with any padding, if both hold the same key and both calls were
      answered; whatever else their tasks and cores did. */
  lemma FrameThroughBothCores(e: R.Secure, states: seq<S.Sys>, acts: seq<S.Action>, c: nat,
                              e': R.Secure, states': seq<S.Sys>, acts': seq<S.Action>, c': nat,
                              key: u32, key': u32, mac: Mac, id: u16, epoch: u16, counter: u16, pdu: seq<byte>,
                              wire: seq<byte>)
    requires |pdu| + TRAILER_LEN <= MAX_DLEN && Computes(e, key, mac) && Computes(e', key', mac)
    requires Called(e, states, acts, c, key, MacInput(id, Freshness(epoch, counter), pdu)) && Returned(states, c).Some?
    requires PadsTo(SecureWith(Returned(states, c), epoch, counter, pdu).value, wire)
    requires |wire| >= |pdu| + TRAILER_LEN
    requires Called(e', states', acts', c', key', MacInput(id, wire[|pdu|..|pdu| + 4], wire[..|pdu|]))
    requires Returned(states', c').Some?
    ensures VerifyWith(Returned(states', c'), wire, |pdu|) == Verified(epoch, counter, pdu)
  {
    hide MacInput, Returned, VerifyCore, Freshness, Called, Computes, PadsTo, FdLen, Secure;
    SecuredThroughCall(e, states, acts, c, key, mac, id, epoch, counter, pdu);
    SecureLength(mac, id, epoch, counter, pdu);
    SecureVerify(mac, id, epoch, counter, pdu, wire, MAX_DLEN);
    VerifiedThroughCall(e', states', acts', c', key', mac, id, wire, |pdu|);
    VerifiedCore(mac, id, wire, |pdu|);
  }

  lemma SecureLength(mac: Mac, id: u16, epoch: u16, counter: u16, pdu: seq<byte>)
    requires |pdu| + TRAILER_LEN <= MAX_DLEN
    ensures Secure(mac, true, id, epoch, counter, pdu, MAX_DLEN).Some?
  {
  }

  lemma VerifiedCore(mac: Mac, id: u16, frame: seq<byte>, plen: nat)
    requires plen + TRAILER_LEN <= |frame| && VerifyLen(mac, true, id, frame, plen, MAX_DLEN).Verified?
    ensures VerifyLen(mac, true, id, frame, plen, MAX_DLEN) == VerifyCore(mac, true, id, frame, plen)
  {
    hide VerifyCore;
  }
}
