/** Both ends of the crypto service: the secure core's dispatch, and the application core's
    MAC client over the mailbox transport. */
module CryptoRpc {
  import opened Words
  import opened CryptoMsg

  const MAILBOX_CAP := 128
  const MAC_TIMEOUT_MS := 10
  const AES_KEY_BYTES := 16

  datatype Key = Key(aes: bool, secret: seq<byte>)

  /** The secure core: its keystore, and what the CMAC block answers the k-th service
      (nothing if the hardware reports a fault). */
  datatype Secure = Secure(keys: map<u32, Key>, cmac: (nat, seq<byte>, seq<byte>) -> Option<Tag>)

  // ---------------------------------------------------------------- the server

  /** The answer to a MAC request: a tag if the key is a usable AES secret and the
      hardware succeeds. */
  function Answer(s: Secure, k: nat, key: u32, msg: seq<byte>): Option<Tag> {
    if key in s.keys && s.keys[key].aes && |s.keys[key].secret| == AES_KEY_BYTES
    then s.cmac(k, s.keys[key].secret, msg) else None
  }

  function MacHandler(s: Secure, k: nat, m: Msg): Msg {
    match ParseMacRequest(m)
    case None => Verdict(OP_MAC, VERDICT_ERROR)
    case Some(r) =>
      match Answer(s, k, r.0, r.1)
      case None => Verdict(OP_MAC, VERDICT_ERROR)
      case Some(tag) => MacResponse(tag)
  }

  /** The dispatch table holds the MAC handler only; everything else is answered with an
      error verdict that echoes the operation where it is known. */
  function Reply(s: Secure, k: nat, req: seq<byte>): (m: Msg)
    ensures 0 < |m.payload| <= TAG_LEN
  {
    match Decode(req)
    case None => Verdict(OP_NONE, VERDICT_ERROR)
    case Some(m) => if m.op == OP_MAC then MacHandler(s, k, m) else Verdict(m.op, VERDICT_ERROR)
  }

  /** The bytes the server leaves in the mailbox for the request bytes `req`. */
  function Serve(s: Secure, k: nat, req: seq<byte>): (resp: seq<byte>)
    ensures HDR_SIZE < |resp| <= MAILBOX_CAP
  {
    Encode(Reply(s, k, req), MAILBOX_CAP).value
  }

  // ---------------------------------------------------------------- the client

  datatype Ipc = OK(resp: seq<byte>) | BUSY | TIMEOUT | MALFORMED

  /** The request bytes of a MAC call, if the message passes the client's own limit. */
  function Request(key: u32, msg: seq<byte>): Option<seq<byte>> {
    if |msg| > MAX_PAYLOAD - 6 then None else Encode(MacRequest(key, msg), MAX_WIRE)
  }

  function TagOf(ipc: Ipc): Option<Tag> {
    if !ipc.OK? then None
    else match Decode(ipc.resp)
      case None => None
      case Some(m) => ParseMacResponse(m)
  }

  /** One byte over the mailbox: requests fit up to 119 message bytes, although the client's
      own limit is 122. */
  lemma RequestFits(key: u32, msg: seq<byte>)
    ensures Request(key, msg).Some? <==> |msg| <= 122
    ensures Request(key, msg).Some? ==> (|Request(key, msg).value| <= MAILBOX_CAP <==> |msg| <= 119)
  {
    hide PutU16, PutU32;
  }

  /** The reply to the client's own request carries the server's answer for exactly that key
      and message. */
  lemma ReplyIsAnswer(s: Secure, k: nat, key: u32, msg: seq<byte>)
    requires |msg| <= 119
    ensures Request(key, msg).Some? && TagOf(OK(Serve(s, k, Request(key, msg).value))) == Answer(s, k, key, msg)
  {
    hide PutU16, GetU16, PutU32, GetU32, Encode, Decode, Answer;
    var m := MacRequest(key, msg);
    EncodeSome(m, MAX_WIRE);
    var req := Request(key, msg).value;
    EnvelopeRoundTrip(m, MAX_WIRE, []);
    assert req + [] == req;
    MacRequestRoundTrip(key, msg);
    var r := Reply(s, k, req);
    EnvelopeRoundTrip(r, MAILBOX_CAP, []);
    assert Serve(s, k, req) + [] == Serve(s, k, req);
    match Answer(s, k, key, msg) {
      case None =>
      case Some(tag) => assert tag[..TAG_LEN] == tag;
    }
  }

  /** What the secure core answers to any bytes whatever: 16 tag bytes exactly to a MAC request for
      an AES key of 16 bytes for which the hardware gave them; otherwise the one byte 2, for an
      error, under the operation asked for, or under 0 if the request cannot be decoded. */
  lemma ServedExactly(s: Secure, k: nat, req: seq<byte>)
    ensures Decode(Serve(s, k, req)) == Some(
      match Decode(req)
      case None => Msg(0, [2])
      case Some(m) =>
        if m.op != 3 then Msg(m.op, [2])
        else match ParseMacRequest(m)
          case None => Msg(3, [2])
          case Some(r) =>
            if r.0 !in s.keys || !s.keys[r.0].aes || |s.keys[r.0].secret| != 16 then Msg(3, [2])
            else match s.cmac(k, s.keys[r.0].secret, r.1)
              case None => Msg(3, [2])
              case Some(tag) => Msg(3, tag))
  {
    hide Encode, Decode;
    var r := Reply(s, k, req);
    EnvelopeRoundTrip(r, MAILBOX_CAP, []);
    assert Serve(s, k, req) + [] == Serve(s, k, req);
  }

  /** The client takes a tag from a reply exactly if it is a MAC reply that holds sixteen bytes. */
  lemma TagTaken(resp: seq<byte>)
    ensures TagOf(OK(resp)).Some?
      <==> Decode(resp).Some? && Decode(resp).value.op == 3 && |Decode(resp).value.payload| >= 16
    ensures TagOf(OK(resp)).Some? ==> TagOf(OK(resp)).value == Decode(resp).value.payload[..16]
  {
    hide Decode;
  }

  lemma EncodeSome(m: Msg, cap: nat)
    requires |m.payload| <= MAX_PAYLOAD && HDR_SIZE + |m.payload| <= cap
    ensures Encode(m, cap).Some?
  {
  }

  // ---------------------------------------------------------------- the C transport

  datatype Status = IDLE | REQUEST | RESPONSE

  /** What this core sees of its environment, in order: the lock, looks at the mailbox, clock. */
  datatype Event = Acquire(ok: bool) | Look(ready: bool) | Clock(t: u32)

  /** What the other core has left in the mailbox: the announced length and the region. */
  datatype Left = Left(n: nat, region: seq<byte>)

  /** Looks that find nothing, each followed by a reading within the timeout. */
  predicate Waits(h: seq<Event>, start: u32, timeout: u32) {
    && |h| % 2 == 0
    && forall i :: 0 <= i < |h| / 2 ==>
         h[2 * i] == Look(false) && h[2 * i + 1].Clock? && Elapsed(h[2 * i + 1].t, start) < timeout
  }

  /** The reply in what was left, if it fits the caller's buffer and the mailbox. */
  function ReplyIn(left: Left, cap: nat): Option<seq<byte>> {
    if left.n <= cap && left.n <= MAILBOX_CAP && left.n <= |left.region| then Some(left.region[..left.n]) else None
  }

  lemma OneMoreWait(h: seq<Event>, start: u32, timeout: u32, t: u32)
    requires Waits(h, start, timeout) && Elapsed(t, start) < timeout
    ensures Waits(h + [Look(false), Clock(t)], start, timeout) && |h + [Look(false), Clock(t)]| / 2 == |h| / 2 + 1
  {
    var g := h + [Look(false), Clock(t)];
    forall i | 0 <= i < |g| / 2
      ensures g[2 * i] == Look(false) && g[2 * i + 1].Clock? && Elapsed(g[2 * i + 1].t, start) < timeout
    {
      if i < |h| / 2 {
        assert g[2 * i] == h[2 * i] && g[2 * i + 1] == h[2 * i + 1];
      }
    }
  }

  lemma NoWaits(start: u32, timeout: u32)
    ensures Waits([], start, timeout)
  {
  }

  /** The shared region, the channel's lock as this core sees it, and the clock. History: the
      request the server was shown at each doorbell, what this core saw, what the other core
      left since the last doorbell. `still` is the number of readings to come at which the
      clock stands still. */
  class Port {
    const payload: array<byte>
    var status: Status
    var len: nat
    var held: bool
    var now: u32
    ghost var rung: seq<seq<byte>>
    ghost var seen: seq<Event>
    ghost var answer: Option<Left>
    var still: nat

    ghost predicate Valid() {
      payload.Length == MAILBOX_CAP
    }

    /** In a transaction: the answer is there exactly when the status says so. */
    ghost predicate Answered()
      reads this, payload
    {
      && (answer.Some? <==> status == RESPONSE)
      && (answer.Some? ==> answer.value == Left(len, payload[..]))
    }

    constructor (still: nat)
      ensures Valid() && !held && status == IDLE && rung == [] && seen == [] && answer == None
      ensures fresh(payload) && this.still == still
    {
      payload := new byte[MAILBOX_CAP];
      status, len, held, now, rung, seen, answer := IDLE, 0, false, 0, [], [], None;
      this.still := still;
    }

    method TryAcquire() returns (ok: bool)
      modifies this`held, this`seen
      ensures held == (ok || old(held)) && (old(held) ==> !ok) && seen == old(seen) + [Acquire(ok)]
    {
      ok := *;
      ok := ok && !held;
      held := held || ok;
      seen := seen + [Acquire(ok)];
    }

    method Release()
      modifies this`held, this`status
      ensures !held && status == IDLE
    {
      status := IDLE;
      held := false;
    }

    method Notify(n: nat)
      requires Valid() && n <= payload.Length
      modifies this`len, this`status, this`rung, this`answer
      ensures len == n && status == REQUEST && rung == old(rung) + [payload[..n]] && answer == None
    {
      len := n;
      status := REQUEST;
      rung := rung + [payload[..n]];
      answer := None;
    }

    /** Since the last look the other core may have answered. */
    method ResponseReady() returns (ready: bool)
      requires Valid() && status != IDLE && Answered()
      modifies this`status, this`len, this`seen, this`answer, payload
      ensures ready == (status == RESPONSE) && status != IDLE && Answered() && seen == old(seen) + [Look(ready)]
      ensures old(answer).Some? ==> answer == old(answer)
    {
      var answered: bool := *;
      if answered && status == REQUEST {
        var n: nat := *;
        var bytes := new byte[payload.Length];
        forall i | 0 <= i < payload.Length {
          payload[i] := bytes[i];
        }
        len := n;
        status := RESPONSE;
        answer := Some(Left(n, payload[..]));
      }
      ready := status == RESPONSE;
      seen := seen + [Look(ready)];
    }

    /** Between two readings the clock stands still, which it does finitely often, or it moves,
        by less than would carry it past the timeout unseen. */
    method NowMs(timeout: u32) returns (t: u32)
      modifies this`now, this`still, this`seen
      ensures t == now && still == old(still) - (if now == old(now) then 1 else 0) && seen == old(seen) + [Clock(t)]
      ensures now != old(now) ==> (now as int - old(now) as int) % U32_MOD + timeout as int <= U32_MOD
    {
      var d: nat :| d < U32_MOD && d + timeout as int <= U32_MOD && (still == 0 ==> d > 0);
      if d == 0 {
        still := still - 1;
      }
      now := (now as int + d) % U32_MOD;
      t := now;
      seen := seen + [Clock(t)];
    }

    method CopyIn(req: seq<byte>)
      requires Valid() && |req| <= MAILBOX_CAP
      modifies payload
      ensures payload[..|req|] == req
    {
      for i := 0 to |req|
        invariant payload[..i] == req[..i]
      {
        payload[i] := req[i];
      }
      assert req[..|req|] == req;
    }

    /** One transaction. A request that does not fit touches nothing; BUSY comes from a lock
        that was refused. Otherwise the server is shown exactly `req`, and this core looks until
        an answer is there or the clock has moved by `timeout` since the doorbell: it times out
        exactly in the latter case, and returns exactly what was left in the former, unless that
        does not fit. The lock is given back on every path, and at most `timeout` + 1 looks find
        no answer, plus one for every reading at which the clock stood still. */
    method Transact(req: seq<byte>, cap: nat, timeout: u32) returns (r: Ipc, ghost start: u32, ghost waits: seq<Event>)
      requires Valid() && !held
      modifies this, payload
      ensures !held && still <= old(still) && Waits(waits, start, timeout)
      ensures |waits| / 2 <= timeout as int + (old(still) - still)
      ensures if |req| > MAILBOX_CAP then r == MALFORMED && seen == old(seen)
        else if r == BUSY then seen == old(seen) + [Acquire(false)]
        else if r == TIMEOUT then
          && |seen| > 0 && seen[|seen| - 1].Clock? && Elapsed(seen[|seen| - 1].t, start) >= timeout && answer == None
          && seen == old(seen) + [Acquire(true), Clock(start)] + waits + [Look(false), seen[|seen| - 1]]
        else
          && answer.Some? && seen == old(seen) + [Acquire(true), Clock(start)] + waits + [Look(true)]
          && r == match ReplyIn(answer.value, cap) case None => MALFORMED case Some(resp) => OK(resp)
      ensures if |req| > MAILBOX_CAP || r == BUSY
        then rung == old(rung) && answer == old(answer) && payload[..] == old(payload[..]) && status == old(status)
        else rung == old(rung) + [req] && status == IDLE
    {
      hide Waits;
      start, waits := 0, [];
      NoWaits(start, timeout);
      if |req| > MAILBOX_CAP {
        return MALFORMED, start, waits;
      }
      var ok := TryAcquire();
      if !ok {
        return BUSY, start, waits;
      }
      CopyIn(req);
      Notify(|req|);
      var begin := NowMs(timeout);
      start := begin;
      NoWaits(start, timeout);
      ghost var stills, before := still, seen;
      while true
        modifies this, payload
        invariant status != IDLE && held && Answered() && rung == old(rung) + [req]
        invariant still <= stills && stills <= old(still)
        invariant seen == before + waits && Waits(waits, start, timeout)
        invariant |waits| / 2 <= Elapsed(now, start) as int + (stills - still)
        invariant now == start || Elapsed(now, start) < timeout
        decreases timeout as int + stills + 1 - |waits| / 2
      {
        var ready := ResponseReady();
        if ready {
          break;
        }
        ghost var last := now;
        var t := NowMs(timeout);
        if t != last {
          ClockAdds(last, t, start, timeout);
        }
        if (t as int - begin as int) % U32_MOD >= timeout {
          Release();
          return TIMEOUT, start, waits;
        }
        OneMoreWait(waits, start, timeout, t);
        waits := waits + [Look(false), Clock(t)];
      }
      var n := len;
      if n > cap || n > MAILBOX_CAP {
        Release();
        return MALFORMED, start, waits;
      }
      var resp := payload[..n];
      Release();
      return OK(resp), start, waits;
    }

    /** The tag comes from what the secure core left after exactly this request was shown, and
        there is none without such an answer. */
    method CryptoMac(key: u32, msg: seq<byte>) returns (tag: Option<Tag>, ghost ipc: Ipc)
      requires Valid() && !held
      modifies this, payload
      ensures !held && tag == TagOf(ipc)
      ensures if |msg| > 119 then tag == None && rung == old(rung) && seen == old(seen)
        else if ipc == BUSY then rung == old(rung) && seen == old(seen) + [Acquire(false)]
        else Request(key, msg).Some? && rung == old(rung) + [Request(key, msg).value]
      ensures tag.Some? ==> answer.Some? && ReplyIn(answer.value, MAX_WIRE).Some?
      ensures tag.Some? ==> tag == TagOf(OK(ReplyIn(answer.value, MAX_WIRE).value))
      ensures |msg| <= 119 && ipc != BUSY && answer.Some? ==>
        tag == match ReplyIn(answer.value, MAX_WIRE) case None => None case Some(resp) => TagOf(OK(resp))
      ensures |msg| <= 119 && ipc != BUSY && answer.None? ==> ipc == TIMEOUT
    {
      hide Encode, Decode;
      RequestFits(key, msg);
      ipc := MALFORMED;
      if |msg| > MAX_PAYLOAD - 6 {
        return None, ipc;
      }
      var req := Encode(MacRequest(key, msg), MAX_WIRE);
      if req.None? {
        return None, ipc;
      }
      var r;
      ghost var start, waits;
      r, start, waits := Transact(req.value, MAX_WIRE, MAC_TIMEOUT_MS);
      ipc := r;
      tag := TagOf(r);
    }
  }

  function Elapsed(now: u32, start: u32): u32 {
    (now as int - start as int) % U32_MOD
  }

  lemma ClockAdds(a: u32, b: u32, start: u32, timeout: u32)
    requires a != b && (b as int - a as int) % U32_MOD + timeout as int <= U32_MOD
    ensures a == start || Elapsed(a, start) < timeout ==> Elapsed(b, start) > Elapsed(a, start)
  {
  }
}
