/** The two cores around the shared mailbox, step by step: any number of client tasks that
    compete for the channel lock, and one server that works in place on the payload. */
module CryptoSystem {
  import opened Words
  import opened CryptoMsg
  import opened CryptoRpc

  /** Where a client task is in a transaction for the request `req`. `k` is history: the
      number of requests served before this one. */
  datatype Client =
    | Ready
    | Write(req: seq<byte>, i: nat)
    | Bell(req: seq<byte>, lenSet: bool)
    | Wait(req: seq<byte>, k: nat)
    | Copy(req: seq<byte>, k: nat, n: nat, got: seq<byte>)
    | Leave(req: seq<byte>, k: nat, result: Ipc)
    | Unlock(req: seq<byte>, k: nat, result: Ipc)
    | Done(req: seq<byte>, k: nat, result: Ipc)

  datatype Server =
    | Poll
    | Fetch(n: nat, got: seq<byte>)
    | Put(resp: seq<byte>, i: nat)
    | Finish(lenSet: bool)

  /** `served` counts the requests the server has begun; `late` is history: some client has
      given up waiting. */
  datatype Sys = Sys(status: Status, len: nat, payload: seq<byte>, owner: Option<nat>,
                     clients: seq<Client>, server: Server, served: nat, late: bool)

  datatype Action =
    | Call(c: nat, req: seq<byte>)
    | ClientStep(c: nat)
    | GiveUp(c: nat)
    | ServerStep

  predicate Active(c: Client) {
    !c.Ready? && !c.Done?
  }

  function Set(s: Sys, c: nat, x: Client): Sys
    requires c < |s.clients|
  {
    s.(clients := s.clients[c := x])
  }

  predicate Enabled(s: Sys, a: Action) {
    match a
    case Call(c, req) => c < |s.clients| && !Active(s.clients[c])
    case ClientStep(c) =>
      c < |s.clients| && Active(s.clients[c]) && |s.payload| == MAILBOX_CAP &&
      (match s.clients[c]
       case Write(req, i) => i <= |req| <= MAILBOX_CAP
       case Wait(_, _) => s.status == RESPONSE
       case Copy(_, _, n, got) => |got| <= n <= MAILBOX_CAP
       case _ => true)
    case GiveUp(c) => c < |s.clients| && s.clients[c].Wait? && s.status != RESPONSE
    case ServerStep =>
      |s.payload| == MAILBOX_CAP &&
      (match s.server
       case Poll => s.status == REQUEST && s.len <= MAILBOX_CAP
       case Fetch(n, got) => |got| <= n <= MAILBOX_CAP
       case Put(resp, i) => i <= |resp| <= MAILBOX_CAP
       case Finish(_) => true)
  }

  function CallSpec(s: Sys, c: nat, req: seq<byte>): Sys
    requires c < |s.clients|
  {
    if |req| > MAILBOX_CAP then Set(s, c, Done(req, 0, MALFORMED))
    else if s.owner.Some? then Set(s, c, Done(req, 0, BUSY))
    else Set(s, c, Write(req, 0)).(owner := Some(c))
  }

  /** One step of a client in a transaction: one byte, one register or one look. */
  function Advance(s: Sys, c: nat): Sys
    requires Enabled(s, ClientStep(c))
  {
    match s.clients[c]
    case Write(req, i) =>
      if i < |req| then Set(s, c, Write(req, i + 1)).(payload := s.payload[i := req[i]])
      else Set(s, c, Bell(req, false))
    case Bell(req, lenSet) =>
      if !lenSet then Set(s, c, Bell(req, true)).(len := |req|) else Set(s, c, Wait(req, s.served)).(status := REQUEST)
    case Wait(req, k) =>
      if s.len > MAX_WIRE || s.len > MAILBOX_CAP then Set(s, c, Leave(req, k, MALFORMED))
      else Set(s, c, Copy(req, k, s.len, []))
    case Copy(req, k, n, got) =>
      if |got| < n then Set(s, c, Copy(req, k, n, got + [s.payload[|got|]])) else Set(s, c, Leave(req, k, OK(got)))
    case Leave(req, k, result) => Set(s, c, Unlock(req, k, result)).(status := IDLE)
    case Unlock(req, k, result) => Set(s, c, Done(req, k, result)).(owner := None)
  }

  /** One step of the server: decoding is from its own copy, encoding goes over the request. */
  function Work(e: Secure, s: Sys): Sys
    requires Enabled(s, ServerStep)
  {
    match s.server
    case Poll => s.(server := Fetch(s.len, []), served := s.served + 1)
    case Fetch(n, got) =>
      if |got| < n then s.(server := Fetch(n, got + [s.payload[|got|]]))
      else s.(server := Put(Serve(e, if s.served > 0 then s.served - 1 else 0, got), 0))
    case Put(resp, i) =>
      if i < |resp| then s.(server := Put(resp, i + 1), payload := s.payload[i := resp[i]])
      else s.(server := Finish(false), len := |resp|)
    case Finish(_) => s.(server := Poll, status := RESPONSE)
  }

  function Next(e: Secure, s: Sys, a: Action): Sys
    requires Enabled(s, a)
  {
    match a
    case Call(c, req) => CallSpec(s, c, req)
    case ClientStep(c) => Advance(s, c)
    case GiveUp(c) => Set(s, c, Leave(s.clients[c].req, s.clients[c].k, TIMEOUT)).(late := true)
    case ServerStep => Work(e, s)
  }

  predicate Trace(e: Secure, states: seq<Sys>, acts: seq<Action>) {
    |states| == |acts| + 1
    && forall i {:trigger acts[i]} :: 0 <= i < |acts| ==>
      Enabled(states[i], acts[i]) && states[i + 1] == Next(e, states[i], acts[i])
  }

  /** Both cores up, no transaction yet. */
  predicate Boot(s: Sys) {
    && s.status == IDLE && s.owner == None && s.server == Poll && |s.payload| == MAILBOX_CAP && !s.late
    && forall c :: 0 <= c < |s.clients| ==> s.clients[c] == Ready
  }

  // ---------------------------------------------------------------- the lock, on every run

  /** The lock is held exactly by the one task inside a transaction. */
  predicate LockOk(s: Sys) {
    && |s.payload| == MAILBOX_CAP && (s.owner.Some? ==> s.owner.value < |s.clients|)
    && forall c :: 0 <= c < |s.clients| ==> (Active(s.clients[c]) <==> s.owner == Some(c))
  }

  lemma LockStep(e: Secure, s: Sys, a: Action)
    requires LockOk(s) && Enabled(s, a)
    ensures LockOk(Next(e, s, a)) && |Next(e, s, a).clients| == |s.clients|
  {
    hide Serve;
  }

  // ---------------------------------------------------------------- runs without timeouts

  /** What the server is doing for the request of the waiting client. */
  predicate Serving(e: Secure, s: Sys, req: seq<byte>, k: nat) {
    && |req| <= MAILBOX_CAP && |s.payload| == MAILBOX_CAP
    && (match s.server
        case Poll =>
          if s.status == REQUEST then s.served == k && s.len == |req| && s.payload[..|req|] == req
          else s.status == RESPONSE && Answered(e, s, req, k)
        case Fetch(n, got) =>
          s.status == REQUEST && s.served == k + 1 && n == |req| && s.payload[..|req|] == req && got <= req
        case Put(resp, i) =>
          s.status == REQUEST && s.served == k + 1 && resp == Serve(e, k, req) && i <= |resp|
            && s.payload[..i] == resp[..i]
        case Finish(_) =>
          s.status == REQUEST && s.served == k + 1 && s.len == |Serve(e, k, req)|
            && s.payload[..s.len] == Serve(e, k, req))
  }

  /** The answer stands in the mailbox and the server is back at its poll. */
  predicate Answered(e: Secure, s: Sys, req: seq<byte>, k: nat) {
    && s.status == RESPONSE && s.server == Poll && s.served == k + 1 && |s.payload| == MAILBOX_CAP
    && s.len == |Serve(e, k, req)| && s.payload[..s.len] == Serve(e, k, req)
  }

  predicate Right(e: Secure, req: seq<byte>, k: nat, result: Ipc) {
    result == OK(Serve(e, k, req))
  }

  predicate Quiet(s: Sys) {
    s.status == IDLE && s.server == Poll
  }

  predicate OwnerOk(e: Secure, s: Sys, x: Client)
    requires |s.payload| == MAILBOX_CAP
  {
    match x
    case Write(req, i) => Quiet(s) && i <= |req| <= MAILBOX_CAP && s.payload[..i] == req[..i]
    case Bell(req, lenSet) => Quiet(s) && |req| <= MAILBOX_CAP && s.payload[..|req|] == req
      && (lenSet ==> s.len == |req|)
    case Wait(req, k) => Serving(e, s, req, k)
    case Copy(req, k, n, got) => |req| <= MAILBOX_CAP && Answered(e, s, req, k) && n == s.len && |got| <= n
      && got == s.payload[..|got|]
    case Leave(req, k, result) => |req| <= MAILBOX_CAP && s.status == RESPONSE && s.server == Poll
      && Right(e, req, k, result)
    case Unlock(req, k, result) => |req| <= MAILBOX_CAP && Quiet(s) && Right(e, req, k, result)
    case _ => true
  }

  /** A finished call: turned away, or answered. */
  predicate Finished(e: Secure, x: Client) {
    x.Done? ==>
      if |x.req| > MAILBOX_CAP then x.result == MALFORMED else x.result == BUSY || Right(e, x.req, x.k, x.result)
  }

  predicate Inv(e: Secure, s: Sys) {
    && LockOk(s)
    && (!s.late ==>
        && (s.owner == None ==> Quiet(s))
        && (s.owner.Some? ==> OwnerOk(e, s, s.clients[s.owner.value]))
        && forall c :: 0 <= c < |s.clients| ==> Finished(e, s.clients[c]))
  }

  lemma AdvanceInv(e: Secure, s: Sys, c: nat)
    requires Inv(e, s) && Enabled(s, ClientStep(c)) && !s.late
    ensures Inv(e, Advance(s, c))
  {
    hide Serve;
    LockStep(e, s, ClientStep(c));
    var t := Advance(s, c);
    assert s.owner == Some(c);
    match s.clients[c]
    case Write(req, i) =>
      if i < |req| {
        assert t.payload[..i + 1] == req[..i + 1];
      } else {
        assert req[..i] == req;
      }
    case Copy(req, k, n, got) =>
      if |got| < n {
        assert t.clients[c].got == t.payload[..|got| + 1];
      }
    case _ =>
  }

  lemma WorkInv(e: Secure, s: Sys)
    requires Inv(e, s) && Enabled(s, ServerStep) && !s.late
    ensures Inv(e, Work(e, s))
  {
    hide Serve;
    LockStep(e, s, ServerStep);
    var t := Work(e, s);
    assert s.owner.Some?;
    var x := s.clients[s.owner.value];
    assert x.Wait?;
    match s.server
    case Poll =>
    case Fetch(n, got) =>
      if |got| < n {
        assert s.payload[|got|] == s.payload[..n][|got|];
        assert got + [s.payload[|got|]] == x.req[..|got| + 1];
      } else {
        assert got == x.req;
        assert t.payload[..0] == [];
      }
    case Put(resp, i) =>
      if i < |resp| {
        assert t.payload[..i + 1] == resp[..i + 1];
      } else {
        assert resp[..i] == resp;
      }
    case Finish(_) =>
  }

  lemma StepInv(e: Secure, s: Sys, a: Action)
    requires Inv(e, s) && Enabled(s, a)
    ensures Inv(e, Next(e, s, a))
  {
    hide Serve, Serving, Answered, Advance, Work;
    LockStep(e, s, a);
    if !s.late {
      match a
      case ClientStep(c) => AdvanceInv(e, s, c);
      case ServerStep => WorkInv(e, s);
      case Call(c, req) => CallInv(e, s, c, req);
      case GiveUp(c) =>
    } else {
      LateStays(e, s, a);
    }
  }

  lemma LateStays(e: Secure, s: Sys, a: Action)
    requires Enabled(s, a) && s.late
    ensures Next(e, s, a).late
  {
    hide Serve;
  }

  lemma CallInv(e: Secure, s: Sys, c: nat, req: seq<byte>)
    requires Inv(e, s) && Enabled(s, Call(c, req)) && !s.late
    ensures Inv(e, CallSpec(s, c, req))
  {
    hide Serve;
    LockStep(e, s, Call(c, req));
    var t := CallSpec(s, c, req);
    if s.owner.Some? {
      var o := s.owner.value;
      assert o != c;
      assert t.clients[o] == s.clients[o];
      SameOwner(e, s, t, s.clients[o]);
    }
  }

  lemma SameOwner(e: Secure, s: Sys, t: Sys, x: Client)
    requires |s.payload| == MAILBOX_CAP && t == s.(clients := t.clients) && OwnerOk(e, s, x)
    ensures OwnerOk(e, t, x)
  {
    hide Serve;
  }

  lemma {:induction false} RunInv(e: Secure, states: seq<Sys>, acts: seq<Action>, k: nat)
    requires Trace(e, states, acts) && Boot(states[0]) && k <= |acts|
    ensures Inv(e, states[k])
  {
    if k == 0 {
      hide OwnerOk;
    } else {
      hide Inv, Next, Enabled;
      RunInv(e, states, acts, k - 1);
      assert states[k] == Next(e, states[k - 1], acts[k - 1]);
      StepInv(e, states[k - 1], acts[k - 1]);
    }
  }

  // ---------------------------------------------------------------- what the runs guarantee

  /** The server works on the payload only while the one client in a transaction waits, so the
      two cores never use it at once; this holds as long as no wait has timed out. */
  lemma PayloadHasOneUser(e: Secure, states: seq<Sys>, acts: seq<Action>, k: nat)
    requires Trace(e, states, acts) && Boot(states[0]) && k <= |acts| && !states[k].late
    ensures states[k].server != Poll ==>
      && states[k].owner.Some? && states[k].owner.value < |states[k].clients|
      && states[k].clients[states[k].owner.value].Wait? && states[k].status == REQUEST
      && forall c :: 0 <= c < |states[k].clients| && c != states[k].owner.value ==> !Active(states[k].clients[c])
  {
    hide Next, Enabled, Serve;
    RunInv(e, states, acts, k);
    var s := states[k];
    if s.server != Poll {
      assert s.owner.Some? && OwnerOk(e, s, s.clients[s.owner.value]);
      assert Active(s.clients[s.owner.value]);
    }
  }

  /** A timeout, in whatever state it comes, makes that possible: the task can be writing any
      next request while the server is at work on the abandoned one. */
  lemma OverlapAfterTimeout(e: Secure, s: Sys, c: nat, req: seq<byte>) returns (states: seq<Sys>, acts: seq<Action>)
    requires Inv(e, s) && !s.late && Enabled(s, GiveUp(c)) && |req| <= MAILBOX_CAP
    ensures Trace(e, states, acts) && states[0] == s
    ensures acts == (if s.server == Poll then [ServerStep] else [])
      + [GiveUp(c), ClientStep(c), ClientStep(c), Call(c, req)]
    ensures var t := states[|acts|]; c < |t.clients| && t.clients[c] == Write(req, 0) && t.server != Poll
  {
    hide Serve;
    assert s.owner == Some(c);
    if s.server == Poll {
      WorkInv(e, s);
      var s1 := Next(e, s, ServerStep);
      states, acts := Restart(e, s1, c, req);
      states, acts := [s] + states, [ServerStep] + acts;
    } else {
      states, acts := Restart(e, s, c, req);
    }
  }

  /** The task gives up, leaves and starts anew; the server is where it was. */
  lemma Restart(e: Secure, s: Sys, c: nat, req: seq<byte>) returns (states: seq<Sys>, acts: seq<Action>)
    requires LockOk(s) && Enabled(s, GiveUp(c)) && s.server != Poll && |req| <= MAILBOX_CAP
    ensures Trace(e, states, acts) && states[0] == s
    ensures acts == [GiveUp(c), ClientStep(c), ClientStep(c), Call(c, req)]
    ensures states[4].server == s.server && c < |states[4].clients| && states[4].clients[c] == Write(req, 0)
  {
    hide Serve;
    assert s.owner == Some(c);
    acts := [GiveUp(c), ClientStep(c), ClientStep(c), Call(c, req)];
    var s1 := Next(e, s, acts[0]);
    var s2 := Next(e, s1, acts[1]);
    var s3 := Next(e, s2, acts[2]);
    states := [s, s1, s2, s3, Next(e, s3, acts[3])];
  }

  /** Such a state is reached: a task rings the bell, the server takes the request up, the task
      gives up and starts anew. */
  lemma OverlapIsReachable(e: Secure, s: Sys, req: seq<byte>) returns (states: seq<Sys>, acts: seq<Action>)
    requires Boot(s) && |s.clients| > 0 && |req| <= MAILBOX_CAP
    ensures Trace(e, states, acts) && states[0] == s
    ensures var t := states[|acts|]; |t.clients| > 0 && t.clients[0] == Write(req, 0) && t.server.Fetch?
  {
    hide Serve;
    var step := ClientStep(0);
    acts := [Call(0, []), step, step, step, ServerStep, GiveUp(0), step, step, Call(0, req)];
    var s1 := Next(e, s, Call(0, []));
    var s2 := Next(e, s1, step);
    var s3 := Next(e, s2, step);
    var s4 := Next(e, s3, step);
    var s5 := Next(e, s4, ServerStep);
    var s6 := Next(e, s5, GiveUp(0));
    var s7 := Next(e, s6, step);
    var s8 := Next(e, s7, step);
    states := [s, s1, s2, s3, s4, s5, s6, s7, s8, Next(e, s8, Call(0, req))];
  }

  /** Whatever happens, timeouts included, the lock is held exactly by the one task that is
      inside a transaction: every way out of a transaction gives it back. */
  lemma LockFollowsTransactions(e: Secure, states: seq<Sys>, acts: seq<Action>, k: nat)
    requires Trace(e, states, acts) && Boot(states[0]) && k <= |acts|
    ensures LockOk(states[k])
  {
    hide Trace, LockOk, OwnerOk;
    RunInv(e, states, acts, k);
  }

  /** On every run in which no wait has timed out, a finished `crypto_mac` call that was not
      turned away as busy returns exactly what the secure core's CMAC answers for that key and
      message, for messages of up to 119 bytes, and fails for longer ones. */
  lemma MacIsTransparent(e: Secure, states: seq<Sys>, acts: seq<Action>, i: nat, c: nat, key: u32, msg: seq<byte>)
    requires Trace(e, states, acts) && Boot(states[0]) && i <= |acts| && !states[i].late
    requires c < |states[i].clients| && states[i].clients[c].Done?
    requires Request(key, msg) == Some(states[i].clients[c].req)
    ensures var x := states[i].clients[c];
      if x.result == BUSY then TagOf(x.result) == None
      else TagOf(x.result) == if |msg| <= 119 then Answer(e, x.k, key, msg) else None
  {
    hide Next, Enabled, Serve, Request, Answer, TagOf, OwnerOk, LockOk;
    RunInv(e, states, acts, i);
    RequestFits(key, msg);
    var x := states[i].clients[c];
    assert Finished(e, x);
    NoTagWithoutReply(x.result);
    if |msg| <= 119 {
      ReplyIsAnswer(e, x.k, key, msg);
    }
  }

  lemma NoTagWithoutReply(r: Ipc)
    ensures !r.OK? ==> TagOf(r) == None
  {
  }

  // ---------------------------------------------------------------- progress

  /** Steps the transaction in progress still needs. */
  function Rank(s: Sys): nat {
    if s.owner == None || s.owner.value >= |s.clients| then 0
    else match s.clients[s.owner.value]
      case Write(req, i) => 1000 + if i < |req| then |req| - i else 0
      case Bell(req, lenSet) => if lenSet then 998 else 999
      case Wait(req, k) => 140 +
        (if s.status == RESPONSE then 1 else
         match s.server
         case Poll => 700
         case Fetch(n, got) => 400 + (if |got| < n <= 200 then n - |got| else 0)
         case Put(resp, i) => 10 + if i < |resp| <= 200 then |resp| - i else 0
         case Finish(_) => 3)
      case Copy(req, k, n, got) => 10 + if |got| < n <= 128 then n - |got| else 0
      case Leave(_, _, _) => 2
      case Unlock(_, _, _) => 1
      case _ => 0
  }

  /** A transaction in progress is never stuck: its task or the server can take a step, and
      every such step brings its end closer; new calls do not push it away. */
  lemma AlwaysProgress(e: Secure, s: Sys)
    requires Inv(e, s) && !s.late && s.owner.Some?
    ensures Enabled(s, ClientStep(s.owner.value)) || Enabled(s, ServerStep)
    ensures Enabled(s, ClientStep(s.owner.value)) ==> Rank(Next(e, s, ClientStep(s.owner.value))) < Rank(s)
    ensures Enabled(s, ServerStep) ==> Rank(Next(e, s, ServerStep)) < Rank(s)
  {
    hide Serve;
  }

  lemma CallsDoNotDelay(e: Secure, s: Sys, c: nat, req: seq<byte>)
    requires Inv(e, s) && s.owner.Some? && Enabled(s, Call(c, req))
    ensures Rank(Next(e, s, Call(c, req))) == Rank(s)
  {
  }

  /** Steps other than new calls. */
  function Steps(acts: seq<Action>): nat {
    if acts == [] then 0 else Steps(acts[..|acts| - 1]) + if acts[|acts| - 1].Call? then 0 else 1
  }

  /** So a transaction that no one gives up on ends within its rank, at most 1128 steps. */
  lemma {:induction false} TransactionEnds(e: Secure, states: seq<Sys>, acts: seq<Action>, c: nat, k: nat)
    requires Trace(e, states, acts) && Inv(e, states[0]) && k <= |acts|
    requires forall j :: 0 <= j <= k ==> states[j].owner == Some(c) && !states[j].late
    ensures Inv(e, states[k]) && Steps(acts[..k]) + Rank(states[k]) <= Rank(states[0])
  {
    hide Inv, Next, Enabled, Rank;
    if k > 0 {
      TransactionEnds(e, states, acts, c, k - 1);
      assert states[k] == Next(e, states[k - 1], acts[k - 1]);
      assert acts[..k][..k - 1] == acts[..k - 1];
      StepInv(e, states[k - 1], acts[k - 1]);
      StepRanks(e, states[k - 1], acts[k - 1], c);
    } else {
      assert acts[..0] == [];
    }
  }

  lemma StepRanks(e: Secure, s: Sys, a: Action, c: nat)
    requires Inv(e, s) && Enabled(s, a) && s.owner == Some(c) && !s.late && !Next(e, s, a).late
    ensures Rank(Next(e, s, a)) + (if a.Call? then 0 else 1) <= Rank(s)
  {
    hide OwnerOk, Rank, Advance, Work, Serve;
    match a
    case Call(d, req) => CallsDoNotDelay(e, s, d, req);
    case ClientStep(d) =>
      assert d == c;
      AlwaysProgress(e, s);
    case ServerStep => AlwaysProgress(e, s);
    case GiveUp(d) =>
  }

  lemma RankBound(s: Sys)
    requires LockOk(s) && s.owner.Some? && s.clients[s.owner.value].Write?
      && |s.clients[s.owner.value].req| <= MAILBOX_CAP
    ensures Rank(s) <= 1128
  {
  }
}
