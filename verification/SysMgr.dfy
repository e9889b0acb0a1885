/** The resource manager: an author-ordered table of resources brought up one at a time,
    each after its dependencies, with bounded retries. */
module SysMgr {
  import opened Words

  const MAX_RESOURCES := 16

  datatype Policy = RETRY_INPLACE | SYSTEM_RESET | DEGRADE

  datatype RState = UNINIT | INITIALIZING | READY | DEGRADED | FAILED

  datatype Resource = Resource(id: byte, deps: seq<byte>, polled: bool, timeout: u32, maxRetries: byte,
                               onExhausted: Policy)

  /** `attempts` is eight bits wide. */
  datatype Rt = Rt(state: RState, attempts: byte, pollStarted: bool, started: u32)

  /** The clock of one tick, and what the callbacks answer if they are called in it. */
  datatype Env = Env(now: u32, initOk: bool, ready: bool)

  /** What a tick calls besides `poll_ready`. */
  datatype Call = Nothing | Init(i: nat) | Reset(i: nat) | InitThenReset(i: nat)

  const UNTOUCHED := Rt(UNINIT, 0, false, 0)

  predicate Terminal(s: RState) {
    s == READY || s == DEGRADED || s == FAILED
  }

  predicate Settled(rts: seq<Rt>) {
    forall i :: 0 <= i < |rts| ==> Terminal(rts[i].state)
  }

  /** The first entry from `i` on with this id, or `n`. */
  function FindFrom(table: seq<Resource>, n: nat, id: byte, i: nat): (k: nat)
    requires i <= n <= |table|
    ensures i <= k <= n && (k < n ==> table[k].id == id)
    ensures forall j :: i <= j < k ==> table[j].id != id
    decreases n - i
  {
    if i == n || table[i].id == id then i else FindFrom(table, n, id, i + 1)
  }

  function Find(table: seq<Resource>, n: nat, id: byte): nat
    requires n <= |table|
  {
    FindFrom(table, n, id, 0)
  }

  function FirstFrom(rts: seq<Rt>, i: nat): (k: nat)
    requires i <= |rts|
    ensures i <= k <= |rts| && (k < |rts| ==> !Terminal(rts[k].state))
    ensures forall j :: i <= j < k ==> Terminal(rts[j].state)
    decreases |rts| - i
  {
    if i < |rts| && Terminal(rts[i].state) then FirstFrom(rts, i + 1) else i
  }

  /** The current entry: the first that is not terminal. */
  function First(rts: seq<Rt>): (k: nat)
    ensures k <= |rts| && (k < |rts| ==> !Terminal(rts[k].state))
    ensures forall j :: 0 <= j < k ==> Terminal(rts[j].state)
  {
    FirstFrom(rts, 0)
  }

  predicate DepReady(table: seq<Resource>, rts: seq<Rt>, id: byte)
    requires |rts| <= |table|
  {
    var k := Find(table, |rts|, id);
    k < |rts| && rts[k].state == READY
  }

  predicate DepsReady(table: seq<Resource>, rts: seq<Rt>, i: nat)
    requires i < |rts| <= |table|
  {
    forall d :: 0 <= d < |table[i].deps| ==> DepReady(table, rts, table[i].deps[d])
  }

  predicate DepLost(table: seq<Resource>, rts: seq<Rt>, id: byte)
    requires |rts| <= |table|
  {
    var k := Find(table, |rts|, id);
    k < |rts| && Terminal(rts[k].state) && rts[k].state != READY
  }

  predicate AnyDepLost(table: seq<Resource>, rts: seq<Rt>, i: nat)
    requires i < |rts| <= |table|
  {
    exists d :: 0 <= d < |table[i].deps| && DepLost(table, rts, table[i].deps[d])
  }

  function Fail(r: Resource, t: Rt): Rt {
    if t.attempts as int < r.maxRetries as int + 1 then t.(state := INITIALIZING, pollStarted := false)
    else match r.onExhausted
      case RETRY_INPLACE => t.(attempts := 0, state := INITIALIZING, pollStarted := false)
      case SYSTEM_RESET => t.(state := FAILED)
      case DEGRADE => t.(state := DEGRADED)
  }

  function Attempt(r: Resource, t: Rt, e: Env): Rt {
    var u := t.(attempts := (t.attempts as int + 1) % 0x100, started := e.now);
    if !e.initOk then Fail(r, u)
    else if !r.polled then u.(state := READY)
    else u.(state := INITIALIZING, pollStarted := true)
  }

  predicate TimedOut(r: Resource, t: Rt, now: u32) {
    r.timeout != 0 && (now as int - t.started as int) % U32_MOD >= r.timeout
  }

  /** The current entry after one tick. */
  function Advance(table: seq<Resource>, rts: seq<Rt>, i: nat, e: Env): Rt
    requires i < |rts| <= |table|
  {
    var r, t := table[i], rts[i];
    if t.state == UNINIT then
      if DepsReady(table, rts, i) then Attempt(r, t, e)
      else if AnyDepLost(table, rts, i) then t.(state := DEGRADED)
      else t
    else if !t.pollStarted then Attempt(r, t, e)
    else if !r.polled || e.ready then t.(state := READY)
    else if TimedOut(r, t, e.now) then Fail(r, t)
    else t
  }

  predicate Attempts(table: seq<Resource>, rts: seq<Rt>, i: nat)
    requires i < |rts| <= |table|
  {
    if rts[i].state == UNINIT then DepsReady(table, rts, i) else !rts[i].pollStarted
  }

  function Calls(table: seq<Resource>, rts: seq<Rt>, i: nat, e: Env): Call
    requires i < |rts| <= |table|
  {
    var init, failed := Attempts(table, rts, i), Advance(table, rts, i, e).state == FAILED;
    if init && failed then InitThenReset(i) else if init then Init(i) else if failed then Reset(i) else Nothing
  }

  function Tick(table: seq<Resource>, rts: seq<Rt>, e: Env): (p: (seq<Rt>, Call))
    requires |rts| <= |table|
    ensures |p.0| == |rts|
  {
    var i := First(rts);
    if i == |rts| then (rts, Nothing) else (rts[i := Advance(table, rts, i, e)], Calls(table, rts, i, e))
  }

  function Boot(table: seq<Resource>): (rts: seq<Rt>)
    ensures |rts| <= |table| && |rts| <= MAX_RESOURCES
  {
    seq(if |table| <= MAX_RESOURCES then |table| else MAX_RESOURCES, i => UNTOUCHED)
  }

  /** A callback that was called, and its answer. */
  datatype Asked = AskInit(i: nat, ok: bool) | AskReady(i: nat, ready: bool) | AskReset

  /** The callbacks of one tick, in order, with the answers in `e`. */
  function Asks(table: seq<Resource>, rts: seq<Rt>, e: Env): seq<Asked>
    requires |rts| <= |table|
  {
    var i := First(rts);
    var polls := i < |rts| && rts[i].state != UNINIT && rts[i].pollStarted && table[i].polled;
    match Tick(table, rts, e).1
    case Init(k) => [AskInit(k, e.initOk)]
    case InitThenReset(k) => [AskInit(k, e.initOk), AskReset]
    case Reset(_) => [AskReady(i, e.ready), AskReset]
    case Nothing => if polls then [AskReady(i, e.ready)] else []
  }

  // ---------------------------------------------------------------- the C module

  /** The callbacks of the table and the reset function: any answer is possible. */
  class Callbacks {
    ghost var asked: seq<Asked>

    constructor ()
      ensures asked == []
    {
      asked := [];
    }

    method Init(i: nat) returns (ok: bool)
      modifies this
      ensures asked == old(asked) + [AskInit(i, ok)]
    {
      ok := *;
      asked := asked + [AskInit(i, ok)];
    }

    method PollReady(i: nat) returns (ready: bool)
      modifies this
      ensures asked == old(asked) + [AskReady(i, ready)]
    {
      ready := *;
      asked := asked + [AskReady(i, ready)];
    }

    method SystemReset()
      modifies this
      ensures asked == old(asked) + [AskReset]
    {
      asked := asked + [AskReset];
    }
  }

  class Manager {
    const table: seq<Resource>
    const count: nat
    const rt: array<Rt>
    const callbacks: Callbacks

    ghost predicate Valid() {
      rt.Length == MAX_RESOURCES && count <= MAX_RESOURCES && count <= |table|
    }

    ghost function Value(): seq<Rt>
      reads rt
      requires Valid()
    {
      rt[..count]
    }

    constructor (table: seq<Resource>, callbacks: Callbacks)
      ensures Valid() && this.table == table && this.callbacks == callbacks && Value() == Boot(table) && fresh(rt)
    {
      this.table, this.callbacks := table, callbacks;
      count := if |table| <= MAX_RESOURCES then |table| else MAX_RESOURCES;
      rt := new Rt[MAX_RESOURCES](i => UNTOUCHED);
    }

    method FindIndex(id: byte) returns (k: nat)
      requires Valid()
      ensures k == Find(table, count, id)
    {
      k := 0;
      while k < count
        invariant k <= count && FindFrom(table, count, id, k) == Find(table, count, id)
      {
        if table[k].id == id {
          return;
        }
        k := k + 1;
      }
    }

    method DepsSatisfied(i: nat) returns (ok: bool)
      requires Valid() && i < count
      ensures ok == DepsReady(table, Value(), i)
    {
      var deps := table[i].deps;
      for d := 0 to |deps|
        invariant forall j :: 0 <= j < d ==> DepReady(table, Value(), deps[j])
      {
        var k := FindIndex(deps[d]);
        if k >= count || rt[k].state != READY {
          assert !DepReady(table, Value(), deps[d]);
          return false;
        }
      }
      return true;
    }

    method AnyDepUnreadyTerminal(i: nat) returns (lost: bool)
      requires Valid() && i < count
      ensures lost == AnyDepLost(table, Value(), i)
    {
      var deps := table[i].deps;
      for d := 0 to |deps|
        invariant forall j :: 0 <= j < d ==> !DepLost(table, Value(), deps[j])
      {
        var k := FindIndex(deps[d]);
        if k < count && Terminal(rt[k].state) && rt[k].state != READY {
          assert DepLost(table, Value(), deps[d]);
          return true;
        }
      }
      return false;
    }

    method HandleFailure(i: nat) returns (reset: bool)
      requires Valid() && i < count
      modifies rt, callbacks
      ensures Value() == old(Value())[i := Fail(table[i], old(rt[i]))]
      ensures callbacks.asked == old(callbacks.asked) + if reset then [AskReset] else []
      ensures reset == (rt[i].state == FAILED && old(rt[i].attempts) as int > table[i].maxRetries as int)
    {
      var r := table[i];
      reset := false;
      if rt[i].attempts as int < r.maxRetries as int + 1 {
        rt[i] := rt[i].(state := INITIALIZING, pollStarted := false);
        return;
      }
      match r.onExhausted {
        case RETRY_INPLACE =>
          rt[i] := rt[i].(attempts := 0, state := INITIALIZING, pollStarted := false);
        case SYSTEM_RESET =>
          callbacks.SystemReset();
          reset := true;
          rt[i] := rt[i].(state := FAILED);
        case DEGRADE =>
          rt[i] := rt[i].(state := DEGRADED);
      }
    }

    method AttemptInit(i: nat, now: u32) returns (e: Env, reset: bool)
      requires Valid() && i < count && rt[i].state != FAILED
      modifies rt, callbacks
      ensures e.now == now && Value() == old(Value())[i := Attempt(table[i], old(rt[i]), e)]
      ensures callbacks.asked == old(callbacks.asked) + [AskInit(i, e.initOk)] + if reset then [AskReset] else []
      ensures reset == (rt[i].state == FAILED)
    {
      var r := table[i];
      rt[i] := rt[i].(attempts := (rt[i].attempts as int + 1) % 0x100, started := now);
      var ok := callbacks.Init(i);
      e := Env(now, ok, false);
      reset := false;
      if ok {
        if !r.polled {
          rt[i] := rt[i].(state := READY);
        } else {
          rt[i] := rt[i].(state := INITIALIZING, pollStarted := true);
        }
      } else {
        reset := HandleFailure(i);
      }
    }

    /** One tick; `e` is the clock and what the callbacks that were called answered. */
    method OnTick(now: u32) returns (e: Env)
      requires Valid()
      modifies rt, callbacks
      ensures e.now == now
      ensures Value() == Tick(table, old(Value()), e).0
      ensures callbacks.asked == old(callbacks.asked) + Asks(table, old(Value()), e)
    {
      hide DepsReady, AnyDepLost, Attempt, Fail;
      ghost var was := Value();
      e := Env(now, false, false);
      var i := 0;
      while i < count && Terminal(rt[i].state)
        invariant i <= count && FirstFrom(was, i) == First(was)
      {
        i := i + 1;
      }
      if i >= count {
        return;
      }
      assert First(was) == i && rt[i] == was[i];
      if rt[i].state == UNINIT {
        var ok := DepsSatisfied(i);
        if !ok {
          var lost := AnyDepUnreadyTerminal(i);
          if lost {
            rt[i] := rt[i].(state := DEGRADED);
          }
          return;
        }
      }
      if rt[i].state == UNINIT || !rt[i].pollStarted {
        var reset;
        e, reset := AttemptInit(i, now);
        return;
      }
      if !table[i].polled {
        rt[i] := rt[i].(state := READY);
        return;
      }
      var ready := callbacks.PollReady(i);
      e := Env(now, false, ready);
      if ready {
        rt[i] := rt[i].(state := READY);
        return;
      }
      if table[i].timeout != 0 && (now as int - rt[i].started as int) % U32_MOD >= table[i].timeout {
        var reset := HandleFailure(i);
        FailedOnlyWhenExhausted(table[i], was[i]);
      }
    }

    method IsSettled() returns (b: bool)
      requires Valid()
      ensures b == Settled(Value())
    {
      for i := 0 to count
        invariant forall j :: 0 <= j < i ==> Terminal(rt[j].state)
      {
        if !Terminal(rt[i].state) {
          assert !Terminal(Value()[i].state);
          return false;
        }
      }
      return true;
    }
  }

  lemma FailedOnlyWhenExhausted(r: Resource, t: Rt)
    requires t.state == INITIALIZING
    ensures Fail(r, t).state == FAILED ==> t.attempts > r.maxRetries
  {
  }
}
