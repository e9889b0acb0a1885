/** Whole bring-ups: order, stability, bounded retries and termination. */
module SysMgrTheorems {
  import opened Words
  import opened SysMgr

  /** A run from boot: the entries after each tick, what each tick saw and what it called. */
  predicate Trace(table: seq<Resource>, states: seq<seq<Rt>>, envs: seq<Env>, calls: seq<Call>) {
    && |states| == |envs| + 1 && |calls| == |envs| && states[0] == Boot(table)
    && (forall k :: 0 <= k < |states| ==> |states[k]| == |states[0]|)
    && forall k {:trigger envs[k]} :: 0 <= k < |envs| ==> Tick(table, states[k], envs[k]) == (states[k + 1], calls[k])
  }

  /** Bring-up starts with every entry of the table untouched, at most sixteen of them. */
  lemma BootsUntouched(table: seq<Resource>)
    ensures |Boot(table)| == if |table| <= 16 then |table| else 16
    ensures forall i :: 0 <= i < |Boot(table)| ==> Boot(table)[i] == Rt(UNINIT, 0, false, 0)
  {
  }

  // ---------------------------------------------------------------- order and stability

  lemma TerminalStep(table: seq<Resource>, rts: seq<Rt>, e: Env, i: nat)
    requires i < |rts| <= |table| && Terminal(rts[i].state)
    ensures Tick(table, rts, e).0[i] == rts[i]
  {
  }

  lemma DepsStep(table: seq<Resource>, rts: seq<Rt>, e: Env, i: nat)
    requires i < |rts| <= |table| && DepsReady(table, rts, i)
    ensures DepsReady(table, Tick(table, rts, e).0, i)
  {
    var next, deps := Tick(table, rts, e).0, table[i].deps;
    forall d | 0 <= d < |deps|
      ensures DepReady(table, next, deps[d])
    {
      assert DepReady(table, rts, deps[d]);
      TerminalStep(table, rts, e, Find(table, |rts|, deps[d]));
    }
  }

  /** Every entry that is being initialised has all its dependencies ready. */
  predicate Ordered(table: seq<Resource>, rts: seq<Rt>)
    requires |rts| <= |table|
  {
    forall i :: 0 <= i < |rts| && rts[i].state == INITIALIZING ==> DepsReady(table, rts, i)
  }

  lemma OrderedStep(table: seq<Resource>, rts: seq<Rt>, e: Env)
    requires |rts| <= |table| && Ordered(table, rts)
    ensures Ordered(table, Tick(table, rts, e).0)
  {
    hide DepsReady, AnyDepLost, Fail, Attempt, TimedOut;
    var next := Tick(table, rts, e).0;
    forall i | 0 <= i < |rts| && next[i].state == INITIALIZING
      ensures DepsReady(table, next, i)
    {
      if i == First(rts) {
        AdvanceNeedsDeps(table, rts, i, e);
      }
      DepsStep(table, rts, e, i);
    }
  }

  lemma AdvanceNeedsDeps(table: seq<Resource>, rts: seq<Rt>, i: nat, e: Env)
    requires i < |rts| <= |table| && !Terminal(rts[i].state) && Advance(table, rts, i, e).state == INITIALIZING
    ensures rts[i].state == INITIALIZING || DepsReady(table, rts, i)
  {
    hide DepsReady, AnyDepLost;
  }

  lemma {:induction false} OrderedRun(table: seq<Resource>, states: seq<seq<Rt>>, envs: seq<Env>, calls: seq<Call>,
                                      k: nat)
    requires Trace(table, states, envs, calls) && k <= |envs|
    ensures |states[k]| <= |table| && Ordered(table, states[k])
  {
    hide Tick, Ordered;
    if k == 0 {
      BootIsOrdered(table);
    } else {
      OrderedRun(table, states, envs, calls, k - 1);
      assert Tick(table, states[k - 1], envs[k - 1]) == (states[k], calls[k - 1]);
      OrderedStep(table, states[k - 1], envs[k - 1]);
    }
  }

  lemma BootIsOrdered(table: seq<Resource>)
    ensures Ordered(table, Boot(table))
  {
  }

  function Inits(c: Call): Option<nat> {
    match c
    case Init(i) => Some(i)
    case InitThenReset(i) => Some(i)
    case _ => None
  }

  /** On every run, `init()` is called, first time or retry, only with all dependencies READY. */
  lemma InitAfterDeps(table: seq<Resource>, states: seq<seq<Rt>>, envs: seq<Env>, calls: seq<Call>, k: nat)
    requires Trace(table, states, envs, calls) && k < |envs| && Inits(calls[k]).Some?
    ensures |states[k]| <= |table| && Inits(calls[k]).value < |states[k]|
    ensures DepsReady(table, states[k], Inits(calls[k]).value)
  {
    hide DepsReady, Advance;
    OrderedRun(table, states, envs, calls, k);
    assert Tick(table, states[k], envs[k]) == (states[k + 1], calls[k]);
    var i := First(states[k]);
    assert Inits(calls[k]) == Some(i) && Attempts(table, states[k], i);
  }

  /** READY, DEGRADED and FAILED entries never change again. */
  lemma {:induction false} TerminalForever(table: seq<Resource>, states: seq<seq<Rt>>, envs: seq<Env>, calls: seq<Call>,
                                           i: nat, k: nat, m: nat)
    requires Trace(table, states, envs, calls) && k <= m <= |envs| && i < |states[0]| && Terminal(states[k][i].state)
    ensures states[m][i] == states[k][i]
    decreases m - k
  {
    hide Tick, Terminal;
    if k < m {
      TerminalForever(table, states, envs, calls, i, k, m - 1);
      assert Tick(table, states[m - 1], envs[m - 1]) == (states[m], calls[m - 1]);
      TerminalStep(table, states[m - 1], envs[m - 1], i);
    }
  }

  predicate Resets(c: Call, i: nat) {
    c == Reset(i) || c == InitThenReset(i)
  }

  /** The reset callback is called at most once for each entry. */
  lemma ResetOnce(table: seq<Resource>, states: seq<seq<Rt>>, envs: seq<Env>, calls: seq<Call>, i: nat, k: nat, m: nat)
    requires Trace(table, states, envs, calls) && k < |envs| && m < |envs| && Resets(calls[k], i) && Resets(calls[m], i)
    ensures k == m
  {
    hide Advance;
    ResetFails(table, states, envs, calls, i, k);
    ResetFails(table, states, envs, calls, i, m);
    if k < m {
      TerminalForever(table, states, envs, calls, i, k + 1, m);
    } else if m < k {
      TerminalForever(table, states, envs, calls, i, m + 1, k);
    }
  }

  lemma ResetFails(table: seq<Resource>, states: seq<seq<Rt>>, envs: seq<Env>, calls: seq<Call>, i: nat, k: nat)
    requires Trace(table, states, envs, calls) && k < |envs| && Resets(calls[k], i)
    ensures i < |states[k]| && states[k + 1][i].state == FAILED && !Terminal(states[k][i].state)
  {
    hide Advance;
    assert Tick(table, states[k], envs[k]) == (states[k + 1], calls[k]);
  }

  // ---------------------------------------------------------------- the cascade

  lemma {:induction false} DepsForever(table: seq<Resource>, states: seq<seq<Rt>>, envs: seq<Env>, calls: seq<Call>,
                                       i: nat, k: nat, m: nat)
    requires Trace(table, states, envs, calls) && k <= m <= |envs| && i < |states[0]| <= |table|
      && DepsReady(table, states[k], i)
    ensures DepsReady(table, states[m], i)
    decreases m - k
  {
    hide Tick, DepsReady;
    if k < m {
      DepsForever(table, states, envs, calls, i, k, m - 1);
      assert Tick(table, states[m - 1], envs[m - 1]) == (states[m], calls[m - 1]);
      DepsStep(table, states[m - 1], envs[m - 1], i);
    }
  }

  /** A ready entry has all its dependencies ready, from then on for ever. */
  lemma {:induction false} ReadyMeansDepsReady(table: seq<Resource>, states: seq<seq<Rt>>, envs: seq<Env>,
                                               calls: seq<Call>,
                                               i: nat, k: nat, m: nat)
    requires Trace(table, states, envs, calls) && k <= m <= |envs| && i < |states[0]| <= |table|
      && states[k][i].state == READY
    ensures DepsReady(table, states[m], i)
    decreases k
  {
    hide Tick, DepsReady;
    if k == 0 {
      NothingReadyAtBoot(table);
    } else if states[k - 1][i].state == READY {
      ReadyMeansDepsReady(table, states, envs, calls, i, k - 1, m);
    } else {
      assert Tick(table, states[k - 1], envs[k - 1]) == (states[k], calls[k - 1]);
      OrderedRun(table, states, envs, calls, k - 1);
      BecameReady(table, states[k - 1], envs[k - 1], i);
      DepsForever(table, states, envs, calls, i, k - 1, m);
    }
  }

  lemma NothingReadyAtBoot(table: seq<Resource>)
    ensures forall i :: 0 <= i < |Boot(table)| ==> Boot(table)[i] == UNTOUCHED
  {
  }

  lemma BecameReady(table: seq<Resource>, rts: seq<Rt>, e: Env, i: nat)
    requires i < |rts| <= |table| && Ordered(table, rts) && rts[i].state != READY
      && Tick(table, rts, e).0[i].state == READY
    ensures DepsReady(table, rts, i)
  {
    hide DepsReady, AnyDepLost, Fail, TimedOut;
  }

  /** The cascade: an entry that is still waiting when one of its dependencies has ended without
      being ready is never initialised; it stays untouched until its turn comes and ends
      DEGRADED, with no attempt made. */
  lemma {:induction false} LostDepsDegrade(table: seq<Resource>, states: seq<seq<Rt>>, envs: seq<Env>, calls: seq<Call>,
                                           i: nat, k: nat, m: nat)
    requires Trace(table, states, envs, calls) && k <= m <= |envs| && i < |states[0]| <= |table|
    requires !Terminal(states[k][i].state) && AnyDepLost(table, states[k], i)
    ensures states[m][i] == UNTOUCHED || states[m][i] == UNTOUCHED.(state := DEGRADED)
    ensures AnyDepLost(table, states[m], i) && (m < |envs| ==> Inits(calls[m]) != Some(i) && !Resets(calls[m], i))
    decreases m - k
  {
    hide Tick, AnyDepLost, DepsReady;
    if k == m {
      OrderedRun(table, states, envs, calls, k);
      LostIsNotReady(table, states[k], i);
      WaitingIsUntouched(table, states, envs, calls, i, k);
    } else {
      LostDepsDegrade(table, states, envs, calls, i, k, m - 1);
      assert Tick(table, states[m - 1], envs[m - 1]) == (states[m], calls[m - 1]);
      LostStep(table, states[m - 1], envs[m - 1], i);
    }
    if m < |envs| {
      assert Tick(table, states[m], envs[m]) == (states[m + 1], calls[m]);
      LostStep(table, states[m], envs[m], i);
    }
  }

  lemma LostIsNotReady(table: seq<Resource>, rts: seq<Rt>, i: nat)
    requires i < |rts| <= |table| && AnyDepLost(table, rts, i)
    ensures !DepsReady(table, rts, i)
  {
    var d :| 0 <= d < |table[i].deps| && DepLost(table, rts, table[i].deps[d]);
    assert !DepReady(table, rts, table[i].deps[d]);
  }

  /** An entry no tick has advanced yet is as it was at boot. */
  lemma {:induction false} WaitingIsUntouched(table: seq<Resource>, states: seq<seq<Rt>>, envs: seq<Env>,
                                              calls: seq<Call>,
                                              i: nat, k: nat)
    requires Trace(table, states, envs, calls) && k <= |envs| && i < |states[0]| <= |table|
      && states[k][i].state == UNINIT
    ensures states[k][i] == UNTOUCHED
  {
    hide Tick;
    if k == 0 {
      NothingReadyAtBoot(table);
    } else {
      assert Tick(table, states[k - 1], envs[k - 1]) == (states[k], calls[k - 1]);
      StillWaiting(table, states[k - 1], envs[k - 1], i);
      WaitingIsUntouched(table, states, envs, calls, i, k - 1);
    }
  }

  lemma StillWaiting(table: seq<Resource>, rts: seq<Rt>, e: Env, i: nat)
    requires i < |rts| <= |table| && Tick(table, rts, e).0[i].state == UNINIT
    ensures rts[i] == Tick(table, rts, e).0[i]
  {
    hide DepsReady, AnyDepLost, TimedOut;
  }

  lemma LostStep(table: seq<Resource>, rts: seq<Rt>, e: Env, i: nat)
    requires i < |rts| <= |table| && AnyDepLost(table, rts, i)
    requires rts[i] == UNTOUCHED || rts[i] == UNTOUCHED.(state := DEGRADED)
    ensures var (next, c) := Tick(table, rts, e);
      && (next[i] == UNTOUCHED || next[i] == UNTOUCHED.(state := DEGRADED)) && AnyDepLost(table, next, i)
      && Inits(c) != Some(i) && !Resets(c, i)
  {
    hide DepsReady;
    LostIsNotReady(table, rts, i);
    var next := Tick(table, rts, e).0;
    var d :| 0 <= d < |table[i].deps| && DepLost(table, rts, table[i].deps[d]);
    TerminalStep(table, rts, e, Find(table, |rts|, table[i].deps[d]));
    assert DepLost(table, next, table[i].deps[d]);
  }

  // ---------------------------------------------------------------- retries

  /** Calls of `init()` for entry `i`. */
  function InitCount(calls: seq<Call>, i: nat): nat {
    if calls == [] then 0
    else InitCount(calls[..|calls| - 1], i) + if Inits(calls[|calls| - 1]) == Some(i) then 1 else 0
  }

  /** Retries run out: the policy has a terminal action and the 8-bit counter can exceed
      the limit. */
  predicate Bounded(r: Resource) {
    r.onExhausted != RETRY_INPLACE && r.maxRetries < 255
  }

  predicate CountOk(r: Resource, t: Rt) {
    t.attempts as int <= r.maxRetries as int + 1
    && (t.state == UNINIT ==> t.attempts == 0)
    && (t.state == INITIALIZING && !t.pollStarted ==> t.attempts <= r.maxRetries)
  }

  /** Each entry's `init()` is called as often as its counter says, at most maxRetries + 1 times. */
  lemma {:induction false} AttemptsBounded(table: seq<Resource>, states: seq<seq<Rt>>, envs: seq<Env>,
                                           calls: seq<Call>, i: nat, k: nat)
    requires Trace(table, states, envs, calls) && k <= |envs| && i < |states[0]| <= |table| && Bounded(table[i])
    ensures CountOk(table[i], states[k][i])
    ensures InitCount(calls[..k], i) == states[k][i].attempts <= table[i].maxRetries as int + 1
  {
    hide Tick, Bounded;
    if k > 0 {
      AttemptsBounded(table, states, envs, calls, i, k - 1);
      assert Tick(table, states[k - 1], envs[k - 1]) == (states[k], calls[k - 1]);
      assert calls[..k][..k - 1] == calls[..k - 1];
      CountStep(table, states[k - 1], envs[k - 1], i);
    }
  }

  lemma CountStep(table: seq<Resource>, rts: seq<Rt>, e: Env, i: nat)
    requires i < |rts| <= |table| && Bounded(table[i]) && CountOk(table[i], rts[i])
    ensures var (next, c) := Tick(table, rts, e);
      && CountOk(table[i], next[i])
      && next[i].attempts as int == rts[i].attempts as int + if Inits(c) == Some(i) then 1 else 0
  {
    hide DepsReady, AnyDepLost, TimedOut;
  }

  /** A tick gives entry `i` up: it ends without being ready although its dependencies are. */
  predicate GivesUp(table: seq<Resource>, rts: seq<Rt>, next: seq<Rt>, i: nat)
    requires i < |rts| == |next| && |rts| <= |table|
  {
    !Terminal(rts[i].state) && Terminal(next[i].state) && next[i].state != READY && DepsReady(table, rts, i)
  }

  // ---------------------------------------------------------------- what a failure leads to

  /** A tick that gives an entry up leaves what its policy names: DEGRADE degrades it and calls
      no reset, SYSTEM_RESET fails it and calls the reset, RETRY_INPLACE never gives up. */
  lemma GivenUpAs(table: seq<Resource>, states: seq<seq<Rt>>, envs: seq<Env>, calls: seq<Call>, i: nat, k: nat)
    requires Trace(table, states, envs, calls) && k < |envs| && i < |states[0]| <= |table|
    requires GivesUp(table, states[k], states[k + 1], i)
    ensures match table[i].onExhausted
      case DEGRADE => states[k + 1][i].state == DEGRADED && !Resets(calls[k], i)
      case SYSTEM_RESET => states[k + 1][i].state == FAILED && Resets(calls[k], i)
      case RETRY_INPLACE => false
  {
    hide DepsReady;
    assert Tick(table, states[k], envs[k]) == (states[k + 1], calls[k]);
  }

  /** An entry is given up only when `init()` has been called `maxRetries` + 1 times. */
  lemma GivenUpAfter(table: seq<Resource>, states: seq<seq<Rt>>, envs: seq<Env>, calls: seq<Call>, i: nat, k: nat)
    requires Trace(table, states, envs, calls) && k < |envs| && i < |states[0]| <= |table|
    requires GivesUp(table, states[k], states[k + 1], i)
    ensures InitCount(calls[..k + 1], i) == table[i].maxRetries as int + 1
  {
    hide DepsReady, InitCount, AnyDepLost;
    assert Tick(table, states[k], envs[k]) == (states[k + 1], calls[k]);
    if !Bounded(table[i]) {
      UnboundedNeverGivesUp(table, states[k], envs[k], i);
    }
    AttemptsBounded(table, states, envs, calls, i, k + 1);
  }

  /** What a call of `init()` leads to: a success makes an entry without a poll ready and starts
      the poll of one that has it; a failure is followed by another attempt unless the entry is
      given up. */
  lemma InitLeadsTo(table: seq<Resource>, states: seq<seq<Rt>>, envs: seq<Env>, calls: seq<Call>, i: nat, k: nat)
    requires Trace(table, states, envs, calls) && k < |envs| && i < |states[0]| <= |table| && Inits(calls[k]) == Some(i)
    ensures var t := states[k + 1][i];
      if envs[k].initOk then (if table[i].polled then t.state == INITIALIZING && t.pollStarted else t.state == READY)
      else (t.state == INITIALIZING && !t.pollStarted) || GivesUp(table, states[k], states[k + 1], i)
  {
    hide DepsReady;
    InitAfterDeps(table, states, envs, calls, k);
    assert Tick(table, states[k], envs[k]) == (states[k + 1], calls[k]);
  }

  /** Resets of entry `i`. */
  function ResetCount(calls: seq<Call>, i: nat): nat {
    if calls == [] then 0
    else ResetCount(calls[..|calls| - 1], i) + if Resets(calls[|calls| - 1], i) then 1 else 0
  }

  lemma ResetStep(table: seq<Resource>, rts: seq<Rt>, e: Env, i: nat)
    requires i < |rts| <= |table|
    ensures var (next, c) := Tick(table, rts, e);
      && (next[i].state == FAILED <==> rts[i].state == FAILED || Resets(c, i))
      && (Resets(c, i) ==> rts[i].state != FAILED && table[i].onExhausted == SYSTEM_RESET)
  {
    hide DepsReady, AnyDepLost, TimedOut;
  }

  /** On every run, an entry is FAILED exactly if the reset callback was called for it, once;
      and only SYSTEM_RESET leads there. */
  lemma {:induction false} FailedMeansReset(table: seq<Resource>, states: seq<seq<Rt>>, envs: seq<Env>,
                                            calls: seq<Call>, i: nat, k: nat)
    requires Trace(table, states, envs, calls) && k <= |envs| && i < |states[0]| <= |table|
    ensures ResetCount(calls[..k], i) == if states[k][i].state == FAILED then 1 else 0
    ensures states[k][i].state == FAILED ==> table[i].onExhausted == SYSTEM_RESET
  {
    hide Tick, Resets;
    if k == 0 {
      NothingReadyAtBoot(table);
    } else {
      FailedMeansReset(table, states, envs, calls, i, k - 1);
      assert Tick(table, states[k - 1], envs[k - 1]) == (states[k], calls[k - 1]);
      ResetStep(table, states[k - 1], envs[k - 1], i);
      assert calls[..k][..k - 1] == calls[..k - 1];
    }
  }

  /** The time of the last call of `init()` for entry `i`, if there was one. */
  function LastInit(envs: seq<Env>, calls: seq<Call>, i: nat): Option<u32>
    requires |envs| == |calls|
  {
    if calls == [] then None
    else if Inits(calls[|calls| - 1]) == Some(i) then Some(envs[|calls| - 1].now)
    else LastInit(envs[..|calls| - 1], calls[..|calls| - 1], i)
  }

  lemma StartedStep(table: seq<Resource>, rts: seq<Rt>, e: Env, i: nat)
    requires i < |rts| <= |table|
    ensures var (next, c) := Tick(table, rts, e);
      && next[i].started == (if Inits(c) == Some(i) then e.now else rts[i].started)
      && (next[i].pollStarted && Inits(c) != Some(i) ==> rts[i].pollStarted)
  {
    hide DepsReady, AnyDepLost, TimedOut;
  }

  lemma {:induction false} StartedAtInit(table: seq<Resource>, states: seq<seq<Rt>>, envs: seq<Env>, calls: seq<Call>,
                                         i: nat, k: nat)
    requires Trace(table, states, envs, calls) && k <= |envs| && i < |states[0]| <= |table|
    ensures states[k][i].pollStarted ==> LastInit(envs[..k], calls[..k], i) == Some(states[k][i].started)
  {
    hide Tick;
    if k == 0 {
      NothingReadyAtBoot(table);
    } else {
      StartedAtInit(table, states, envs, calls, i, k - 1);
      assert Tick(table, states[k - 1], envs[k - 1]) == (states[k], calls[k - 1]);
      StartedStep(table, states[k - 1], envs[k - 1], i);
      assert calls[..k][..k - 1] == calls[..k - 1] && envs[..k][..k - 1] == envs[..k - 1];
    }
  }

  /** On every run, what becomes of an entry whose `init()` succeeded and that is polled when its
      turn comes: ready if the poll says so; otherwise a failed attempt exactly if it has a
      timeout and that has passed since the last call of `init()`; otherwise it is polled again. */
  lemma PolledUntilTimeout(table: seq<Resource>, states: seq<seq<Rt>>, envs: seq<Env>, calls: seq<Call>, i: nat, k: nat)
    requires Trace(table, states, envs, calls) && k < |envs| && i < |states[0]| <= |table|
    requires i == First(states[k]) && states[k][i].state == INITIALIZING && states[k][i].pollStarted && table[i].polled
    ensures LastInit(envs[..k], calls[..k], i).Some?
    ensures var since := (envs[k].now as int - LastInit(envs[..k], calls[..k], i).value as int) % U32_MOD;
      var late := table[i].timeout != 0 && since >= table[i].timeout;
      && (states[k + 1][i].state == READY <==> envs[k].ready)
      && (states[k + 1][i] == states[k][i] <==> !envs[k].ready && !late)
  {
    hide DepsReady, AnyDepLost;
    StartedAtInit(table, states, envs, calls, i, k);
    assert Tick(table, states[k], envs[k]) == (states[k + 1], calls[k]);
  }

  /** Without a bound on the retries no tick does. */
  lemma UnboundedNeverGivesUp(table: seq<Resource>, rts: seq<Rt>, e: Env, i: nat)
    requires i < |rts| <= |table| && !Bounded(table[i])
    ensures !GivesUp(table, rts, Tick(table, rts, e).0, i)
  {
    hide DepsReady;
  }

  ghost predicate RunGivesUp(table: seq<Resource>, i: nat, states: seq<seq<Rt>>, envs: seq<Env>, calls: seq<Call>) {
    && Trace(table, states, envs, calls) && |envs| > 0 && i < |states[0]| <= |table|
    && GivesUp(table, states[|envs| - 1], states[|envs|], i)
  }

  predicate EarlierOnly(table: seq<Resource>, n: nat, i: nat)
    requires i < n <= |table|
  {
    forall d :: 0 <= d < |table[i].deps| ==> Find(table, n, table[i].deps[d]) < i
  }

  /** Each entry names only earlier ones, up to entry `i`. */
  predicate EarlierUpTo(table: seq<Resource>, i: nat)
    requires i < |Boot(table)|
  {
    forall j :: 0 <= j <= i ==> EarlierOnly(table, |Boot(table)|, j)
  }

  /** Some run gives an entry up if and only if its retries are bounded. */
  lemma ExhaustedIff(table: seq<Resource>, i: nat)
    requires i < |Boot(table)| && EarlierUpTo(table, i)
    ensures (exists states, envs, calls :: RunGivesUp(table, i, states, envs, calls)) <==> Bounded(table[i])
  {
    hide Tick, Bounded, GivesUp;
    if Bounded(table[i]) {
      var states, envs, calls := ReachGiveUp(table, i);
      assert RunGivesUp(table, i, states, envs, calls);
    } else {
      forall states, envs, calls | Trace(table, states, envs, calls) && |envs| > 0
        ensures !RunGivesUp(table, i, states, envs, calls)
      {
        var k := |envs| - 1;
        assert Tick(table, states[k], envs[k]) == (states[k + 1], calls[k]);
        if |states[0]| <= |table| && i < |states[0]| {
          UnboundedNeverGivesUp(table, states[k], envs[k], i);
        }
      }
    }
  }

  lemma OneMoreTick(table: seq<Resource>, states: seq<seq<Rt>>, envs: seq<Env>, calls: seq<Call>, e: Env)
    returns (states': seq<seq<Rt>>, envs': seq<Env>, calls': seq<Call>)
    requires Trace(table, states, envs, calls)
    ensures |states[|envs|]| <= |table|
    ensures Trace(table, states', envs', calls') && |envs'| == |envs| + 1
    ensures states'[..|envs| + 1] == states && states'[|envs'|] == Tick(table, states[|envs|], e).0
  {
    hide Tick;
    var (next, call) := Tick(table, states[|envs|], e);
    states', envs', calls' := states + [next], envs + [e], calls + [call];
    forall k {:trigger envs'[k]} | 0 <= k < |envs'|
      ensures Tick(table, states'[k], envs'[k]) == (states'[k + 1], calls'[k])
    {
      if k < |envs| {
        assert envs'[k] == envs[k] && states'[k] == states[k] && states'[k + 1] == states[k + 1]
          && calls'[k] == calls[k];
      }
    }
  }

  /** The first `j` entries are ready and the others untouched. */
  predicate ReadyUpTo(rts: seq<Rt>, j: nat) {
    && (forall i :: 0 <= i < j && i < |rts| ==> rts[i].state == READY)
    && (forall i :: j <= i < |rts| ==> rts[i] == UNTOUCHED)
  }

  /** With every callback succeeding, the entries become ready one after the other. */
  lemma {:induction false} ReachReady(table: seq<Resource>, j: nat)
    returns (states: seq<seq<Rt>>, envs: seq<Env>, calls: seq<Call>)
    requires j < |Boot(table)| && EarlierUpTo(table, j)
    ensures Trace(table, states, envs, calls) && |states[|envs|]| == |Boot(table)| && ReadyUpTo(states[|envs|], j)
  {
    if j == 0 {
      states, envs, calls := [Boot(table)], [], [];
    } else {
      hide Tick, Boot;
      states, envs, calls := ReachReady(table, j - 1);
      var rts := states[|envs|];
      BecomesReady(table, rts, j - 1);
      states, envs, calls := OneMoreTick(table, states, envs, calls, Env(0, true, true));
      if table[j - 1].polled {
        states, envs, calls := OneMoreTick(table, states, envs, calls, Env(0, true, true));
      }
    }
  }

  lemma DepsAreReady(table: seq<Resource>, rts: seq<Rt>, j: nat)
    requires j < |rts| <= |table| && EarlierOnly(table, |rts|, j) && forall i :: 0 <= i < j ==> rts[i].state == READY
    ensures DepsReady(table, rts, j)
  {
  }

  lemma FirstIs(rts: seq<Rt>, j: nat)
    requires j < |rts| && !Terminal(rts[j].state) && forall i :: 0 <= i < j ==> rts[i].state == READY
    ensures First(rts) == j
  {
  }

  lemma BecomesReady(table: seq<Resource>, rts: seq<Rt>, j: nat)
    requires j < |rts| <= |table| && EarlierOnly(table, |rts|, j) && ReadyUpTo(rts, j)
    ensures var e := Env(0, true, true);
      var one := Tick(table, rts, e).0;
      ReadyUpTo(if table[j].polled then Tick(table, one, e).0 else one, j + 1)
  {
    hide DepsReady;
    DepsAreReady(table, rts, j);
    FirstIs(rts, j);
    if table[j].polled {
      FirstIs(Tick(table, rts, Env(0, true, true)).0, j);
    }
  }

  /** Entry `j` after `a` failed attempts that left retries. */
  predicate Failing(rts: seq<Rt>, j: nat, a: nat) {
    && j < |rts| && (forall i :: 0 <= i < j ==> rts[i].state == READY)
    && (if a == 0 then rts[j] == UNTOUCHED
        else rts[j].state == INITIALIZING && !rts[j].pollStarted && rts[j].attempts as int == a)
  }

  lemma FailsAgain(table: seq<Resource>, rts: seq<Rt>, j: nat, a: nat)
    requires |rts| <= |table| && Failing(rts, j, a) && a <= table[j].maxRetries && Bounded(table[j])
    requires EarlierOnly(table, |rts|, j)
    ensures var next := Tick(table, rts, Env(0, false, false)).0;
      if a < table[j].maxRetries then Failing(next, j, a + 1) else GivesUp(table, rts, next, j)
  {
    hide DepsReady;
    DepsAreReady(table, rts, j);
    FirstIs(rts, j);
  }

  lemma ReachGiveUp(table: seq<Resource>, i: nat) returns (states: seq<seq<Rt>>, envs: seq<Env>, calls: seq<Call>)
    requires i < |Boot(table)| && EarlierUpTo(table, i) && Bounded(table[i])
    ensures RunGivesUp(table, i, states, envs, calls)
  {
    hide Tick, GivesUp, Boot;
    states, envs, calls := ReachReady(table, i);
    var a := 0;
    while a < table[i].maxRetries as int
      invariant a <= table[i].maxRetries as int
      invariant Trace(table, states, envs, calls) && |states[|envs|]| == |Boot(table)| && Failing(states[|envs|], i, a)
    {
      FailsAgain(table, states[|envs|], i, a);
      states, envs, calls := OneMoreTick(table, states, envs, calls, Env(0, false, false));
      a := a + 1;
    }
    FailsAgain(table, states[|envs|], i, a);
    states, envs, calls := OneMoreTick(table, states, envs, calls, Env(0, false, false));
  }

  // ---------------------------------------------------------------- termination

  /** Dependencies point to earlier entries, retries run out, and what is polled has a timeout. */
  predicate WellFormed(table: seq<Resource>, n: nat)
    requires n <= |table|
  {
    forall i :: 0 <= i < n ==>
      Bounded(table[i]) && (table[i].polled ==> table[i].timeout != 0) && EarlierOnly(table, n, i)
  }

  /** Ticks of one attempt. */
  function Span(r: Resource): (n: nat)
    ensures n > 0
  {
    r.timeout as int + 1
  }

  function Times(attempts: nat, span: nat): (n: nat)
    ensures attempts > 0 ==> n >= span
  {
    attempts * span
  }

  function Elapsed(t: Rt, now: u32): u32 {
    (now as int - t.started as int) % U32_MOD
  }

  /** Ticks an entry still needs at most. */
  function Weight(r: Resource, t: Rt, now: u32): nat {
    if Terminal(t.state) || t.attempts > r.maxRetries as int + 1 then 0
    else Times(r.maxRetries as int + 1 - t.attempts as int, Span(r))
         + if t.pollStarted && Elapsed(t, now) < r.timeout then r.timeout as int - Elapsed(t, now) as int else 0
  }

  function Sum(table: seq<Resource>, rts: seq<Rt>, now: u32, n: nat): nat
    requires n <= |rts| <= |table|
  {
    if n == 0 then 0 else Sum(table, rts, now, n - 1) + Weight(table[n - 1], rts[n - 1], now)
  }

  /** The bound of the whole table: (maxRetries + 1) * (timeout + 1), summed. */
  function Budget(table: seq<Resource>, n: nat): nat
    requires n <= |table|
  {
    if n == 0 then 0 else Budget(table, n - 1) + Times(table[n - 1].maxRetries as int + 1, Span(table[n - 1]))
  }

  predicate EntryOk(r: Resource, t: Rt, now: u32) {
    && CountOk(r, t)
    && (t.pollStarted ==> t.state != UNINIT)
    && (t.state == INITIALIZING && t.pollStarted ==> r.polled && Elapsed(t, now) < r.timeout)
  }

  predicate Shape(table: seq<Resource>, rts: seq<Rt>, now: u32)
    requires |rts| <= |table|
  {
    && (forall i :: 0 <= i < |rts| ==> EntryOk(table[i], rts[i], now))
    && (forall i :: First(rts) < i < |rts| ==> rts[i].state == UNINIT)
  }

  /** The clock advances by at least 1 ms, and by less than would let a timeout pass unseen
      when the 32-bit difference wraps. */
  predicate Paced(table: seq<Resource>, n: nat, last: u32, now: u32)
    requires n <= |table|
  {
    var d := (now as int - last as int) % U32_MOD;
    d >= 1 && forall i :: 0 <= i < n ==> d + table[i].timeout as int <= U32_MOD
  }

  lemma ElapsedAdds(t: Rt, last: u32, now: u32)
    ensures var d := (now as int - last as int) % U32_MOD;
      Elapsed(t, last) as int + d < U32_MOD ==> Elapsed(t, now) as int == Elapsed(t, last) as int + d
    ensures Elapsed(t.(started := now), now) == 0
  {
  }

  /** One tick brings the current entry closer to a terminal state. */
  lemma AdvanceCloser(table: seq<Resource>, rts: seq<Rt>, last: u32, e: Env)
    requires |rts| <= |table| && WellFormed(table, |rts|) && Shape(table, rts, last) && Paced(table, |rts|, last, e.now)
    requires First(rts) < |rts|
    ensures var i := First(rts); var t := Advance(table, rts, i, e);
      EntryOk(table[i], t, e.now) && t.state != UNINIT && Weight(table[i], t, e.now) < Weight(table[i], rts[i], last)
  {
    hide DepsReady, AnyDepLost, First, EarlierOnly;
    var i := First(rts);
    NotStuck(table, rts, i);
    EntryCloser(table[i], rts[i], last, e);
    ElapsedAdds(rts[i], last, e.now);
    WeightPositive(table[i], rts[i], last);
  }

  lemma WeightPositive(r: Resource, t: Rt, now: u32)
    requires !Terminal(t.state) && EntryOk(r, t, now)
    ensures Weight(r, t, now) > 0
  {
    hide Times;
  }

  /** An attempt uses one tick; a failed poll leaves the whole span of the next attempt. */
  lemma EntryCloser(r: Resource, t: Rt, last: u32, e: Env)
    requires Bounded(r) && (r.polled ==> r.timeout != 0) && EntryOk(r, t, last) && !Terminal(t.state)
    requires var d := (e.now as int - last as int) % U32_MOD; d >= 1 && d + r.timeout as int <= U32_MOD
    ensures !t.pollStarted ==>
      var u := Attempt(r, t, e); EntryOk(r, u, e.now) && u.state != UNINIT && Weight(r, u, e.now) < Weight(r, t, last)
    ensures t.pollStarted && TimedOut(r, t, e.now) ==>
      var u := Fail(r, t); EntryOk(r, u, e.now) && u.state != UNINIT && Weight(r, u, e.now) < Weight(r, t, last)
    ensures t.pollStarted && !TimedOut(r, t, e.now) ==>
      EntryOk(r, t, e.now) && Weight(r, t, e.now) < Weight(r, t, last)
  {
    hide Times;
    ElapsedAdds(t, last, e.now);
    if !t.pollStarted {
      AttemptCosts(r.maxRetries as int + 1 - t.attempts as int, Span(r));
    }
  }

  lemma AttemptCosts(left: nat, span: nat)
    requires left > 0
    ensures Times(left, span) == Times(left - 1, span) + span
  {
  }

  /** With earlier-only dependencies the current entry never waits. */
  lemma NotStuck(table: seq<Resource>, rts: seq<Rt>, i: nat)
    requires i < |rts| <= |table| && EarlierOnly(table, |rts|, i)
    requires forall j :: 0 <= j < i ==> Terminal(rts[j].state)
    ensures DepsReady(table, rts, i) || AnyDepLost(table, rts, i)
  {
    var deps := table[i].deps;
    if !AnyDepLost(table, rts, i) {
      forall d | 0 <= d < |deps|
        ensures DepReady(table, rts, deps[d])
      {
        assert !DepLost(table, rts, deps[d]);
      }
    }
  }

  lemma {:induction false} SumDiffers(table: seq<Resource>, a: seq<Rt>, x: u32, b: seq<Rt>, y: u32, i: nat, n: nat)
    requires |a| == |b| <= |table| && i < |a| && n <= |a|
    requires forall j :: 0 <= j < n && j != i ==> Weight(table[j], a[j], x) == Weight(table[j], b[j], y)
    ensures Sum(table, b, y, n) - Sum(table, a, x, n)
      == if i < n then Weight(table[i], b[i], y) - Weight(table[i], a[i], x) else 0
  {
    hide Weight;
    if n > 0 {
      SumDiffers(table, a, x, b, y, i, n - 1);
    }
  }

  lemma TickCloser(table: seq<Resource>, rts: seq<Rt>, last: u32, e: Env)
    requires |rts| <= |table| && WellFormed(table, |rts|) && Shape(table, rts, last) && Paced(table, |rts|, last, e.now)
    ensures var next := Tick(table, rts, e).0;
      && Shape(table, next, e.now)
      && (!Settled(rts) ==> Sum(table, next, e.now, |rts|) < Sum(table, rts, last, |rts|))
      && (Settled(rts) ==> Settled(next))
  {
    hide Advance, WellFormed, Paced;
    var i, next := First(rts), Tick(table, rts, e).0;
    if i < |rts| {
      AdvanceCloser(table, rts, last, e);
      FirstMoves(rts, i, next);
      SumDiffers(table, rts, last, next, e.now, i, |rts|);
    }
  }

  /** The first open entry stays where it is or moves on. */
  lemma FirstMoves(rts: seq<Rt>, i: nat, next: seq<Rt>)
    requires i == First(rts) < |rts| == |next| && forall j :: 0 <= j < |rts| && j != i ==> next[j] == rts[j]
    ensures First(next) >= i
  {
  }

  lemma {:induction false} BootSum(table: seq<Resource>, now: u32, n: nat)
    requires n <= |Boot(table)|
    ensures Sum(table, Boot(table), now, n) == Budget(table, n)
  {
    if n > 0 {
      BootSum(table, now, n - 1);
    }
  }

  lemma SettledIff(table: seq<Resource>, rts: seq<Rt>, now: u32)
    requires |rts| <= |table| && Shape(table, rts, now) && Sum(table, rts, now, |rts|) == 0
    ensures Settled(rts)
  {
    forall i | 0 <= i < |rts|
      ensures Terminal(rts[i].state)
    {
      SumHas(table, rts, now, |rts|, i);
      if !Terminal(rts[i].state) {
        WeightPositive(table[i], rts[i], now);
      }
    }
  }

  lemma {:induction false} SumHas(table: seq<Resource>, rts: seq<Rt>, now: u32, n: nat, i: nat)
    requires i < n <= |rts| <= |table|
    ensures Sum(table, rts, now, n) >= Weight(table[i], rts[i], now)
  {
    hide Weight;
    if i < n - 1 {
      SumHas(table, rts, now, n - 1, i);
    }
  }

  lemma {:induction false} Progress(table: seq<Resource>, states: seq<seq<Rt>>, envs: seq<Env>, calls: seq<Call>,
                                    last: u32, k: nat)
    requires Trace(table, states, envs, calls) && k <= |envs| && |states[0]| <= |table|
      && WellFormed(table, |states[0]|)
    requires forall j {:trigger envs[j]} :: 0 <= j < |envs| ==>
      Paced(table, |states[0]|, if j == 0 then last else envs[j - 1].now, envs[j].now)
    ensures var now, n := if k == 0 then last else envs[k - 1].now, |states[0]|;
      && |states[k]| == n && Shape(table, states[k], now)
      && (Settled(states[k]) || Sum(table, states[k], now, n) + k <= Budget(table, n))
  {
    hide Tick, WellFormed, Paced, Shape, Settled;
    if k == 0 {
      BootSum(table, last, |states[0]|);
      BootShape(table, last);
    } else {
      Progress(table, states, envs, calls, last, k - 1);
      assert Tick(table, states[k - 1], envs[k - 1]) == (states[k], calls[k - 1]);
      TickCloser(table, states[k - 1], if k == 1 then last else envs[k - 2].now, envs[k - 1]);
    }
  }

  lemma BootShape(table: seq<Resource>, now: u32)
    ensures Shape(table, Boot(table), now)
  {
  }

  /** Bring-up terminates: with a clock that advances at every tick, the table is settled
      after at most the sum of (maxRetries + 1) * (timeout + 1) ticks, and stays so. */
  lemma Settles(table: seq<Resource>, states: seq<seq<Rt>>, envs: seq<Env>, calls: seq<Call>, last: u32)
    requires Trace(table, states, envs, calls) && |states[0]| <= |table| && WellFormed(table, |states[0]|)
    requires forall j {:trigger envs[j]} :: 0 <= j < |envs| ==>
      Paced(table, |states[0]|, if j == 0 then last else envs[j - 1].now, envs[j].now)
    ensures forall k :: Budget(table, |states[0]|) <= k <= |envs| ==> Settled(states[k])
  {
    hide Tick, WellFormed, Paced, Shape, Settled;
    forall k | Budget(table, |states[0]|) <= k <= |envs|
      ensures Settled(states[k])
    {
      Progress(table, states, envs, calls, last, k);
      if !Settled(states[k]) {
        SettledIff(table, states[k], if k == 0 then last else envs[k - 1].now);
      }
    }
  }

  /** Entries after the current one have not been touched. */
  predicate Sequential(rts: seq<Rt>) {
    forall j :: First(rts) < j < |rts| ==> rts[j].state == UNINIT
  }

  lemma {:induction false} SequentialRun(table: seq<Resource>, states: seq<seq<Rt>>, envs: seq<Env>, calls: seq<Call>,
                                         k: nat)
    requires Trace(table, states, envs, calls) && k <= |envs|
    ensures |states[k]| <= |table| && Sequential(states[k])
  {
    hide Advance;
    if k > 0 {
      SequentialRun(table, states, envs, calls, k - 1);
      assert Tick(table, states[k - 1], envs[k - 1]) == (states[k], calls[k - 1]);
      var rts, i := states[k - 1], First(states[k - 1]);
      if i < |rts| {
        FirstMoves(rts, i, states[k]);
      }
    }
  }

  /** The current entry names an entry that is not there or not earlier, and nothing earlier
      that it names was lost. */
  predicate Waits(table: seq<Resource>, rts: seq<Rt>, i: nat, d: nat)
    requires |rts| <= |table|
  {
    && i == First(rts) < |rts| && rts[i].state == UNINIT && d < |table[i].deps|
    && Find(table, |rts|, table[i].deps[d]) >= i && !AnyDepLost(table, rts, i)
  }

  /** Such an entry waits for ever: no later tick of the run changes or calls anything. */
  lemma {:induction false} WaitsForever(table: seq<Resource>, states: seq<seq<Rt>>, envs: seq<Env>, calls: seq<Call>,
                                        i: nat, d: nat, k: nat, m: nat)
    requires Trace(table, states, envs, calls) && k <= m <= |envs|
    requires |states[k]| <= |table| && Waits(table, states[k], i, d)
    ensures states[m] == states[k] && (m < |envs| ==> calls[m] == Nothing)
    decreases m - k
  {
    hide Tick, Sequential, Waits;
    if k < m {
      WaitsForever(table, states, envs, calls, i, d, k, m - 1);
      SequentialRun(table, states, envs, calls, m - 1);
      assert Tick(table, states[m - 1], envs[m - 1]) == (states[m], calls[m - 1]);
      WaitsStep(table, states[k], envs[m - 1], i, d);
    }
    if m < |envs| {
      SequentialRun(table, states, envs, calls, m);
      assert Tick(table, states[m], envs[m]) == (states[m + 1], calls[m]);
      WaitsStep(table, states[k], envs[m], i, d);
    }
  }

  lemma WaitsStep(table: seq<Resource>, rts: seq<Rt>, e: Env, i: nat, d: nat)
    requires |rts| <= |table| && Waits(table, rts, i, d) && Sequential(rts)
    ensures Tick(table, rts, e) == (rts, Nothing)
  {
    assert !DepReady(table, rts, table[i].deps[d]);
    assert rts[i := rts[i]] == rts;
  }
}
