/** Invariants of every run of the scheduler, delays, and round-robin fairness. */
module SchedTheorems {
  import opened Words
  import opened Bits
  import opened Sched

  datatype Op = Create(entry: bool, stack: bool, prio: nat) | Start | Yield | Delay(n: u32) | Tick

  function Next(s: Core, op: Op): (t: Core)
    requires Shape(s)
    ensures Shape(t)
  {
    match op
    case Create(entry, stack, prio) => CreateSpec(s, entry, stack, prio).1
    case Start => StartSpec(s)
    case Yield => YieldSpec(s)
    case Delay(n) => DelaySpec(s, n)
    case Tick => TickSpec(s).0
  }

  predicate Trace(states: seq<Core>, ops: seq<Op>) {
    |states| == |ops| + 1 && (forall i :: 0 <= i < |states| ==> Shape(states[i]))
    && forall i {:trigger ops[i]} :: 0 <= i < |ops| ==> states[i + 1] == Next(states[i], ops[i])
  }

  // ---------------------------------------------------------------- the invariant

  predicate HasReady(s: Core, p: Priority)
    requires Shape(s)
  {
    Candidates(s.tasks, s.count, p) != []
  }

  /** Bit p of the bitmap says whether a user task of priority p is READY or RUNNING. */
  predicate BitmapExact(s: Core)
    requires Shape(s)
  {
    forall p: Priority :: Bit(s.bitmap, p) <==> HasReady(s, p)
  }

  predicate SlotOk(s: Core, i: nat)
    requires Shape(s) && i <= IDLE_ID
  {
    var t := s.tasks[i];
    && (i < s.count ==> t.state != SUSPENDED)
    && (s.count <= i < IDLE_ID ==> t.state == SUSPENDED)
    && (i == IDLE_ID ==> t.prio == IDLE_PRIORITY && Runnable(t))
    && (t.state == BLOCKED ==> t.delay > 0)
  }

  predicate Base(s: Core) {
    && Shape(s) && BitmapExact(s)
    && (forall i :: 0 <= i <= IDLE_ID ==> SlotOk(s, i))
    && (forall p :: 0 <= p < MAX_PRIORITIES ==> s.rr[p] < MAX_TASKS)
    && (s.current < s.count || s.current == IDLE_ID || s.current == NO_TASK)
    && (forall i :: 0 <= i <= IDLE_ID && s.tasks[i].state == RUNNING ==> i == s.current)
  }

  /** Once started, exactly the current task is RUNNING. */
  predicate Inv(s: Core) {
    Shape(s) && Base(s) && (s.current != NO_TASK ==> s.tasks[s.current].state == RUNNING)
  }

  /** The running task is a most urgent one; the idle task runs only when nothing else can. */
  predicate Urgent(s: Core)
    requires Shape(s)
  {
    && s.current != NO_TASK
    && (forall i :: 0 <= i < s.count && Runnable(s.tasks[i]) ==>
          s.current < s.count && s.tasks[s.current].prio <= s.tasks[i].prio)
  }

  lemma {:induction false} CandidatesSame(a: seq<Tcb>, b: seq<Tcb>, n: nat, p: Priority)
    requires n <= |a| && n <= |b|
    requires forall i :: 0 <= i < n ==> a[i].prio == b[i].prio && (a[i].prio == p ==> Runnable(a[i]) == Runnable(b[i]))
    ensures Candidates(a, n, p) == Candidates(b, n, p)
  {
    if n > 0 {
      CandidatesSame(a, b, n - 1, p);
    }
  }

  /** Selection through the bitmap finds a most urgent runnable user task, or idle if there is none. */
  lemma ChooseMostUrgent(s: Core)
    requires Base(s)
    ensures var next := Choose(s);
      && (next < s.count ==> Runnable(s.tasks[next]))
      && forall i :: 0 <= i < s.count && Runnable(s.tasks[i]) ==>
        next < s.count && s.tasks[next].prio <= s.tasks[i].prio
  {
    hide Bit, Ctz;
    Pow2Of32();
    var next := Choose(s);
    if s.bitmap > 0 {
      CtzBelow(s.bitmap, 32);
      var p: Priority := Ctz(s.bitmap);
      CtzIsLowest(s.bitmap, 0);
      assert HasReady(s, p);
      assert next in Candidates(s.tasks, s.count, p);
    }
    forall i | 0 <= i < s.count && Runnable(s.tasks[i])
      ensures next < s.count && s.tasks[next].prio <= s.tasks[i].prio
    {
      var q := s.tasks[i].prio;
      assert i in Candidates(s.tasks, s.count, q);
      assert Bit(s.bitmap, q);
      if s.bitmap == 0 {
        NoBits(q);
      } else {
        CtzIsLowest(s.bitmap, q);
      }
    }
  }

  lemma DispatchInv(s: Core)
    requires Base(s)
    ensures Inv(Dispatch(s)) && Urgent(Dispatch(s))
    ensures forall p: Priority :: Candidates(Dispatch(s).tasks, s.count, p) == Candidates(s.tasks, s.count, p)
  {
    hide Bit, Choose, Candidates;
    ChooseMostUrgent(s);
    var t, next := Dispatch(s), Choose(s);
    assert SlotOk(s, IDLE_ID) && SlotOk(s, next);
    assert forall i :: 0 <= i <= IDLE_ID ==>
      t.tasks[i].prio == s.tasks[i].prio && Runnable(t.tasks[i]) == Runnable(s.tasks[i])
        && t.tasks[i].delay == s.tasks[i].delay
      && (Runnable(s.tasks[i]) || t.tasks[i] == s.tasks[i]);
    forall p: Priority
      ensures Candidates(t.tasks, s.count, p) == Candidates(s.tasks, s.count, p)
    {
      CandidatesSame(t.tasks, s.tasks, s.count, p);
    }
    assert forall p: Priority :: HasReady(t, p) == HasReady(s, p);
    forall i | 0 <= i <= IDLE_ID
      ensures SlotOk(t, i)
    {
      assert SlotOk(s, i);
    }
  }

  lemma RotateBase(s: Core, p: Priority)
    requires Base(s)
    ensures Base(Rotate(s, p))
  {
    hide Bit, Candidates;
    var t := Rotate(s, p);
    assert forall q: Priority :: HasReady(t, q) == HasReady(s, q);
    assert forall i :: 0 <= i <= IDLE_ID ==> SlotOk(s, i) ==> SlotOk(t, i);
  }

  lemma BlockBase(s: Core, n: u32)
    requires Inv(s) && n > 0 && s.current < s.count
    ensures Base(Block(s, n))
    ensures Block(s, n).tasks == s.tasks[s.current := s.tasks[s.current].(state := BLOCKED, delay := n)]
  {
    hide Bit, SetBit, ClearBit;
    var p := s.tasks[s.current].prio;
    var t := Block(s, n);
    forall q: Priority
      ensures Bit(t.bitmap, q) <==> HasReady(t, q)
    {
      BitOfSet(s.bitmap, p, q);
      BitOfClear(s.bitmap, p, q);
      assert Bit(s.bitmap, q) <==> HasReady(s, q);
      if q != p {
        OthersKept(s.tasks, t.tasks, s.count, s.current, q);
      }
    }
    forall i | 0 <= i <= IDLE_ID
      ensures SlotOk(t, i)
    {
      assert SlotOk(s, i);
    }
  }

  /** Changing one slot of another priority does not change the candidates. */
  lemma {:induction false} OthersKept(a: seq<Tcb>, b: seq<Tcb>, n: nat, i: nat, q: Priority)
    requires n <= |a| == |b| && i < |a| && a[i].prio != q && b == a[i := b[i]] && b[i].prio != q
    ensures Candidates(a, n, q) == Candidates(b, n, q)
  {
    if n > 0 {
      OthersKept(a, b, n - 1, i, q);
    }
  }

  lemma UnblockAtInv(s: Core, i: nat)
    requires Inv(s) && i < s.count
    ensures Inv(UnblockAt(s, i).0)
  {
    hide Bit, SetBit;
    var t := UnblockAt(s, i).0;
    var x := s.tasks[i];
    forall q: Priority
      ensures Bit(t.bitmap, q) <==> HasReady(t, q)
    {
      assert Bit(s.bitmap, q) <==> HasReady(s, q);
      BitOfSet(s.bitmap, x.prio, q);
      if q != x.prio {
        OthersKept(s.tasks, t.tasks, s.count, i, q);
      } else if Wakes(x) {
        assert i in Candidates(t.tasks, s.count, q);
      } else {
        CandidatesSame(s.tasks, t.tasks, s.count, q);
      }
    }
    forall j | 0 <= j <= IDLE_ID
      ensures SlotOk(t, j)
    {
      assert SlotOk(s, j);
    }
  }

  lemma {:induction false} UnblockInv(s: Core, n: nat)
    requires Inv(s) && n <= s.count
    ensures Inv(Unblock(s, n).0)
  {
    hide Base, UnblockAt;
    if n > 0 {
      UnblockInv(s, n - 1);
      UnblockAtInv(Unblock(s, n - 1).0, n - 1);
    }
  }

  lemma TickInv(s: Core)
    requires Inv(s)
    ensures Inv(TickSpec(s).0)
  {
    hide Bit, Candidates, Unblock;
    var u := s.(ticks := (s.ticks as int + 1) % U32_MOD);
    assert forall q: Priority :: HasReady(u, q) == HasReady(s, q);
    assert forall i :: 0 <= i <= IDLE_ID ==> SlotOk(s, i) ==> SlotOk(u, i);
    UnblockInv(u, u.count);
    var v := Unblock(u, u.count).0;
    if v.current != NO_TASK {
      RotateBase(v, v.tasks[v.current].prio);
    }
  }

  lemma CreateInv(s: Core, entry: bool, stack: bool, prio: nat)
    requires Inv(s)
    ensures Inv(CreateSpec(s, entry, stack, prio).1)
  {
    hide BitmapExact, SetBit;
    var (err, t) := CreateSpec(s, entry, stack, prio);
    if err == OK {
      CreateBitmap(s, t, prio);
      assert SlotOk(s, s.count);
      forall i | 0 <= i <= IDLE_ID
        ensures SlotOk(t, i)
      {
        assert SlotOk(s, i);
      }
    }
  }

  /** Creation succeeds exactly if all four checks pass, and reports the first that fails: entry,
      stack, priority, room. Success fills the next slot with a READY task and changes no other;
      a failure changes nothing. */
  lemma CreateReports(s: Core, entry: bool, stack: bool, prio: nat)
    requires Inv(s)
    ensures var (err, t) := CreateSpec(s, entry, stack, prio);
      && (err == NULL <==> !entry) && (err == STACK <==> entry && !stack)
      && (err == PRIORITY <==> entry && stack && prio > 31)
      && (err == FULL <==> entry && stack && prio <= 31 && s.count == 8)
      && (err != OK ==> t == s)
      && (err == OK ==>
            && t.count == s.count + 1 && t.current == s.current && t.rr == s.rr && t.ticks == s.ticks
            && t.tasks[s.count] == Tcb(prio, READY, 0) && Bit(t.bitmap, prio)
            && forall i :: 0 <= i < |s.tasks| && i != s.count ==> t.tasks[i] == s.tasks[i])
  {
    hide Base, SetBit, Bit, Candidates;
    CreateInv(s, entry, stack, prio);
    var (err, t) := CreateSpec(s, entry, stack, prio);
    if err == OK {
      NewTaskReady(t, s.count);
    }
  }

  lemma NewTaskReady(t: Core, i: nat)
    requires Inv(t) && i < t.count && t.tasks[i].state == READY
    ensures Bit(t.bitmap, t.tasks[i].prio)
  {
    hide Bit;
    assert i in Candidates(t.tasks, t.count, t.tasks[i].prio);
    assert HasReady(t, t.tasks[i].prio);
  }

  lemma CreateBitmap(s: Core, t: Core, prio: Priority)
    requires Shape(s) && BitmapExact(s) && s.count < MAX_TASKS
    requires t == s.(tasks := s.tasks[s.count := Tcb(prio, READY, 0)], bitmap := SetBit(s.bitmap, prio),
      count := s.count + 1)
    ensures BitmapExact(t)
  {
    hide Bit, SetBit;
    forall q: Priority
      ensures Bit(t.bitmap, q) <==> HasReady(t, q)
    {
      assert Bit(s.bitmap, q) <==> HasReady(s, q);
      BitOfSet(s.bitmap, prio, q);
      CandidatesSame(s.tasks, t.tasks, s.count, q);
    }
  }

  lemma InitInv()
    ensures Inv(InitSpec())
  {
    var s := InitSpec();
    forall q: Priority
      ensures Bit(s.bitmap, q) <==> HasReady(s, q)
    {
      NoBits(q);
    }
  }

  /** Each operation keeps the invariant; the voluntary ones leave a most urgent task running. */
  lemma StepInv(s: Core, op: Op)
    requires Inv(s)
    ensures Inv(Next(s, op))
    ensures op == Start || op == Yield || (op.Delay? && (op.n == 0 || s.current < s.count)) ==> Urgent(Next(s, op))
  {
    hide Dispatch, Base, CreateSpec, TickSpec, Block, Urgent, Rotate;
    match op
    case Create(entry, stack, prio) => CreateInv(s, entry, stack, prio);
    case Start => DispatchInv(s);
    case Yield => YieldInv(s);
    case Delay(n) =>
      if n == 0 {
        YieldInv(s);
      } else if s.current != NO_TASK && s.current != IDLE_ID {
        CurrentIsUser(s);
        BlockBase(s, n);
        DispatchInv(Block(s, n));
      } else {
        CurrentIsUser(s);
      }
    case Tick => TickInv(s);
  }

  lemma CurrentIsUser(s: Core)
    requires Inv(s)
    ensures s.current < s.count <==> s.current != NO_TASK && s.current != IDLE_ID
  {
  }

  lemma YieldInv(s: Core)
    requires Inv(s)
    ensures Inv(YieldSpec(s)) && Urgent(YieldSpec(s))
  {
    hide Dispatch, Base, Urgent, Rotate;
    if s.current != NO_TASK {
      var p := s.tasks[s.current].prio;
      RotateBase(s, p);
      DispatchInv(Rotate(s, p));
    } else {
      DispatchInv(s);
    }
  }

  /** On every run from initialisation: the bitmap is exact, and once some task is current
      exactly that task, idle included, is RUNNING. */
  lemma {:induction false} RunInv(states: seq<Core>, ops: seq<Op>, k: nat)
    requires Trace(states, ops) && Inv(states[0]) && k <= |ops|
    ensures Inv(states[k])
  {
    hide Inv, Next;
    if k > 0 {
      RunInv(states, ops, k - 1);
      assert states[k] == Next(states[k - 1], ops[k - 1]);
      StepInv(states[k - 1], ops[k - 1]);
    }
  }

  // ---------------------------------------------------------------- delays

  function Ticks(ops: seq<Op>): (n: nat)
    ensures n <= |ops|
  {
    if ops == [] then 0 else Ticks(ops[..|ops| - 1]) + if ops[|ops| - 1] == Tick then 1 else 0
  }

  /** A blocked task is touched by ticks only. */
  lemma BlockedStep(s: Core, op: Op, i: nat)
    requires Inv(s) && i < s.count && s.tasks[i].state == BLOCKED
    ensures Next(s, op).tasks[i] == if op == Tick then Tock(s.tasks[i]) else s.tasks[i]
    ensures Next(s, op).count >= s.count
  {
    hide BitmapExact, Candidates, SetBit, ClearBit, Choose;
    match op
    case Create(_, _, _) =>
    case Start => DispatchSpares(s, i);
    case Yield => YieldSpares(s, i);
    case Delay(n) =>
      if n == 0 {
        YieldSpares(s, i);
      } else if s.current != NO_TASK && s.current != IDLE_ID {
        BlockBase(s, n);
        DispatchSpares(Block(s, n), i);
      }
    case Tick =>
      var u := s.(ticks := (s.ticks as int + 1) % U32_MOD);
      UnblockTocks(u, u.count, i);
  }

  lemma DispatchSpares(s: Core, i: nat)
    requires Base(s) && i < s.count && s.tasks[i].state == BLOCKED
    ensures Dispatch(s).tasks[i] == s.tasks[i]
  {
    hide Base, Choose;
    SlotIdle(s);
    ChooseMostUrgent(s);
  }

  lemma SlotIdle(s: Core)
    requires Base(s)
    ensures Runnable(s.tasks[IDLE_ID]) && Shape(s)
  {
    assert SlotOk(s, IDLE_ID);
  }

  lemma YieldSpares(s: Core, i: nat)
    requires Inv(s) && i < s.count && s.tasks[i].state == BLOCKED
    ensures YieldSpec(s).tasks[i] == s.tasks[i]
  {
    hide Dispatch, BitmapExact;
    if s.current != NO_TASK {
      RotateBase(s, s.tasks[s.current].prio);
      DispatchSpares(Rotate(s, s.tasks[s.current].prio), i);
    } else {
      DispatchSpares(s, i);
    }
  }

  lemma {:induction false} UnblockTocks(s: Core, n: nat, i: nat)
    requires Shape(s) && i < s.count && n <= s.count
    ensures Unblock(s, n).0.tasks[i] == if i < n then Tock(s.tasks[i]) else s.tasks[i]
  {
    if n > 0 {
      UnblockTocks(s, n - 1, i);
    }
  }

  /** A blocked task with `n` ticks to go is still blocked while fewer ticks have passed and
      becomes READY with the n-th one, whatever else is called. */
  lemma {:induction false} WakesOnTime(states: seq<Core>, ops: seq<Op>, i: nat, n: u32, k: nat)
    requires Trace(states, ops) && Inv(states[0]) && k <= |ops|
    requires i < states[0].count && states[0].tasks[i].state == BLOCKED && states[0].tasks[i].delay == n > 0
    ensures Ticks(ops[..k]) < n ==>
      i < states[k].count && states[k].tasks[i] == states[0].tasks[i].(delay := n - Ticks(ops[..k]))
    ensures Ticks(ops[..k]) == n && k > 0 && ops[k - 1] == Tick ==>
      && i < states[k].count && states[k].tasks[i] == Tcb(states[0].tasks[i].prio, READY, 0)
      && Bit(states[k].bitmap, states[0].tasks[i].prio)
  {
    hide Next, Bit;
    if k > 0 {
      WakesOnTime(states, ops, i, n, k - 1);
      RunInv(states, ops, k - 1);
      RunInv(states, ops, k);
      assert states[k] == Next(states[k - 1], ops[k - 1]);
      assert ops[..k][..k - 1] == ops[..k - 1] && ops[..k][k - 1] == ops[k - 1];
      if Ticks(ops[..k - 1]) < n {
        BlockedStep(states[k - 1], ops[k - 1], i);
        if Ticks(ops[..k]) == n {
          assert i in Candidates(states[k].tasks, states[k].count, states[k].tasks[i].prio);
          assert HasReady(states[k], states[k].tasks[i].prio);
        }
      }
    } else {
      assert ops[..0] == [];
    }
  }

  /** `sched_delay(n)` called by a user task: it blocks for exactly `n` later ticks. */
  lemma DelayedExactly(states: seq<Core>, ops: seq<Op>, n: u32, rest: seq<Op>)
    requires Trace(states, ops) && Inv(states[0]) && ops == [Delay(n)] + rest && n > 0
    requires states[0].current < states[0].count
    ensures var i, last := states[0].current, states[|ops|];
      && i < last.count
      && (Ticks(rest) < n ==> last.tasks[i].state == BLOCKED)
      && (Ticks(rest) == n && rest != [] && rest[|rest| - 1] == Tick ==> last.tasks[i].state == READY)
  {
    hide Next, Base;
    var i, later := states[0].current, states[1..];
    assert ops[0] == Delay(n);
    DelayBlocks(states[0], n);
    StepInv(states[0], Delay(n));
    assert forall j {:trigger rest[j]} :: 0 <= j < |rest| ==>
      rest[j] == ops[j + 1] && later[j + 1] == Next(later[j], rest[j]);
    WakesOnTime(later, rest, i, n, |rest|);
    CountGrows(later, rest, |rest|);
    assert rest[..|rest|] == rest;
  }

  lemma {:induction false} CountGrows(states: seq<Core>, ops: seq<Op>, k: nat)
    requires Trace(states, ops) && k <= |ops|
    ensures states[k].count >= states[0].count
  {
    if k > 0 {
      hide Candidates, Choose, SetBit, ClearBit, Tock;
      CountGrows(states, ops, k - 1);
      assert states[k] == Next(states[k - 1], ops[k - 1]);
    }
  }

  lemma DelayBlocks(s: Core, n: u32)
    requires Inv(s) && s.current < s.count && n > 0
    ensures Next(s, Delay(n)).count == s.count
    ensures Next(s, Delay(n)).tasks[s.current] == s.tasks[s.current].(state := BLOCKED, delay := n)
  {
    hide Base, Choose, Block;
    CurrentIsUser(s);
    BlockBase(s, n);
    BlockCount(s, n);
    DispatchSpares(Block(s, n), s.current);
  }

  lemma BlockCount(s: Core, n: u32)
    requires Shape(s) && s.current < s.count
    ensures Block(s, n).count == s.count
  {
  }

  // ---------------------------------------------------------------- switch requests

  /** When a tick asks for no switch, a running user task is still a most urgent one; and if
      the idle task runs, only tasks of its own lowest priority have become ready. */
  lemma NoSwitchNeeded(s: Core)
    requires Inv(s) && Urgent(s) && !TickSpec(s).1
    ensures var u := TickSpec(s).0;
      if s.current < s.count then Urgent(u)
      else forall i :: 0 <= i < u.count && Runnable(u.tasks[i]) ==> u.tasks[i].prio == IDLE_PRIORITY
  {
    hide Candidates, SetBit, BitmapExact;
    var t := s.(ticks := (s.ticks as int + 1) % U32_MOD);
    QuietWakes(t, t.count);
    assert SlotOk(s, IDLE_ID);
  }

  lemma {:induction false} QuietWakes(s: Core, n: nat)
    requires Shape(s) && n <= s.count && s.current != NO_TASK && s.tasks[s.current].state == RUNNING && !Unblock(s, n).1
    ensures var u := Unblock(s, n).0;
      && u.tasks[s.current] == s.tasks[s.current]
      && forall i :: 0 <= i < n && Runnable(u.tasks[i]) ==>
        u.tasks[i].prio == s.tasks[i].prio && (Runnable(s.tasks[i]) || s.tasks[s.current].prio <= s.tasks[i].prio)
  {
    hide SetBit;
    if n > 0 {
      QuietWakes(s, n - 1);
    }
  }

  /** Some task that this tick wakes is more urgent than the current one. */
  predicate Preempts(s: Core)
    requires Shape(s) && s.current <= IDLE_ID
  {
    exists i :: 0 <= i < s.count && Wakes(s.tasks[i]) && s.tasks[i].prio < s.tasks[s.current].prio
  }

  lemma {:induction false} UnblockAsks(s: Core, n: nat)
    requires Shape(s) && n <= s.count && s.current <= IDLE_ID
    ensures Unblock(s, n).0.tasks[s.current].prio == s.tasks[s.current].prio
    ensures Unblock(s, n).1
      <==> exists i :: 0 <= i < n && Wakes(s.tasks[i]) && s.tasks[i].prio < s.tasks[s.current].prio
  {
    hide SetBit;
    if n > 0 {
      UnblockAsks(s, n - 1);
    }
  }

  lemma {:induction false} UnblockKeeps(s: Core, n: nat)
    requires Shape(s) && n <= s.count
    ensures Unblock(s, n).0.ticks == s.ticks
    ensures forall i :: 0 <= i < |s.tasks| ==>
      Unblock(s, n).0.tasks[i] == if i < n then Tock(s.tasks[i]) else s.tasks[i]
  {
    hide SetBit;
    if n > 0 {
      UnblockKeeps(s, n - 1);
    }
  }

  /** Another user task can run at the priority of the running one. */
  predicate Shares(s: Core)
    requires Shape(s) && s.current < s.count
  {
    exists i :: 0 <= i < s.count && i != s.current && Runnable(s.tasks[i]) && s.tasks[i].prio == s.tasks[s.current].prio
  }

  lemma SharesMeans(s: Core)
    requires Inv(s) && s.current < s.count
    ensures Shares(s) <==> |Candidates(s.tasks, s.count, s.tasks[s.current].prio)| > 1
  {
    hide Candidates, BitmapExact;
    var p := s.tasks[s.current].prio;
    var c := Candidates(s.tasks, s.count, p);
    CandidatesDistinct(s.tasks, s.count, p);
    assert s.current in c;
    if |c| > 1 {
      var other := if c[0] == s.current then c[1] else c[0];
      assert other in c && other != s.current;
    } else {
      forall i | 0 <= i < s.count && Runnable(s.tasks[i]) && s.tasks[i].prio == p
        ensures i == s.current
      {
        assert i in c;
        assert c[0] == s.current;
      }
    }
  }

  /** Time slicing: with a user task running, a tick asks for a switch exactly when it wakes a
      more urgent task or another task can then run at the same priority; in the latter case the
      turn of that priority moves on by one, and no other index moves. */
  lemma TickAsksExactly(s: Core)
    requires Inv(s) && s.current < s.count
    ensures var (u, asks) := TickSpec(s);
      var p := s.tasks[s.current].prio;
      && Inv(u) && u.current == s.current && u.count == s.count && u.ticks == (s.ticks as int + 1) % U32_MOD
      && (forall i :: 0 <= i < |s.tasks| ==> u.tasks[i] == if i < s.count then Tock(s.tasks[i]) else s.tasks[i])
      && (asks <==> Preempts(s) || Shares(u))
      && (forall q: Priority :: u.rr[q] == if q == p && Shares(u) then (s.rr[q] + 1) % MAX_TASKS else s.rr[q])
  {
    hide Unblock, Candidates, Base, Shares;
    TickInv(s);
    SlotCurrent(s);
    var v := s.(ticks := (s.ticks as int + 1) % U32_MOD);
    UnblockAsks(v, v.count);
    UnblockKeeps(v, v.count);
    var w := Unblock(v, v.count).0;
    var u := TickSpec(s).0;
    assert u.tasks == w.tasks;
    SharesMeans(u);
  }

  lemma SlotCurrent(s: Core)
    requires Inv(s) && s.current < s.count
    ensures s.tasks[s.current].state == RUNNING && s.current < IDLE_ID && forall q: Priority :: s.rr[q] < MAX_TASKS
  {
  }

  // ---------------------------------------------------------------- round robin

  function Yields(s: Core, m: nat): (t: Core)
    requires Shape(s)
    ensures Shape(t)
  {
    if m == 0 then s else YieldSpec(Yields(s, m - 1))
  }

  /** The round-robin index after `m` rotations from `r`. */
  function Index(r: nat, m: nat): (i: nat)
    ensures i < MAX_TASKS
  {
    (r + m) % MAX_TASKS
  }

  lemma IndexAdds(r: nat, m: nat)
    ensures r < MAX_TASKS ==> Index(r, 0) == r
    ensures m > 0 ==> Index(r, m) == Index(Index(r, m - 1), 1)
  {
  }

  /** One yield of a most urgent task: the turn goes to the candidate at the next index. */
  lemma YieldStep(s: Core, p: Priority)
    requires Inv(s) && Urgent(s) && s.current < s.count && p == s.tasks[s.current].prio
    ensures var t, c := YieldSpec(s), Candidates(s.tasks, s.count, p);
      && Inv(t) && Urgent(t) && t.count == s.count && t.current < t.count && t.tasks[t.current].prio == p
      && Candidates(t.tasks, t.count, p) == Candidates(s.tasks, s.count, p)
      && t.rr[p] == Index(s.rr[p], 1) && c != [] && t.current == Nth(c, t.rr[p])
  {
    hide Base, Choose, SetRunning, Nth;
    var u, c := Rotate(s, p), Candidates(s.tasks, s.count, p);
    RotateBase(s, p);
    DispatchInv(u);
    ChooseAt(u, p);
    assert Choose(u) in c && Candidates(u.tasks, u.count, p) == c;
    DispatchKeeps(u);
  }

  lemma DispatchKeeps(s: Core)
    requires Shape(s)
    ensures var t := Dispatch(s);
      && t.count == s.count && t.rr == s.rr && t.current == Choose(s)
      && t.tasks[t.current].prio == s.tasks[t.current].prio
  {
    hide Choose;
  }

  /** While only yields happen, the candidates stay and the index counts modulo 8. */
  lemma {:induction false} YieldCycle(s: Core, m: nat, p: Priority)
    requires Shape(s) && Inv(s) && Urgent(s) && s.current < s.count && p == s.tasks[s.current].prio
    ensures var t, c := Yields(s, m), Candidates(s.tasks, s.count, p);
      && Inv(t) && Urgent(t) && t.count == s.count && t.current < t.count && t.tasks[t.current].prio == p && c != []
      && Candidates(t.tasks, t.count, p) == Candidates(s.tasks, s.count, p)
      && t.rr[p] == Index(s.rr[p], m)
      && (m > 0 ==> t.current == Nth(c, t.rr[p]))
    decreases m
  {
    hide Inv, Candidates, Urgent, YieldSpec, Nth, Index;
    YieldStep(s, p);
    IndexAdds(s.rr[p], m);
    if m == 0 {
      CurrentRuns(s);
      assert s.rr[p] < MAX_TASKS;
    } else {
      YieldCycle(s, m - 1, p);
      var u := Yields(s, m - 1);
      YieldStep(u, p);
      assert Yields(s, m) == YieldSpec(u);
    }
  }

  lemma CurrentRuns(s: Core)
    requires Inv(s) && s.current < s.count
    ensures Runnable(s.tasks[s.current]) && forall q: Priority :: s.rr[q] < MAX_TASKS
  {
  }

  /** With the most urgent ready priority at `p`, the index of `p` selects the candidate. */
  lemma ChooseAt(s: Core, p: Priority)
    requires Base(s) && s.current < s.count && s.tasks[s.current].prio == p && s.tasks[s.current].state == RUNNING
      && Urgent(s)
    ensures var c := Candidates(s.tasks, s.count, p); c != [] && Choose(s) == Nth(c, s.rr[p])
  {
    hide Bit, Ctz;
    var c := Candidates(s.tasks, s.count, p);
    assert s.current in c;
    assert HasReady(s, p) && Bit(s.bitmap, p);
    Pow2Of32();
    if s.bitmap == 0 {
      NoBits(p);
    } else {
      CtzIsLowest(s.bitmap, p);
      CtzBelow(s.bitmap, 32);
      var q: Priority := Ctz(s.bitmap);
      assert HasReady(s, q);
      var i := Candidates(s.tasks, s.count, q)[0];
      assert i in Candidates(s.tasks, s.count, q);
    }
  }

  function Residue(x: int, k: nat): (r: nat)
    requires k > 0
    ensures r < k
  {
    x % k
  }

  function TurnAfter(r: nat, k: nat, j: nat): int
    requires k > 0
  {
    var d := Residue(j - r, k);
    var step := if d == 0 then k else d;
    if r + step < MAX_TASKS then step else MAX_TASKS + j - r
  }

  /** The index sequence modulo 8, reduced modulo k, reaches every residue in time. */
  lemma TurnOk(r: nat, k: nat, j: nat)
    requires r < MAX_TASKS && j < k <= MAX_TASKS
    ensures var m := TurnAfter(r, k, j);
      1 <= m <= k + Residue(MAX_TASKS, k) && Residue(Index(r, m), k) == j
  {
    hide Residue, Index;
    var d := Residue(j - r, k);
    var step := if d == 0 then k else d;
    TurnHits(r, k, j, step);
    if r + step >= MAX_TASKS {
      var a := Quotient(r + step, k);
      var q := Quotient(MAX_TASKS, k);
      TurnBound(r, k, j, r + step, a, q, Residue(MAX_TASKS, k));
      SmallResidue(j, k);
      IndexWraps(r, MAX_TASKS + j - r);
    } else {
      IndexWraps(r, step);
    }
  }

  lemma IndexWraps(r: nat, m: nat)
    requires r + m < 2 * MAX_TASKS
    ensures Index(r, m) == if r + m < MAX_TASKS then r + m else r + m - MAX_TASKS
  {
  }

  lemma Quotient(x: nat, k: nat) returns (q: nat)
    requires k > 0
    ensures x == k * q + Residue(x, k)
  {
    q := x / k;
  }

  lemma SmallResidue(j: nat, k: nat)
    requires j < k
    ensures Residue(j, k) == j
  {
    QuotientUnique(j, k, 0, j);
  }

  lemma TurnHits(r: nat, k: nat, j: nat, step: nat)
    requires j < k && (step == Residue(j - r, k) || (step == k && Residue(j - r, k) == 0))
    ensures Residue(r + step, k) == j
  {
    ModAdd(j - r, r, k);
    SmallResidue(j, k);
    if step == k {
      QuotientUnique(k, k, 1, 0);
      ModAdd(k, r, k);
    }
  }

  /** If the next turn lies past the wrap of the index, the turn after the wrap comes in time. */
  lemma TurnBound(r: nat, k: nat, j: nat, x: nat, a: nat, q: nat, w: nat)
    requires j < k && w < k && x == k * a + j && MAX_TASKS == k * q + w && MAX_TASKS <= x <= r + k
    ensures MAX_TASKS + j - r <= k + w
  {
    var d := q - a;
    assert k * d == k * q - k * a;
    MulGrows(k, d);
  }

  lemma InCandidates(s: Core, i: nat)
    requires Shape(s) && i < s.count && Runnable(s.tasks[i])
    ensures var c := Candidates(s.tasks, s.count, s.tasks[i].prio); i in c && 0 < |c| <= MAX_TASKS
  {
  }

  lemma TurnOf(c: seq<nat>, r: nat, i: nat) returns (m: nat)
    requires r < MAX_TASKS && i in c && |c| <= MAX_TASKS
    ensures 1 <= m <= |c| + Residue(MAX_TASKS, |c|) && Nth(c, Index(r, m)) == i
  {
    var j :| 0 <= j < |c| && c[j] == i;
    TurnOk(r, |c|, j);
    m := TurnAfter(r, |c|, j);
  }

  /** Round robin is fair: with k tasks ready at the top priority, yields alone select each of
      them at least once in every k + 8 mod k of them, from any point on. */
  lemma RoundRobin(s: Core, i: nat) returns (m: nat)
    requires Inv(s) && Urgent(s) && s.current < s.count
    requires i < s.count && Runnable(s.tasks[i]) && s.tasks[i].prio == s.tasks[s.current].prio
    ensures var k := |Candidates(s.tasks, s.count, s.tasks[i].prio)|;
      k > 0 && 1 <= m <= k + Residue(MAX_TASKS, k) && Yields(s, m).current == i
  {
    hide Base, Nth, Residue, Yields, Candidates, Index;
    var p := s.tasks[i].prio;
    InCandidates(s, i);
    var c := Candidates(s.tasks, s.count, p);
    CurrentRuns(s);
    m := TurnOf(c, s.rr[p], i);
    YieldCycle(s, m, p);
  }

  /** Candidates are listed once each. */
  lemma {:induction false} CandidatesDistinct(tasks: seq<Tcb>, n: nat, p: Priority)
    requires n <= |tasks|
    ensures forall i, j :: 0 <= i < j < |Candidates(tasks, n, p)| ==>
      Candidates(tasks, n, p)[i] != Candidates(tasks, n, p)[j]
  {
    if n > 0 {
      CandidatesDistinct(tasks, n - 1, p);
    }
  }

  /** From the index before the last full lap, the last candidate is passed over until the
      index has wrapped and counted up to it. */
  lemma LongestGap(k: nat, m: nat)
    requires 0 < k <= MAX_TASKS && 1 <= m <= k + Residue(MAX_TASKS, k)
    ensures var r := MAX_TASKS - 1 - Residue(MAX_TASKS, k);
      r >= 0 && Residue(r, k) == k - 1 && (Residue(Index(r, m), k) == k - 1 <==> m == k + Residue(MAX_TASKS, k))
  {
    hide Residue;
    var w := Residue(MAX_TASKS, k);
    var q := Quotient(MAX_TASKS, k);
    NonZero(k, q);
    LapEnd(k, q, w);
    if m <= w {
      AfterLap(k, q, m - 1);
      assert m - 1 < k - 1;
    } else {
      assert Index(MAX_TASKS - 1 - w, m) == m - w - 1;
      SmallResidue(m - w - 1, k);
    }
  }

  lemma NonZero(k: nat, q: nat)
    requires 0 < k <= MAX_TASKS && k * q + Residue(MAX_TASKS, k) == MAX_TASKS
    ensures q > 0
  {
    assert q == 0 ==> k * q == 0;
  }

  lemma LapEnd(k: nat, q: nat, w: nat)
    requires k > 0 && q > 0 && MAX_TASKS == k * q + w
    ensures MAX_TASKS - 1 - w >= 0 && Residue(MAX_TASKS - 1 - w, k) == k - 1
  {
    assert k * q - 1 == k * (q - 1) + (k - 1);
    assert k * (q - 1) >= 0;
    QuotientUnique(k * q - 1, k, q - 1, k - 1);
  }

  lemma AfterLap(k: nat, q: nat, x: nat)
    requires k > 0 && x < k
    ensures Residue(k * q + x, k) == x
  {
    QuotientUnique(k * q + x, k, q, x);
  }

  /** `t` yields on, with `n` of them the index stood before the last full lap. */
  lemma GapAt(s: Core, p: Priority, n: nat, t: nat)
    requires Shape(s) && Inv(s) && Urgent(s) && s.current < s.count && p == s.tasks[s.current].prio
    requires var c := Candidates(s.tasks, s.count, p);
      && 0 < |c| <= MAX_TASKS && n < t <= n + |c| + Residue(MAX_TASKS, |c|)
      && Index(s.rr[p], n) == MAX_TASKS - 1 - Residue(MAX_TASKS, |c|)
    ensures var c := Candidates(s.tasks, s.count, p);
      Yields(s, t).current == c[|c| - 1] <==> t == n + |c| + Residue(MAX_TASKS, |c|)
  {
    hide Inv, Urgent, Nth, Residue, Yields, Candidates, Index;
    var c := Candidates(s.tasks, s.count, p);
    YieldCycle(s, t, p);
    IndexTwice(s.rr[p], n, t - n);
    LongestGap(|c|, t - n);
    NthIs(c, Index(s.rr[p], t));
    CandidatesDistinct(s.tasks, s.count, p);
  }

  /** The bound is exact for every number of tasks: from any point on, after some yields the
      next selection of one of the k tasks takes k + 8 mod k yields and no fewer. */
  lemma RoundRobinSharp(s: Core) returns (n: nat, i: nat)
    requires Inv(s) && Urgent(s) && s.current < s.count
    ensures var k := |Candidates(s.tasks, s.count, s.tasks[s.current].prio)|;
      && k > 0 && n < MAX_TASKS && i < s.count && Runnable(s.tasks[i]) && s.tasks[i].prio == s.tasks[s.current].prio
      && Yields(s, n + k + Residue(MAX_TASKS, k)).current == i
      && forall t :: n < t < n + k + Residue(MAX_TASKS, k) ==> Yields(s, t).current != i
  {
    hide Base, Nth, Residue, Yields, Candidates, Index, Urgent;
    var p := s.tasks[s.current].prio;
    var c := Candidates(s.tasks, s.count, p);
    CurrentRuns(s);
    InCandidates(s, s.current);
    var k := |c|;
    LongestGap(k, 1);
    n := IndexReaches(s.rr[p], MAX_TASKS - 1 - Residue(MAX_TASKS, k));
    i := c[k - 1];
    assert i in c;
    CandidateIs(s, p, i);
    forall t | n < t <= n + k + Residue(MAX_TASKS, k)
      ensures Yields(s, t).current == i <==> t == n + k + Residue(MAX_TASKS, k)
    {
      GapAt(s, p, n, t);
    }
  }

  lemma CandidateIs(s: Core, p: Priority, i: nat)
    requires Shape(s) && i in Candidates(s.tasks, s.count, p)
    ensures i < s.count && Runnable(s.tasks[i]) && s.tasks[i].prio == p
  {
  }

  lemma NthIs(c: seq<nat>, index: nat)
    requires c != []
    ensures Nth(c, index) == c[Residue(index, |c|)]
  {
  }

  lemma IndexReaches(r: nat, target: nat) returns (n: nat)
    requires r < MAX_TASKS && target < MAX_TASKS
    ensures n < MAX_TASKS && Index(r, n) == target
  {
    n := (target + MAX_TASKS - r) % MAX_TASKS;
  }

  lemma IndexTwice(r: nat, n: nat, m: nat)
    ensures Index(r, n + m) == Index(Index(r, n), m)
  {
  }

  // ---------------------------------------------------------------- time slicing

  /** A tick and, when it asks for it, the switch. */
  function Slice(s: Core): (t: Core)
    requires Shape(s)
    ensures Shape(t)
  {
    var (u, asks) := TickSpec(s);
    if asks then Dispatch(u) else u
  }

  function Slices(s: Core, m: nat): (t: Core)
    requires Shape(s)
    ensures Shape(t)
  {
    if m == 0 then s else Slice(Slices(s, m - 1))
  }

  /** No task of priority `p` or above wakes within the next `m` ticks. */
  predicate Calm(s: Core, p: Priority, m: nat)
    requires Shape(s)
  {
    forall i :: 0 <= i < s.count && s.tasks[i].state == BLOCKED && s.tasks[i].prio <= p ==> s.tasks[i].delay as int > m
  }

  /** A tick with no such wake-up leaves the tasks that can run at `p`, and the running task
      most urgent. */
  lemma CalmTick(s: Core, p: Priority, m: nat)
    requires Inv(s) && Urgent(s) && s.current < s.count && p == s.tasks[s.current].prio && Calm(s, p, m + 1)
    ensures var u := TickSpec(s).0;
      && Urgent(u) && Calm(u, p, m) && u.count == s.count && u.current == s.current
      && Candidates(u.tasks, u.count, p) == Candidates(s.tasks, s.count, p)
  {
    hide Candidates, Base, TickSpec;
    TickAsksExactly(s);
    CandidatesSame(TickSpec(s).0.tasks, s.tasks, s.count, p);
  }

  lemma DispatchCalm(s: Core, p: Priority, m: nat)
    requires Base(s) && Calm(s, p, m)
    ensures Calm(Dispatch(s), p, m)
  {
    hide Base, Choose;
    SlotIdle(s);
    DispatchKeeps(s);
  }

  lemma SliceStep(s: Core, p: Priority, m: nat)
    requires Inv(s) && Urgent(s) && s.current < s.count && p == s.tasks[s.current].prio && Calm(s, p, m + 1)
    requires |Candidates(s.tasks, s.count, p)| > 1
    ensures var t, c := Slice(s), Candidates(s.tasks, s.count, p);
      && Inv(t) && Urgent(t) && t.count == s.count && t.current < t.count && t.tasks[t.current].prio == p
      && Candidates(t.tasks, t.count, p) == c && Calm(t, p, m)
      && t.rr[p] == Index(s.rr[p], 1) && t.current == Nth(c, t.rr[p])
  {
    hide Base, Choose, SetRunning, Nth, TickSpec, Candidates, Calm, Shares, Urgent, Preempts;
    TickAsksExactly(s);
    CalmTick(s, p, m);
    var u := TickSpec(s).0;
    SlotCurrent(s);
    TockKeepsRunning(s, u);
    SharesMeans(u);
    DispatchInv(u);
    ChooseAt(u, p);
    CandidateIs(u, p, Choose(u));
    DispatchKeeps(u);
    DispatchCalm(u, p, m);
  }

  lemma TockKeepsRunning(s: Core, u: Core)
    requires Inv(s) && Shape(u) && s.current < s.count && u.tasks[s.current] == Tock(s.tasks[s.current])
    ensures u.tasks[s.current] == s.tasks[s.current]
  {
  }

  lemma {:induction false} SliceCycle(s: Core, m: nat, n: nat, p: Priority)
    requires Shape(s) && Inv(s) && Urgent(s) && s.current < s.count && p == s.tasks[s.current].prio && Calm(s, p, m + n)
    requires |Candidates(s.tasks, s.count, p)| > 1
    ensures var t, c := Slices(s, m), Candidates(s.tasks, s.count, p);
      && Inv(t) && Urgent(t) && t.count == s.count && t.current < t.count && t.tasks[t.current].prio == p
      && Candidates(t.tasks, t.count, p) == c && Calm(t, p, n)
      && t.rr[p] == Index(s.rr[p], m)
      && (m > 0 ==> t.current == Nth(c, t.rr[p]))
    decreases m
  {
    hide Inv, Candidates, Urgent, Slice, Nth, Index, Calm;
    IndexAdds(s.rr[p], m);
    if m == 0 {
      CurrentRuns(s);
      assert s.rr[p] < MAX_TASKS;
    } else {
      SliceCycle(s, m - 1, n + 1, p);
      var u := Slices(s, m - 1);
      SliceStep(u, p, n);
      assert Slices(s, m) == Slice(u);
    }
  }

  /** Time slicing is fair to tasks that never yield: with k of them ready at the top priority,
      k at least 2, and no wake-up at that priority or above meanwhile, the ticks alone select
      each of them within k + 8 mod k of them, from any point on. */
  lemma TimeSlicing(s: Core, i: nat) returns (m: nat)
    requires Inv(s) && Urgent(s) && s.current < s.count
    requires i < s.count && Runnable(s.tasks[i]) && s.tasks[i].prio == s.tasks[s.current].prio
    requires var k := |Candidates(s.tasks, s.count, s.tasks[i].prio)|;
      k > 1 && Calm(s, s.tasks[i].prio, k + Residue(MAX_TASKS, k))
    ensures var k := |Candidates(s.tasks, s.count, s.tasks[i].prio)|;
      k > 1 && 1 <= m <= k + Residue(MAX_TASKS, k) && Slices(s, m).current == i
  {
    hide Base, Nth, Residue, Slices, Candidates, Index;
    var p := s.tasks[i].prio;
    InCandidates(s, i);
    var c := Candidates(s.tasks, s.count, p);
    CurrentRuns(s);
    m := TurnOf(c, s.rr[p], i);
    SliceCycle(s, m, |c| + Residue(MAX_TASKS, |c|) - m, p);
  }
}
