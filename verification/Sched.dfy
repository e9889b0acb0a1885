/** The scheduler core: task table, ready bitmap, selection, delays and the tick. */
module Sched {
  import opened Words
  import opened Bits

  const MAX_TASKS := 8
  const MAX_PRIORITIES := 32
  const IDLE_ID := 8
  const IDLE_PRIORITY := 31
  const NO_TASK := 255

  datatype TaskState = SUSPENDED | READY | RUNNING | BLOCKED

  type Priority = p: int | 0 <= p < 32

  datatype Tcb = Tcb(prio: Priority, state: TaskState, delay: u32)

  datatype Error = OK | FULL | NULL | PRIORITY | STACK

  /** The static variables: nine task slots (the last is the idle task), the user task
      count, the ready bitmap, the current task and the round-robin indices. */
  datatype Core = Core(tasks: seq<Tcb>, count: nat, ticks: u32, bitmap: u32, current: nat, rr: seq<nat>)

  predicate Shape(s: Core) {
    |s.tasks| == MAX_TASKS + 1 && |s.rr| == MAX_PRIORITIES && s.count <= MAX_TASKS
    && (s.current <= IDLE_ID || s.current == NO_TASK)
  }

  predicate Runnable(t: Tcb) {
    t.state == READY || t.state == RUNNING
  }

  /** User tasks below `n` that can run at priority `p`, in table order. */
  function Candidates(tasks: seq<Tcb>, n: nat, p: Priority): (c: seq<nat>)
    requires n <= |tasks|
    ensures |c| <= n
    ensures forall i :: i in c <==> 0 <= i < n && tasks[i].prio == p && Runnable(tasks[i])
  {
    if n == 0 then []
    else Candidates(tasks, n - 1, p) + if tasks[n - 1].prio == p && Runnable(tasks[n - 1]) then [n - 1] else []
  }

  function HighestReady(bitmap: u32): Option<nat> {
    if bitmap == 0 then None else Some(Ctz(bitmap))
  }

  /** The candidate whose turn it is. */
  function Nth(c: seq<nat>, index: nat): (id: nat)
    requires c != []
    ensures id in c
  {
    c[index % |c|]
  }

  function Choose(s: Core): (next: nat)
    requires Shape(s)
    ensures next < s.count || next == IDLE_ID
  {
    match HighestReady(s.bitmap)
    case None => IDLE_ID
    case Some(p) =>
      if p >= MAX_PRIORITIES then IDLE_ID
      else
        var c := Candidates(s.tasks, s.count, p);
        if c == [] then IDLE_ID else Nth(c, s.rr[p])
  }

  function SetRunning(s: Core, next: nat): (t: Core)
    requires Shape(s) && next <= IDLE_ID
    ensures Shape(t)
  {
    var demoted := if s.current != NO_TASK && s.tasks[s.current].state == RUNNING
                   then s.tasks[s.current := s.tasks[s.current].(state := READY)] else s.tasks;
    s.(tasks := demoted[next := demoted[next].(state := RUNNING)], current := next)
  }

  function Dispatch(s: Core): Core
    requires Shape(s)
  {
    SetRunning(s, Choose(s))
  }

  function Rotate(s: Core, p: Priority): (t: Core)
    requires Shape(s)
    ensures Shape(t)
  {
    s.(rr := s.rr[p := (s.rr[p] + 1) % MAX_TASKS])
  }

  function UpdateBitmap(s: Core, p: Priority): (t: Core)
    requires Shape(s)
    ensures Shape(t)
  {
    s.(bitmap := if Candidates(s.tasks, s.count, p) != [] then SetBit(s.bitmap, p) else ClearBit(s.bitmap, p))
  }

  function InitSpec(): (s: Core)
    ensures Shape(s)
  {
    Core(seq(MAX_TASKS + 1, i => if i == IDLE_ID then Tcb(IDLE_PRIORITY, READY, 0) else Tcb(0, SUSPENDED, 0)),
         0, 0, 0, NO_TASK, seq(MAX_PRIORITIES, i => 0))
  }

  function CreateSpec(s: Core, entry: bool, stack: bool, prio: nat): (p: (Error, Core))
    requires Shape(s)
    ensures Shape(p.1)
  {
    if !entry then (NULL, s)
    else if !stack then (STACK, s)
    else if prio >= MAX_PRIORITIES then (PRIORITY, s)
    else if s.count >= MAX_TASKS then (FULL, s)
    else (OK, s.(tasks := s.tasks[s.count := Tcb(prio, READY, 0)], bitmap := SetBit(s.bitmap, prio),
      count := s.count + 1))
  }

  function StartSpec(s: Core): (t: Core)
    requires Shape(s)
    ensures Shape(t)
  {
    Dispatch(s)
  }

  function YieldSpec(s: Core): (t: Core)
    requires Shape(s)
    ensures Shape(t)
  {
    Dispatch(if s.current != NO_TASK then Rotate(s, s.tasks[s.current].prio) else s)
  }

  function Block(s: Core, n: u32): (t: Core)
    requires Shape(s) && s.current <= IDLE_ID
    ensures Shape(t)
  {
    UpdateBitmap(s.(tasks := s.tasks[s.current := s.tasks[s.current].(state := BLOCKED, delay := n)]),
      s.tasks[s.current].prio)
  }

  function DelaySpec(s: Core, n: u32): (t: Core)
    requires Shape(s)
    ensures Shape(t)
  {
    if n == 0 then YieldSpec(s)
    else if s.current == NO_TASK || s.current == IDLE_ID then s
    else Dispatch(Block(s, n))
  }

  /** A task slot after one tick. */
  function Tock(t: Tcb): Tcb {
    if t.state == BLOCKED && t.delay > 0 then
      (if t.delay == 1 then Tcb(t.prio, READY, 0) else t.(delay := t.delay - 1))
    else t
  }

  predicate Wakes(t: Tcb) {
    t.state == BLOCKED && t.delay == 1
  }

  /** One round of the unblocking loop; the flag asks for a switch. */
  function UnblockAt(s: Core, i: nat): (p: (Core, bool))
    requires Shape(s) && i < s.count
    ensures Shape(p.0) && p.0.count == s.count && p.0.current == s.current && p.0.rr == s.rr
    ensures p.0.tasks == s.tasks[i := Tock(s.tasks[i])]
  {
    var t := s.tasks[i];
    var u := s.(tasks := s.tasks[i := Tock(t)]);
    if Wakes(t) then (u.(bitmap := SetBit(s.bitmap, t.prio)), s.current != NO_TASK && t.prio < s.tasks[s.current].prio)
    else (u, false)
  }

  function Unblock(s: Core, n: nat): (p: (Core, bool))
    requires Shape(s) && n <= s.count
    ensures Shape(p.0) && p.0.count == s.count && p.0.current == s.current && p.0.rr == s.rr
    ensures forall i :: n <= i < |s.tasks| ==> p.0.tasks[i] == s.tasks[i]
  {
    if n == 0 then (s, false)
    else
      var (u, need) := Unblock(s, n - 1);
      var (v, ask) := UnblockAt(u, n - 1);
      (v, need || ask)
  }

  function TickSpec(s: Core): (p: (Core, bool))
    requires Shape(s)
    ensures Shape(p.0)
  {
    var (u, need) := Unblock(s.(ticks := (s.ticks as int + 1) % U32_MOD), s.count);
    if u.current == NO_TASK then (u, need)
    else
      var p := u.tasks[u.current].prio;
      if |Candidates(u.tasks, u.count, p)| > 1 then (Rotate(u, p), true) else (u, need)
  }

  // ---------------------------------------------------------------- the C module

  class Scheduler {
    const tasks: array<Tcb>
    const rr: array<nat>
    var count: nat
    var ticks: u32
    var bitmap: u32
    var current: nat

    ghost predicate Valid()
      reads this, tasks, rr
    {
      tasks.Length == MAX_TASKS + 1 && rr.Length == MAX_PRIORITIES && Shape(Value())
    }

    ghost function Value(): Core
      reads this, tasks, rr
    {
      Core(tasks[..], count, ticks, bitmap, current, rr[..])
    }

    constructor ()
      ensures Valid() && Value() == InitSpec() && fresh(tasks) && fresh(rr)
    {
      tasks := new Tcb[MAX_TASKS + 1](i =>
        if i == IDLE_ID then Tcb(IDLE_PRIORITY, READY, 0) else Tcb(0, SUSPENDED, 0));
      rr := new nat[MAX_PRIORITIES](i => 0);
      count, ticks, bitmap, current := 0, 0, 0, NO_TASK;
      new;
      assert tasks[..] == InitSpec().tasks && rr[..] == InitSpec().rr;
    }

    method CountReadyAt(p: Priority) returns (n: nat)
      requires Valid()
      ensures n == |Candidates(tasks[..], count, p)|
    {
      n := 0;
      for i := 0 to count
        invariant n == |Candidates(tasks[..], i, p)|
      {
        if tasks[i].prio == p && (tasks[i].state == READY || tasks[i].state == RUNNING) {
          n := n + 1;
        }
      }
    }

    method PickAt(p: Priority) returns (id: nat)
      requires Valid()
      ensures var c := Candidates(tasks[..], count, p); id == if c == [] then NO_TASK else Nth(c, rr[p])
    {
      var c: seq<nat> := [];
      for i := 0 to count
        invariant c == Candidates(tasks[..], i, p)
      {
        if tasks[i].prio == p && (tasks[i].state == READY || tasks[i].state == RUNNING) {
          c := c + [i];
        }
      }
      id := if |c| == 0 then NO_TASK else c[rr[p] % |c|];
    }

    method ChooseNext() returns (next: nat)
      requires Valid()
      ensures next == Choose(Value())
    {
      hide Ctz;
      if bitmap == 0 {
        return IDLE_ID;
      }
      var p := Ctz(bitmap);
      Pow2Of32();
      CtzBelow(bitmap, 32);
      next := PickAt(p);
      if next == NO_TASK {
        next := IDLE_ID;
      }
    }

    method MakeRunning(next: nat)
      requires Valid() && next <= IDLE_ID
      modifies this, tasks
      ensures Valid() && Value() == SetRunning(old(Value()), next)
    {
      if current != NO_TASK {
        if tasks[current].state == RUNNING {
          tasks[current] := tasks[current].(state := READY);
        }
      }
      tasks[next] := tasks[next].(state := RUNNING);
      current := next;
    }

    method TaskCreate(entry: bool, stack: bool, prio: nat) returns (err: Error)
      requires Valid()
      modifies this, tasks
      ensures Valid() && (err, Value()) == CreateSpec(old(Value()), entry, stack, prio)
    {
      if !entry {
        return NULL;
      }
      if !stack {
        return STACK;
      }
      if prio >= MAX_PRIORITIES {
        return PRIORITY;
      }
      if count >= MAX_TASKS {
        return FULL;
      }
      tasks[count] := Tcb(prio, READY, 0);
      bitmap := SetBit(bitmap, prio);
      count := count + 1;
      return OK;
    }

    method Start()
      requires Valid()
      modifies this, tasks
      ensures Valid() && Value() == StartSpec(old(Value()))
    {
      hide SetRunning, Choose;
      var next := ChooseNext();
      MakeRunning(next);
    }

    method Yield()
      requires Valid()
      modifies this, tasks, rr
      ensures Valid() && Value() == YieldSpec(old(Value()))
    {
      hide SetRunning, Choose;
      if current != NO_TASK {
        var p := tasks[current].prio;
        rr[p] := (rr[p] + 1) % MAX_TASKS;
      }
      var next := ChooseNext();
      MakeRunning(next);
    }

    method Delay(n: u32)
      requires Valid()
      modifies this, tasks, rr
      ensures Valid() && Value() == DelaySpec(old(Value()), n)
    {
      hide SetRunning, Choose, SetBit, ClearBit, Candidates;
      if n == 0 {
        Yield();
        return;
      }
      if current != NO_TASK && current != IDLE_ID {
        var p := tasks[current].prio;
        tasks[current] := tasks[current].(state := BLOCKED, delay := n);
        var ready := CountReadyAt(p);
        if ready > 0 {
          bitmap := SetBit(bitmap, p);
        } else {
          bitmap := ClearBit(bitmap, p);
        }
        var next := ChooseNext();
        MakeRunning(next);
      }
    }

    method TickTask(i: nat) returns (ask: bool)
      requires Valid() && i < count
      modifies this, tasks
      ensures Valid() && (Value(), ask) == UnblockAt(old(Value()), i)
    {
      hide SetBit;
      ghost var was := Value();
      ask := false;
      if tasks[i].state == BLOCKED && tasks[i].delay > 0 {
        tasks[i] := tasks[i].(delay := tasks[i].delay - 1);
        if tasks[i].delay == 0 {
          tasks[i] := tasks[i].(state := READY);
          bitmap := SetBit(bitmap, tasks[i].prio);
          if current != NO_TASK {
            if tasks[i].prio < tasks[current].prio {
              ask := true;
            }
          }
        }
      }
      assert tasks[..] == was.tasks[i := Tock(was.tasks[i])];
    }

    /** `switch`: whether the port was asked for a context switch. */
    method Tick() returns (switch: bool)
      requires Valid()
      modifies this, tasks, rr
      ensures Valid() && (Value(), switch) == TickSpec(old(Value()))
    {
      hide SetBit, Candidates, UnblockAt;
      ticks := (ticks as int + 1) % U32_MOD;
      ghost var was := Value();
      switch := false;
      for i := 0 to count
        invariant Valid() && count == was.count && (Value(), switch) == Unblock(was, i)
      {
        var ask := TickTask(i);
        switch := switch || ask;
      }
      if current != NO_TASK {
        var p := tasks[current].prio;
        var ready := CountReadyAt(p);
        if ready > 1 {
          rr[p] := (rr[p] + 1) % MAX_TASKS;
          switch := true;
        }
      }
    }
  }
}
