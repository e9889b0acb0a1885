/** Crash atomicity of the freshness store over whole runs of commits, power cuts and
    reboots on initially erased flash. */
module StoreRuns {
  import opened Words
  import opened WorkFlash
  import opened SecocStore

  datatype Op = Commit(d: nat, epoch: u16, f: Fault) | Reboot

  /** `held` is the record last acknowledged or last loaded by a mount, `acked` the result
      of the last operation if it was a commit. `st.ram` is meaningless to the code while
      the power is off. */
  datatype Run = Run(st: Store, on: bool, held: Option<Rec>, acked: bool)

  function Start(): Run {
    Run(Store([EMPTY_SLOT, EMPTY_SLOT], Ram(Factory, NO_SLOT, ZERO_REC), {}), false, None, false)
  }

  function Step(r: Run, op: Op): Run {
    match op
    case Reboot =>
      var st := MountStore(r.st.slots);
      Run(st, true, if st.ram.status == Ok then Some(st.ram.mirror) else r.held, false)
    case Commit(d, epoch, f) =>
      if !r.on || d >= 2 then r.(acked := false)
      else
        var (st, rc) := CommitSpec(r.st, d, epoch, f);
        if rc == Done then Run(st, true, Some(st.ram.mirror), true)
        else Run(st, rc != Cut, r.held, false)
  }

  /** The states of one run: each is the step of the one before. */
  ghost predicate Trace(rs: seq<Run>, ops: seq<Op>) {
    && |rs| == |ops| + 1
    && rs[0] == Start()
    && forall i {:trigger ops[i]} :: 0 <= i < |ops| ==> rs[i + 1] == Step(rs[i], ops[i])
  }

  // ---------------------------------------------------------------- the invariant of runs

  ghost predicate Good(r: Run, n: nat) {
    && Sound(r.st)
    && r.st.ram.mirror.no <= n
    && (r.st.ram.status == Ok <==> r.held.Some?)
    && (r.held.Some? ==> r.held == Some(r.st.ram.mirror))
  }

  lemma StepGood(r: Run, op: Op, n: nat)
    requires Good(r, n) && n + 1 < U32_MOD
    ensures Good(Step(r, op), n + 1)
    ensures r.held.Some? ==> Step(r, op).held.Some? && Step(r, op).held.value.no >= r.held.value.no
  {
    hide Sound, CommitSpec, Mount, NextRec;
    match op
    case Reboot =>
      MountSound(r.st);
      MirrorNumber(r.st);
    case Commit(d, epoch, f) =>
      if r.on && d < 2 {
        CommitSound(r.st, d, epoch, f);
        NextNumber(r.st.ram.mirror, d, epoch);
      }
  }

  /** A mount never finds an older record than the mirror, and at most the next one. */
  lemma MirrorNumber(st: Store)
    requires Sound(st) && st.ram.mirror.no + 1 < U32_MOD
    ensures var m := Mount(st.slots);
            if m.status == Ok then st.ram.mirror.no <= m.mirror.no <= st.ram.mirror.no + 1
            else m.mirror == ZERO_REC
  {
    hide ReadSlot, NextRec;
    forall t: Try, r | Attempt(st.ram.mirror, t, r)
      ensures r.no == st.ram.mirror.no + 1
    {
      NextNumber(st.ram.mirror, t.d, t.epoch);
    }
  }

  lemma {:induction false} TraceGood(rs: seq<Run>, ops: seq<Op>, i: nat)
    requires Trace(rs, ops) && i <= |ops| < U32_MOD
    ensures Good(rs[i], i)
    ensures i > 0 && rs[i - 1].held.Some? ==> rs[i].held.Some?
  {
    hide Step, Good;
    if i == 0 {
      StartGood();
    } else {
      TraceGood(rs, ops, i - 1);
      StepGood(rs[i - 1], ops[i - 1], i - 1);
    }
  }

  lemma StartGood()
    ensures Good(Start(), 0)
  {
    assert ReadSlot(EMPTY_SLOT) == Empty;
  }

  // ---------------------------------------------------------------- theorems

  /** Crash atomicity: once a record is held, whatever saves were attempted and wherever
      each was interrupted, a mount comes up OK with that record or a later attempt, never
      an older record, never cold, never BROKEN; and with exactly the held record when
      nothing was attempted since. */
  lemma CrashAtomic(rs: seq<Run>, ops: seq<Op>)
    requires Trace(rs, ops) && |ops| + 1 < U32_MOD && rs[|ops|].held.Some?
    ensures var r := rs[|ops|];
            var m := Mount(r.st.slots);
            && m.status == Ok
            && Successor(r.held.value, r.st.tries, m.mirror)
            && r.held.value.no <= m.mirror.no <= r.held.value.no + 1
            && (r.st.tries == {} ==> m.mirror == r.held.value)
  {
    hide Trace, Mount, Sound, NextRec;
    assert |rs| == |ops| + 1 by { TraceLength(rs, ops); }
    var r := rs[|ops|];
    TraceGood(rs, ops, |ops|);
    MountSound(r.st);
    MirrorNumber(r.st);
  }

  lemma TraceLength(rs: seq<Run>, ops: seq<Op>)
    requires Trace(rs, ops)
    ensures |rs| == |ops| + 1
  {
  }

  /** Once some record is held, every later state holds one, and never an older one: through
      any number of failed and cut commits, power cuts and reboots. */
  lemma {:induction false} HeldForever(rs: seq<Run>, ops: seq<Op>, i: nat, j: nat)
    requires Trace(rs, ops) && i <= j <= |ops| && |ops| + 1 < U32_MOD && rs[i].held.Some?
    ensures rs[j].held.Some? && rs[j].held.value.no >= rs[i].held.value.no
    decreases j
  {
    hide Step;
    if i < j {
      HeldForever(rs, ops, i, j - 1);
      TraceGood(rs, ops, j - 1);
      StepGood(rs[j - 1], ops[j - 1], j - 1);
    }
  }

  /** Operation `k` of the run is a commit that a running node carried out or attempted. */
  predicate Commits(rs: seq<Run>, ops: seq<Op>, k: nat)
    requires k < |ops| < |rs|
  {
    ops[k].Commit? && rs[k].on && ops[k].d < 2
  }

  /** `r` is the record that operation `k` saved or tried to save. */
  predicate SavedBy(rs: seq<Run>, ops: seq<Op>, k: nat, r: Rec)
    requires k < |ops| < |rs|
  {
    Commits(rs, ops, k) && r == NextRec(rs[k].st.ram.mirror, ops[k].d, ops[k].epoch)
  }

  /** Every pending attempt is one of the commits since `i`, made on the present mirror. */
  ghost predicate TriesFrom(rs: seq<Run>, ops: seq<Op>, i: nat, j: nat)
    requires j <= |ops| < |rs|
  {
    forall t :: t in rs[j].st.tries ==>
      exists k {:trigger ops[k]} :: i <= k < j && Commits(rs, ops, k) && ops[k].d == t.d && ops[k].epoch == t.epoch
        && rs[k].st.ram.mirror == rs[j].st.ram.mirror
  }

  lemma {:induction false} TriesFromRun(rs: seq<Run>, ops: seq<Op>, i: nat, j: nat)
    requires Trace(rs, ops) && i <= j <= |ops| && |ops| + 1 < U32_MOD && rs[i].st.tries == {}
    ensures TriesFrom(rs, ops, i, j)
    decreases j
  {
    hide Mount, CommitSpec, NextRec, Start;
    if i < j {
      TriesFromRun(rs, ops, i, j - 1);
      TraceGood(rs, ops, j - 1);
      var r, op := rs[j - 1], ops[j - 1];
      assert rs[j] == Step(r, op);
      if op.Commit? && r.on && op.d < 2 {
        CommitSound(r.st, op.d, op.epoch, op.f);
      }
      forall t | t in rs[j].st.tries
        ensures exists k {:trigger ops[k]} ::
          && i <= k < j && Commits(rs, ops, k) && ops[k].d == t.d && ops[k].epoch == t.epoch
          && rs[k].st.ram.mirror == rs[j].st.ram.mirror
      {
        if t in r.st.tries {
          var k :| i <= k < j - 1 && Commits(rs, ops, k) && ops[k].d == t.d && ops[k].epoch == t.epoch
                   && rs[k].st.ram.mirror == r.st.ram.mirror;
          assert ops[k].d == t.d;
        } else {
          assert ops[j - 1].d == t.d;
        }
      }
    }
  }

  /** The record held now is the one held at `i`, or was saved by a commit since. */
  ghost predicate HeldFrom(rs: seq<Run>, ops: seq<Op>, i: nat, j: nat, r: Rec)
    requires i <= j <= |ops| < |rs|
  {
    rs[i].held == Some(r) || exists k :: i <= k < j && SavedBy(rs, ops, k, r)
  }

  /** Nothing a mount finds comes from anywhere else. */
  lemma MountedFrom(rs: seq<Run>, ops: seq<Op>, i: nat, j: nat)
    requires Trace(rs, ops) && i <= j <= |ops| && |ops| + 1 < U32_MOD && rs[i].st.tries == {}
    requires rs[j].held.Some? && HeldFrom(rs, ops, i, j, rs[j].held.value)
    ensures Mount(rs[j].st.slots).status == Ok && HeldFrom(rs, ops, i, j, Mount(rs[j].st.slots).mirror)
  {
    hide Mount, Step, Start, NextRec, Sound;
    TraceGood(rs, ops, j);
    TriesFromRun(rs, ops, i, j);
    var st := rs[j].st;
    MountSound(st);
    var m := Mount(st.slots).mirror;
    if m != st.ram.mirror {
      var t :| t in st.tries && Attempt(st.ram.mirror, t, m);
      var k :| i <= k < j && Commits(rs, ops, k) && ops[k].d == t.d && ops[k].epoch == t.epoch
               && rs[k].st.ram.mirror == st.ram.mirror;
      assert SavedBy(rs, ops, k, m) && ops[k].d == t.d;
    }
  }

  lemma {:induction false} HeldFromRun(rs: seq<Run>, ops: seq<Op>, i: nat, j: nat)
    requires Trace(rs, ops) && i <= j <= |ops| && |ops| + 1 < U32_MOD && rs[i].held.Some? && rs[i].st.tries == {}
    ensures rs[j].held.Some? && HeldFrom(rs, ops, i, j, rs[j].held.value)
    decreases j
  {
    hide Mount, CommitSpec, NextRec, Start;
    if i < j {
      HeldFromRun(rs, ops, i, j - 1);
      MountedFrom(rs, ops, i, j - 1);
      TraceGood(rs, ops, j - 1);
      TraceGood(rs, ops, j);
      var r, op := rs[j - 1], ops[j - 1];
      assert rs[j] == Step(r, op);
      if op.Commit? && r.on && op.d < 2 {
        CommitSound(r.st, op.d, op.epoch, op.f);
        if rs[j].acked {
          assert SavedBy(rs, ops, j - 1, rs[j].held.value);
          assert ops[j - 1] == op;
        }
      }
      Earlier(rs, ops, i, j - 1, rs[j].held.value);
    }
  }

  lemma Earlier(rs: seq<Run>, ops: seq<Op>, i: nat, j: nat, r: Rec)
    requires i <= j < |ops| < |rs|
    ensures HeldFrom(rs, ops, i, j, r) ==> HeldFrom(rs, ops, i, j + 1, r)
  {
    hide NextRec;
  }

  /** Relative to a record acknowledged or mounted at `i`: whatever number of commits failed
      or was cut since, with reboots between them, a mount is OK and finds that record or one
      that a commit since then saved or tried to save, and never an older one. */
  lemma NeverOlder(rs: seq<Run>, ops: seq<Op>, i: nat, j: nat)
    requires Trace(rs, ops) && i <= j <= |ops| && |ops| + 1 < U32_MOD && rs[i].held.Some? && rs[i].st.tries == {}
    ensures var m := Mount(rs[j].st.slots);
      && m.status == Ok && m.mirror.no >= rs[i].held.value.no
      && (m.mirror == rs[i].held.value || exists k :: i <= k < j && SavedBy(rs, ops, k, m.mirror))
  {
    hide Mount, Step, Start, NextRec, Sound;
    HeldFromRun(rs, ops, i, j);
    MountedFrom(rs, ops, i, j);
    HeldForever(rs, ops, i, j);
    TraceGood(rs, ops, j);
    MirrorNumber(rs[j].st);
  }

  /** An acknowledged commit leaves no attempt pending, so it is such a record. */
  lemma AckedIsClean(rs: seq<Run>, ops: seq<Op>, i: nat)
    requires Trace(rs, ops) && i <= |ops| && |ops| + 1 < U32_MOD && rs[i].acked
    ensures rs[i].held.Some? && rs[i].st.tries == {}
  {
    hide Mount, CommitSpec, NextRec, Sound;
    if i > 0 {
      var r, op := rs[i - 1], ops[i - 1];
      TraceGood(rs, ops, i - 1);
      assert rs[i] == Step(r, op);
      CommitSound(r.st, op.d, op.epoch, op.f);
    }
  }

  /** On every run, a domain of which no commit was tried is never loaded, whatever happened to
      the other. */
  lemma {:induction false} NeverLoaded(rs: seq<Run>, ops: seq<Op>, d: nat, n: nat)
    requires Trace(rs, ops) && n <= |ops| && |ops| + 1 < U32_MOD && d < 2
    requires forall k {:trigger ops[k]} :: 0 <= k < n ==> !(ops[k].Commit? && ops[k].d == d)
    ensures !Has(rs[n].st.ram.mirror, d) && (forall t :: t in rs[n].st.tries ==> t.d != d)
    ensures !Has(Mount(rs[n].st.slots).mirror, d) && Load(Mount(rs[n].st.slots), d) == None
    decreases n
  {
    hide Mount, Has, Sound, CommitSpec, NextRec, Start;
    if n == 0 {
      StartHasNothing(d);
    } else {
      NeverLoaded(rs, ops, d, n - 1);
      TraceGood(rs, ops, n - 1);
      var r, op := rs[n - 1], ops[n - 1];
      assert rs[n] == Step(r, op);
      if op.Commit? && r.on && op.d < 2 {
        CommitSound(r.st, op.d, op.epoch, op.f);
        assert r.st.ram.mirror.written < 4 by { WrittenBits(r.st); }
        NextValues(r.st.ram.mirror, op.d, op.epoch);
      }
    }
    TraceGood(rs, ops, n);
    MountedHasNot(rs[n].st, d);
  }

  lemma StartHasNothing(d: nat)
    ensures !Has(Start().st.ram.mirror, d) && Start().st.tries == {}
  {
  }

  lemma BrokenIsZero(slots: Slots)
    ensures Mount(slots).status == Broken ==> Mount(slots).mirror == ZERO_REC
  {
    hide ReadSlot;
  }

  lemma MountedHasNot(st: Store, d: nat)
    requires Sound(st) && d < 2 && !Has(st.ram.mirror, d) && forall t :: t in st.tries ==> t.d != d
    ensures !Has(Mount(st.slots).mirror, d) && Load(Mount(st.slots), d) == None
  {
    hide Mount, Sound, NextRec;
    MountSound(st);
    assert st.ram.mirror.written < 4 by { WrittenBits(st); }
    var m := Mount(st.slots).mirror;
    BrokenIsZero(st.slots);
    if m != st.ram.mirror && Mount(st.slots).status != Broken {
      var t :| t in st.tries && Attempt(st.ram.mirror, t, m);
      NextValues(st.ram.mirror, t.d, t.epoch);
    }
    StartHasNothing(d);
  }

  /** A commit that returned true is what the next mount loads, with the other domain as
      it was, however often the node then loses power and reboots without a new attempt. */
  lemma AcknowledgedIsDurable(rs: seq<Run>, before: seq<Op>, d: nat, epoch: u16, f: Fault, reboots: nat)
    requires Trace(rs, before + [Commit(d, epoch, f)] + seq(reboots, _ => Reboot))
    requires |before| + reboots + 2 < U32_MOD && rs[|before| + 1].acked
    ensures var m := Mount(rs[|before| + 1 + reboots].st.slots);
            && d < 2
            && Load(m, d) == Some(epoch)
            && Load(m, 1 - d) == Load(rs[|before|].st.ram, 1 - d)
  {
    hide Sound, Mount, CommitSpec, NextRec, Start;
    var k, ops := |before|, before + [Commit(d, epoch, f)] + seq(reboots, _ => Reboot);
    assert ops[k] == Commit(d, epoch, f);
    TraceGood(rs, ops, k);
    CommitSound(rs[k].st, d, epoch, f);
    assert rs[k].st.ram.mirror.written < 4 by { WrittenBits(rs[k].st); }
    NextValues(rs[k].st.ram.mirror, d, epoch);
    HeldThroughReboots(rs, ops, k + 1, |ops|);
    CrashAtomic(rs, ops);
  }

  lemma {:induction false} HeldThroughReboots(rs: seq<Run>, ops: seq<Op>, k: nat, n: nat)
    requires Trace(rs, ops) && k <= n <= |ops| && |ops| + 1 < U32_MOD
    requires rs[k].held.Some? && rs[k].st.tries == {}
    requires forall j {:trigger ops[j]} :: k <= j < |ops| ==> ops[j] == Reboot
    ensures rs[n].held == rs[k].held && rs[n].st.tries == {}
    decreases n
  {
    hide Mount, CommitSpec, Start;
    if k < n {
      HeldThroughReboots(rs, ops, k, n - 1);
      TracePrefix(rs, ops, n - 1);
      CrashAtomic(rs[..n], ops[..n - 1]);
      assert ops[n - 1] == Reboot;
    }
  }

  lemma TracePrefix(rs: seq<Run>, ops: seq<Op>, n: nat)
    requires Trace(rs, ops) && n <= |ops|
    ensures Trace(rs[..n + 1], ops[..n])
  {
    hide Step, Start;
    var qs, ps := rs[..n + 1], ops[..n];
    forall i {:trigger ps[i]} | 0 <= i < |ps|
      ensures qs[i + 1] == Step(qs[i], ps[i])
    {
      assert ps[i] == ops[i];
    }
  }

  lemma WrittenBits(st: Store)
    requires Sound(st)
    ensures st.ram.mirror.written < 4
  {
    hide ReadSlot;
  }

  // ---------------------------------------------------------------- before the first record

  /** What an interrupted save leaves in its slot when that is neither blank nor a record: an
      erase that did not leave the mark word blank and did not leave a whole old record, or a
      torn mark word that does not read as blank. */
  predicate Breaks(s: Slot, f: Fault) {
    match f
    case EraseFault(left, _) =>
      && BlankCheck(if 4 < |left| then Leave(s[4], Erased, left[4]) else s[4]) != 1
      && !(ReadSlot(s).Valid? && forall i :: 0 <= i < 5 && i < |left| ==> left[i].LeftOld?)
    case WordFault(at, left, _) => at == 4 && left.LeftTorn? && left.blank != 1
    case _ => false
  }

  /** A save leaves its slot readable or blank exactly when the fault does not break it. */
  lemma SaveBreaks(s: Slot, r: Rec, f: Fault)
    requires r.written < 4
    ensures var t := ReadSlot(SaveSpec(s, r, f).0); Breaks(s, f) <==> !(t.Valid? || t == Empty)
  {
    hide RecordWords, Decode, WriteSpec;
    ReadRecord(r);
    var w := RecordWords(r);
    match f
    case EraseFault(left, _) => EraseBreaks(s, left);
    case WordFault(at, left, _) =>
      if at < 4 {
        BeforeFault(EMPTY_SLOT, 0, w[..at], f);
        SaveCells(w, f);
        StoppedBeforeMark(w, f);
      } else if at == 4 {
        BeforeFault(EMPTY_SLOT, 0, w[..4], f);
        SaveCells(w, f);
        AtMark(WriteSpec(EMPTY_SLOT, 0, w[..4], f).0, w, f);
      } else {
        BeforeFault(EMPTY_SLOT, 0, w[..4], f);
        SaveCells(w, f);
        BeforeFault(WriteSpec(EMPTY_SLOT, 0, w[..4], f).0, 4, w[4..], f);
      }
    case _ =>
      NotAWordFault(EMPTY_SLOT, 0, w[..4], f);
      SaveCells(w, f);
      NotAWordFault(WriteSpec(EMPTY_SLOT, 0, w[..4], f).0, 4, w[4..], f);
  }

  lemma EraseBreaks(s: Slot, left: seq<Left>)
    ensures var t := ReadSlot(LeaveErase(s, left));
      Breaks(s, EraseFault(left, true)) == Breaks(s, EraseFault(left, false)) == !(t.Valid? || t == Empty)
  {
    hide Decode;
    var u := LeaveErase(s, left);
    LeaveEraseReads(s, left);
    BlankIsEmpty(s);
    BlankIsEmpty(u);
    if forall i :: 0 <= i < 5 && i < |left| ==> left[i].LeftOld? {
      assert u == s;
    } else {
      var i :| 0 <= i < 5 && i < |left| && !left[i].LeftOld?;
      assert !u[i].Data?;
    }
  }

  lemma BlankIsEmpty(s: Slot)
    ensures ReadSlot(s) == Empty <==> BlankCheck(s[4]) == 1
  {
    hide Crc32;
  }

  /** A fault in a body word ends the save with the mark word still erased. */
  lemma StoppedBeforeMark(w: seq<u32>, f: Fault)
    requires |w| == 5 && f.WordFault? && f.at < 4
    ensures var (s2, rc2) := WriteSpec(EMPTY_SLOT, 0, w[..4], f); rc2 != Done && s2[4] == Erased
  {
    WritePrefix(EMPTY_SLOT, 0, w[..4], f);
    StopsAt(EMPTY_SLOT, 0, w[..4], f);
  }

  lemma {:induction false} StopsAt(s: Slot, at: nat, ws: seq<u32>, f: Fault)
    requires f.WordFault? && at <= f.at < at + |ws| <= 5
    ensures WriteSpec(s, at, ws, f).1 != Done
    decreases |ws|
  {
    if at < f.at && s[at].Erased? {
      StopsAt(s[at := Data(ws[0])], at + 1, ws[1..], f);
    }
  }

  lemma AtMark(s: Slot, w: seq<u32>, f: Fault)
    requires |w| == 5 && s[4] == Erased && f.WordFault? && f.at == 4
    ensures WriteSpec(s, 4, w[4..], f).0 == s[4 := Leave(Erased, Data(w[4]), f.left1)]
  {
  }

  lemma {:induction false} NotAWordFault(s: Slot, at: nat, ws: seq<u32>, f: Fault)
    requires at + |ws| <= 5 && !f.WordFault? && forall i :: at <= i < at + |ws| ==> s[i] == Erased
    ensures WriteSpec(s, at, ws, f).1 == Done
    decreases |ws|
  {
    if ws != [] {
      NotAWordFault(s[at := Data(ws[0])], at + 1, ws[1..], f);
    }
  }

  /** The fault that a save or its read-back meets, if any: a word fault beyond the record is none. */
  predicate Meets(f: Fault) {
    f.EraseFault? || f.ReadBackFault? || (f.WordFault? && f.at < 5)
  }

  predicate CutsPower(f: Fault) {
    Meets(f) &&
    match f
    case EraseFault(_, cut) => cut
    case WordFault(_, _, cut) => cut
    case ReadBackFault(cut) => cut
    case NoFault => false
  }

  /** How a commit on a usable store ends: with success exactly when it meets no fault, and with
      power lost exactly when the fault cuts it. */
  lemma CommitEndsAs(st: Store, d: nat, epoch: u16, f: Fault)
    requires Sound(st) && st.ram.status != Broken && d < 2
    ensures var rc := CommitSpec(st, d, epoch, f).1;
      (rc == Done <==> !Meets(f)) && (rc == Cut <==> CutsPower(f))
  {
    hide RecordWords, Decode, WriteSpec, ReadSlot, Sound;
    var next := NextRec(st.ram.mirror, d, epoch);
    assert next.written < 4 by { NextIsSmall(st, d, epoch); }
    SaveReads(st.slots[Target(st.ram)], next, f);
    SaveEndsAs(st.slots[Target(st.ram)], next, f);
  }

  lemma NextIsSmall(st: Store, d: nat, epoch: u16)
    requires Sound(st) && d < 2
    ensures NextRec(st.ram.mirror, d, epoch).written < 4
  {
    hide ReadSlot;
  }

  lemma SaveEndsAs(s: Slot, r: Rec, f: Fault)
    ensures var rc := SaveSpec(s, r, f).1;
      (rc == Done <==> !f.EraseFault? && !(f.WordFault? && f.at < 5))
      && (rc == Cut <==> CutsPower(f) && !f.ReadBackFault?)
  {
    hide RecordWords, WriteSpec;
    var w := RecordWords(r);
    if !f.EraseFault? {
      WriteEndsAs(EMPTY_SLOT, 0, w[..4], f);
      SaveCells(w, f);
      var s2 := WriteSpec(EMPTY_SLOT, 0, w[..4], f).0;
      if WriteSpec(EMPTY_SLOT, 0, w[..4], f).1 == Done {
        WriteEndsAs(s2, 4, w[4..], f);
      }
    }
  }

  lemma {:induction false} WriteEndsAs(s: Slot, at: nat, ws: seq<u32>, f: Fault)
    requires at + |ws| <= 5 && forall i :: at <= i < at + |ws| ==> s[i] == Erased
    ensures var rc := WriteSpec(s, at, ws, f).1;
      rc == if f.WordFault? && at <= f.at < at + |ws| then Ended(f.cut) else Done
    decreases |ws|
  {
    if ws != [] && !(f.WordFault? && f.at == at) {
      WriteEndsAs(s[at := Data(ws[0])], at + 1, ws[1..], f);
    }
  }

  /** A commit on a store that holds no record yet, whatever earlier attempts left in its first
      slot, makes it mount BROKEN exactly when its fault breaks that slot. */
  lemma FactoryCommitBreaks(st: Store, d: nat, epoch: u16, f: Fault)
    requires Sound(st) && st.ram.status == Factory && d < 2
    ensures Mount(CommitSpec(st, d, epoch, f).0.slots).status == Broken <==> Breaks(st.slots[0], f)
  {
    hide ReadSlot, Breaks, SaveSpec;
    var next := NextRec(st.ram.mirror, d, epoch);
    NextIsAttempt(st.ram.mirror, d, epoch);
    SaveBreaks(st.slots[0], next, f);
    CommitSlots(st, d, epoch, f);
  }

  lemma CommitSlots(st: Store, d: nat, epoch: u16, f: Fault)
    requires st.ram.status == Factory && st.ram.newest == NO_SLOT && d < 2
    ensures CommitSpec(st, d, epoch, f).0.slots
      == st.slots[0 := SaveSpec(st.slots[0], NextRec(st.ram.mirror, d, epoch), f).0]
  {
    hide SaveSpec, ReadSlot, NextRec;
  }

  /** Over every run, exactly when a mount is BROKEN: a commit without any record held yet
      breaks the store or not as its own fault says; nothing else changes the answer, and with
      a record held the answer is no. */
  lemma BrokenExactly(rs: seq<Run>, ops: seq<Op>, k: nat)
    requires Trace(rs, ops) && k < |ops| && |ops| + 1 < U32_MOD
    ensures Mount(rs[0].st.slots).status == Factory
    ensures Mount(rs[k + 1].st.slots).status == Broken <==>
      if Commits(rs, ops, k) && rs[k].st.ram.status == Factory then Breaks(rs[k].st.slots[0], ops[k].f)
      else rs[k].held.None? && Mount(rs[k].st.slots).status == Broken
  {
    hide Mount, Sound, CommitSpec, Breaks, NextRec;
    StartMounts();
    TraceGood(rs, ops, k);
    TraceGood(rs, ops, k + 1);
    var r, op := rs[k], ops[k];
    assert rs[k + 1] == Step(r, op);
    MountSound(r.st);
    MountSound(rs[k + 1].st);
    if Commits(rs, ops, k) {
      CommitSound(r.st, op.d, op.epoch, op.f);
      if r.st.ram.status == Factory {
        FactoryCommitBreaks(r.st, op.d, op.epoch, op.f);
      } else if r.st.ram.status == Broken {
        BrokenCommitsNothing(r.st, op.d, op.epoch, op.f);
      }
    }
  }

  lemma StartMounts()
    ensures Mount(Start().st.slots).status == Factory
  {
  }

  lemma BrokenCommitsNothing(st: Store, d: nat, epoch: u16, f: Fault)
    requires st.ram.status == Broken
    ensures CommitSpec(st, d, epoch, f) == (st, Failed)
  {
    hide SaveSpec;
  }

  /** Both kinds of interruption do break the very first commit on blank flash: the mark word
      torn while it was programmed, and torn while it was erased. */
  lemma FirstCommitCanBreak(f: Fault) returns (rs: seq<Run>, ops: seq<Op>)
    requires f == WordFault(4, LeftTorn(0), true)
      || f == EraseFault([LeftOld, LeftOld, LeftOld, LeftOld, LeftTorn(0)], true)
    ensures Trace(rs, ops) && ops == [Reboot, Commit(0, 1, f)]
    ensures Mount(rs[2].st.slots).status == Broken
  {
    hide Mount, CommitSpec;
    ops := [Reboot, Commit(0, 1, f)];
    var r1 := Step(Start(), Reboot);
    rs := [Start(), r1, Step(r1, ops[1])];
    assert Trace(rs, ops) by {
      assert ops[0] == Reboot && ops[1] == Commit(0, 1, f);
    }
    FirstMountIsFactory();
    BrokenExactly(rs, ops, 1);
  }

  lemma FirstMountIsFactory()
    ensures var r := Step(Start(), Reboot); r.on && r.st.ram.status == Factory && r.st.slots == [EMPTY_SLOT, EMPTY_SLOT]
  {
  }

  /** Programming that ends before the faulty word completes. */
  lemma {:induction false} BeforeFault(s: Slot, at: nat, ws: seq<u32>, f: Fault)
    requires at + |ws| <= 5 && f.WordFault? && at + |ws| <= f.at
    requires forall i :: at <= i < at + |ws| ==> s[i] == Erased
    ensures WriteSpec(s, at, ws, f).1 == Done
    decreases |ws|
  {
    if ws != [] {
      BeforeFault(s[at := Data(ws[0])], at + 1, ws[1..], f);
    }
  }
}
