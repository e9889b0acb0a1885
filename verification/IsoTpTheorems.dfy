/** What the two ends of the transport deliver to each other. */
module IsoTpTheorems {
  import opened Words
  import opened IsoTp
  import C = UdsClient

  // ---------------------------------------------------------------- reassembly, exactly

  predicate AllCf(rs: seq<Rcv>) {
    forall i :: 0 <= i < |rs| ==> Kind(rs[i].f) == PCI_CF
  }

  /** Consecutive frames the receiver takes before it completes: at least one, even when
      the first frame already held everything declared. */
  function Need(missing: nat): (n: nat)
    ensures n > 0
  {
    if missing <= CF_MAX then 1 else 1 + Need(missing - CF_MAX)
  }

  /** The first `Need` frames are there and their numbers count up from `no`, modulo 16. */
  predicate Delivers(rs: seq<Rcv>, no: Nibble, missing: nat) {
    && rs != [] && LowNibble(rs[0].f) == no
    && (missing > CF_MAX ==> Delivers(rs[1..], (no + 1) % 16, missing - CF_MAX))
  }

  /** The `missing` bytes in the first `Need` frames, whatever follows them in each. */
  function Payload(rs: seq<Rcv>, missing: nat): (b: seq<byte>)
    requires |rs| >= Need(missing)
    ensures |b| == missing
  {
    if missing <= CF_MAX then rs[0].f[1..1 + missing]
    else rs[0].f[1..1 + CF_MAX] + Payload(rs[1..], missing - CF_MAX)
  }

  lemma {:induction false} DeliversEnough(rs: seq<Rcv>, no: Nibble, missing: nat)
    requires Delivers(rs, no, missing)
    ensures |rs| >= Need(missing)
  {
    if missing > CF_MAX {
      DeliversEnough(rs[1..], (no + 1) % 16, missing - CF_MAX);
    }
  }

  /** A reception in progress completes exactly when enough consecutive frames have come and
      they are numbered in order; it then holds exactly their payload. */
  lemma {:induction false} ReassemblyExact(t: Tp, rs: seq<Rcv>)
    requires t.state == RX_IN_PROGRESS && !t.complete && |t.msg| <= t.total && AllCf(rs)
    ensures var missing, u := t.total as int - |t.msg|, HandleAll(t, rs);
      && (u.complete <==> Delivers(rs, t.nextRx, missing))
      && (u.complete ==> |rs| >= Need(missing) && u.state == RX_COMPLETE && u.msg == t.msg + Payload(rs, missing))
    decreases |rs|
  {
    hide Handle, HandleAll, Kind, LowNibble;
    if rs == [] {
      NoFrames(t);
    } else {
      var missing, u, rest := t.total as int - |t.msg|, Handle(t, rs[0]), rs[1..];
      AllStep(t, rs);
      CfStep(t, rs[0]);
      if LowNibble(rs[0].f) != t.nextRx || missing <= CF_MAX {
        Settled(u, rest);
      } else {
        ReassemblyExact(u, rest);
        if Delivers(rest, u.nextRx, missing - CF_MAX) {
          DeliversEnough(rest, u.nextRx, missing - CF_MAX);
          var more := Payload(rest, missing - CF_MAX);
          assert t.msg + (rs[0].f[1..1 + CF_MAX] + more) == u.msg + more;
        }
      }
    }
  }

  /** One consecutive frame during a reception: refused, the last one, or one more. */
  lemma CfStep(t: Tp, r: Rcv)
    requires t.state == RX_IN_PROGRESS && |t.msg| <= t.total && Kind(r.f) == PCI_CF
    ensures var missing, u := t.total as int - |t.msg|, Handle(t, r);
      if LowNibble(r.f) != t.nextRx then u == t.(state := ERROR_FLOW)
      else if missing <= CF_MAX then
        u.complete && u.state == RX_COMPLETE && |u.msg| == t.total && u.msg == t.msg + r.f[1..1 + missing]
      else
        u.state == RX_IN_PROGRESS && u.complete == t.complete && u.total == t.total
        && u.nextRx == (t.nextRx + 1) % 16 && u.msg == t.msg + r.f[1..1 + CF_MAX]
  {
    hide Kind, LowNibble;
  }

  lemma NoFrames(t: Tp)
    ensures HandleAll(t, []) == t
  {
  }

  lemma AllStep(t: Tp, rs: seq<Rcv>)
    requires rs != [] && AllCf(rs)
    ensures HandleAll(t, rs) == HandleAll(Handle(t, rs[0]), rs[1..])
      && Handle(t, rs[0]) == HandleCf(t, rs[0].f, rs[0].now)
  {
  }

  /** Outside a reception consecutive frames change nothing. */
  lemma {:induction false} Settled(t: Tp, rs: seq<Rcv>)
    requires t.state != RX_IN_PROGRESS && AllCf(rs)
    ensures HandleAll(t, rs) == t
    decreases |rs|
  {
    if rs != [] {
      hide Kind;
      AllStep(t, rs);
      Settled(t, rs[1..]);
    } else {
      NoFrames(t);
    }
  }

  // ---------------------------------------------------------------- client to target

  /** Each frame starts with the bytes sent; the rest of the buffer is padding. */
  predicate Carries(rs: seq<Rcv>, fs: seq<seq<byte>>) {
    |rs| == |fs| && forall i :: 0 <= i < |fs| ==> fs[i] <= rs[i].f
  }

  lemma {:induction false} TailDelivers(rest: seq<byte>, no: Nibble, rs: seq<Rcv>)
    requires rest != [] && Carries(rs, Tail(rest, no))
    ensures AllCf(rs) && |rs| == Need(|rest|) && Delivers(rs, no, |rest|) && Payload(rs, |rest|) == rest
    decreases |rest|
  {
    var n := Min(CF_MAX, |rest|);
    var head := ConsecutiveFrame(no, rest[..n]);
    assert rs[0].f[0] == head[0] && rs[0].f[1..1 + n] == head[1..] by {
      assert head <= rs[0].f;
      assert rs[0].f[..1 + n] == head;
    }
    if n < |rest| {
      var fs := Tail(rest, no);
      assert fs[1..] == Tail(rest[n..], (no + 1) % 16);
      assert Carries(rs[1..], fs[1..]);
      TailDelivers(rest[n..], (no + 1) % 16, rs[1..]);
      assert rest == rest[..n] + rest[n..];
      assert forall i :: 1 <= i < |rs| ==> rs[i] == rs[1..][i - 1];
    } else {
      assert rest[n..] == [];
      assert |Tail(rest, no)| == 1;
    }
  }

  lemma FfStep(t: Tp, msg: seq<byte>, r: Rcv)
    requires SF_MAX < |msg| <= MAX_PAYLOAD && FirstFrame(msg) <= r.f
    ensures Handle(t, r) == t.(msg := msg[..FF_INITIAL], total := |msg|, nextRx := 1, last := r.now,
      state := RX_IN_PROGRESS, out := t.out + [FlowControl(CTS, BLOCK_SIZE, 0)])
  {
    var ff := FirstFrame(msg);
    assert r.f[..64] == ff;
    assert forall i :: 0 <= i < 64 ==> r.f[i] == ff[i];
    assert r.f[5..5 + FF_INITIAL] == ff[5..5 + FF_INITIAL] == msg[..FF_INITIAL];
    FourBytes(|msg|);
  }

  lemma FourBytes(v: u32)
    ensures v / 0x100_0000 * 0x100_0000 + v / 0x1_0000 % 0x100 * 0x1_0000 + v / 0x100 % 0x100 * 0x100 + v % 0x100 == v
  {
  }

  lemma SfStep(t: Tp, msg: seq<byte>, r: Rcv)
    requires |msg| <= SF_MAX && SingleFrame(msg) <= r.f
    ensures Handle(t, r) == t.(msg := msg, complete := true, state := RX_COMPLETE)
  {
    var sf := SingleFrame(msg);
    assert r.f[..|sf|] == sf;
    assert r.f[0] == sf[0] && r.f[1] == sf[1] && r.f[2..2 + |msg|] == sf[2..];
  }

  /** Consecutive frames do not make the receiver send. */
  lemma {:induction false} CfsSendNothing(t: Tp, rs: seq<Rcv>)
    requires AllCf(rs)
    ensures HandleAll(t, rs).out == t.out
    decreases |rs|
  {
    if rs == [] {
      NoFrames(t);
    } else {
      hide Kind, LowNibble;
      AllStep(t, rs);
      CfsSendNothing(HandleCf(t, rs[0].f, rs[0].now), rs[1..]);
    }
  }

  /** Every message of 0 to 4096 bytes arrives whole, whatever padding the frames gained, and
      one flow control answers a first frame. */
  lemma ClientToTarget(t: Tp, msg: seq<byte>, rs: seq<Rcv>)
    requires |msg| <= MAX_PAYLOAD && Carries(rs, Segments(msg)) && !t.complete
    ensures var u := HandleAll(t, rs);
      && u.complete && u.state == RX_COMPLETE && u.msg == msg
      && u.out == t.out + if |msg| <= SF_MAX then [] else [FlowControl(CTS, BLOCK_SIZE, 0)]
  {
    hide Handle, Kind, LowNibble, ConsecutiveFrame, Delivers, Need;
    var fs := Segments(msg);
    assert fs[0] <= rs[0].f;
    if |msg| <= SF_MAX {
      SfStep(t, msg, rs[0]);
      NoFrames(Handle(t, rs[0]));
      assert rs[1..] == [];
    } else {
      FfStep(t, msg, rs[0]);
      var u, rest := Handle(t, rs[0]), msg[FF_INITIAL..];
      assert fs[1..] == Tail(rest, 1);
      assert Carries(rs[1..], fs[1..]);
      TailDelivers(rest, 1, rs[1..]);
      assert forall i :: 1 <= i < |rs| ==> rs[i] == rs[1..][i - 1];
      ReassemblyExact(u, rs[1..]);
      CfsSendNothing(u, rs[1..]);
      assert msg[..FF_INITIAL] + rest == msg;
    }
  }

  /** Fewer consecutive frames than the message has, in any selection and order and with any
      content, never look like a whole message. */
  lemma LossDetected(t: Tp, msg: seq<byte>, ff: Rcv, rs: seq<Rcv>)
    requires SF_MAX < |msg| <= MAX_PAYLOAD && FirstFrame(msg) <= ff.f && !t.complete
    requires AllCf(rs) && |rs| < |Tail(msg[FF_INITIAL..], 1)|
    ensures !HandleAll(Handle(t, ff), rs).complete
  {
    hide Handle, Kind, LowNibble, Delivers, Need;
    FfStep(t, msg, ff);
    var u, rest := Handle(t, ff), msg[FF_INITIAL..];
    ReassemblyExact(u, rs);
    TailLength(rest, 1);
    if Delivers(rs, 1, |rest|) {
      DeliversEnough(rs, 1, |rest|);
    }
  }

  lemma {:induction false} TailLength(rest: seq<byte>, no: Nibble)
    requires rest != []
    ensures |Tail(rest, no)| == Need(|rest|)
    decreases |rest|
  {
    if |rest| > CF_MAX {
      TailLength(rest[CF_MAX..], (no + 1) % 16);
    }
  }

  /** A message that completes has the declared length exactly when at least 59 bytes were
      declared; a smaller total, which no sender of this layout declares, yields 122 bytes. */
  lemma DeclaredLength(t: Tp, ff: Rcv, rs: seq<Rcv>)
    requires Kind(ff.f) == PCI_FF && Declared(ff.f) <= MAX_PAYLOAD && !t.complete && AllCf(rs)
    requires HandleAll(Handle(t, ff), rs).complete
    ensures |HandleAll(Handle(t, ff), rs).msg| == if Declared(ff.f) >= FF_INITIAL then Declared(ff.f) as int else 122
  {
    hide Kind, LowNibble, Delivers, Need, Declared;
    var u := Handle(t, ff);
    if Declared(ff.f) >= FF_INITIAL {
      ReassemblyExact(u, rs);
    } else if rs == [] {
      NoFrames(u);
    } else {
      AllStep(u, rs);
      Settled(HandleCf(u, rs[0].f, rs[0].now), rs[1..]);
    }
  }

  /** What is offered for taking is a whole message, not one still being received. */
  predicate Whole(t: Tp) {
    t.complete ==> t.state != RX_IN_PROGRESS
  }

  /** A frame spoils that exactly when it is an acceptable first frame that arrives before
      the previous message was taken: the receiver keeps its completion flag. */
  lemma WholeUnless(t: Tp, r: Rcv)
    requires Whole(t)
    ensures Whole(Handle(t, r)) <==> !(t.complete && Kind(r.f) == PCI_FF && Declared(r.f) <= MAX_PAYLOAD)
    ensures !Whole(Handle(t, r)) ==> TakeSpec(Handle(t, r), MAX_PAYLOAD).0 == Some(r.f[5..64])
  {
    hide Declared;
    if Kind(r.f) == PCI_FC {
      BlockKeepsRx(t.(block := if r.f[1] == 0 then 0xFFFF else r.f[1] as int));
    }
  }

  lemma {:induction false} BlockKeepsRx(t: Tp)
    ensures var u := SendBlock(t);
      u.complete == t.complete && u.state == t.state && u.msg == t.msg && u.total == t.total && u.nextRx == t.nextRx
    decreases |t.tx| - t.done
  {
    if t.done < |t.tx| && t.block > 0 {
      BlockKeepsRx(SendOne(t));
    }
  }

  /** The message of a single frame comes from the frame alone if and only if it states at
      most 62 bytes; beyond that the code hands over memory behind the buffer. */
  lemma SingleFrameReach(t: Tp, f: Frame)
    ensures (forall g: Frame :: g[..FRAME_LEN] == f[..FRAME_LEN] ==> HandleSf(t, g).msg == HandleSf(t, f).msg)
      <==> f[1] <= SF_MAX
  {
    if f[1] <= SF_MAX {
      forall g: Frame | g[..FRAME_LEN] == f[..FRAME_LEN]
        ensures HandleSf(t, g).msg == HandleSf(t, f).msg
      {
        assert forall i :: 0 <= i < FRAME_LEN ==> g[i] == g[..FRAME_LEN][i] == f[..FRAME_LEN][i] == f[i];
      }
    } else {
      var g: Frame := f[FRAME_LEN := (f[FRAME_LEN] as int + 1) % 0x100];
      assert g[..FRAME_LEN] == f[..FRAME_LEN];
      assert HandleSf(t, g).msg[SF_MAX] != HandleSf(t, f).msg[SF_MAX];
    }
  }

  /** A message is refused exactly when it is longer than 4096 bytes or while another one is being
      sent; otherwise exactly its single or first frame goes out, and only the latter leaves
      something to send, which then waits for a flow control. */
  lemma SendAccepted(t: Tp, msg: seq<byte>)
    ensures SendSpec(t, msg).Some? <==> |msg| <= 4096 && !t.pending
    ensures SendSpec(t, msg).Some? ==>
      var u := SendSpec(t, msg).value;
      && u.out == t.out + Segments(msg)[..1]
      && (u.pending <==> |msg| > 62)
      && (u.pending ==> u.done <= |u.tx| && Rest(u) == Segments(msg)[1..])
      && u.msg == t.msg && u.complete == t.complete && u.state == t.state
  {
    hide FirstFrame, SingleFrame, Tail;
  }

  /** What is taken is the received message, whole, if there is one and it fits, and only once:
      then there is nothing to take until another message is complete, and a reception that had
      begun over it is given up. */
  lemma TakenOnce(t: Tp, cap: nat, rs: seq<Rcv>)
    requires AllCf(rs)
    ensures var (got, u) := TakeSpec(t, cap);
      && (got.Some? <==> t.complete && |t.msg| <= cap)
      && (got.None? ==> u == t)
      && (got.Some? ==>
            && got.value == t.msg && u.state == IDLE && u.out == t.out && u.pending == t.pending
            && HandleAll(u, rs) == u && TakeSpec(HandleAll(u, rs), MAX_PAYLOAD).0 == None)
  {
    hide HandleAll, Kind;
    var (got, u) := TakeSpec(t, cap);
    if got.Some? {
      Settled(u, rs);
    }
  }

  /** A longer message, which the client starts to send, is refused at its first frame and gets
      no answer, so the client sends nothing more of it. */
  lemma TooLongRefused(t: Tp, msg: seq<byte>, r: Rcv)
    requires MAX_PAYLOAD < |msg| < U32_MOD && FirstFrame(msg) <= r.f
    ensures Handle(t, r) == t.(state := ERROR_OVERFLOW)
  {
    var ff := FirstFrame(msg);
    assert forall i :: 0 <= i < 64 ==> r.f[i] == ff[i];
    FourBytes(|msg|);
  }

  // ---------------------------------------------------------------- receiving while sending

  predicate CfOrFc(rs: seq<Rcv>) {
    forall i :: 0 <= i < |rs| ==> Kind(rs[i].f) == PCI_CF || Kind(rs[i].f) == PCI_FC
  }

  /** An overflow status for the message this module is sending. */
  predicate Aborts(t: Tp, r: Rcv) {
    Kind(r.f) == PCI_FC && t.pending && LowNibble(r.f) == OVERFLOW
  }

  /** The consecutive frames that arrive before the first such status. */
  function Heard(t: Tp, rs: seq<Rcv>): (cfs: seq<Rcv>)
    ensures CfOrFc(rs) ==> AllCf(cfs)
    decreases |rs|
  {
    if rs == [] || Aborts(t, rs[0]) then []
    else (if Kind(rs[0].f) == PCI_CF then [rs[0]] else []) + Heard(Handle(t, rs[0]), rs[1..])
  }

  /** A reception interleaved with flow control for the other direction: it completes exactly
      when the consecutive frames heard before an overflow status deliver the message, and with
      exactly their payload. Without such a status it is the reception of those frames alone. */
  lemma {:induction false} MixedReassembly(t: Tp, rs: seq<Rcv>)
    requires t.state == RX_IN_PROGRESS && !t.complete && |t.msg| <= t.total && CfOrFc(rs)
    ensures var missing, u, cfs := t.total as int - |t.msg|, HandleAll(t, rs), Heard(t, rs);
      && (u.complete <==> Delivers(cfs, t.nextRx, missing))
      && (u.complete ==> |cfs| >= Need(missing) && u.msg == t.msg + Payload(cfs, missing))
    decreases |rs|
  {
    hide Handle, HandleAll, Kind, LowNibble, Heard, Delivers, Need, Payload, Aborts;
    if rs == [] {
      NoFrames(t);
      NothingHeard(t);
    } else {
      var missing, u, rest := t.total as int - |t.msg|, Handle(t, rs[0]), rs[1..];
      StepAll(t, rs);
      HeardStep(t, rs);
      var cfs := Heard(u, rest);
      if Kind(rs[0].f) == PCI_CF {
        CfStep(t, rs[0]);
        DeliversCons(rs[0], cfs, t.nextRx, missing);
        if LowNibble(rs[0].f) != t.nextRx || missing <= CF_MAX {
          MixedSettled(u, rest);
        } else {
          MixedReassembly(u, rest);
        }
      } else {
        FcKeepsRx(t, rs[0]);
        if Aborts(t, rs[0]) {
          MixedSettled(u, rest);
          NothingHeard(t);
        } else {
          MixedReassembly(u, rest);
        }
      }
    }
  }

  lemma NothingHeard(t: Tp)
    ensures Heard(t, []) == [] && forall no, missing :: !Delivers([], no, missing)
  {
  }

  lemma HeardStep(t: Tp, rs: seq<Rcv>)
    requires rs != [] && CfOrFc(rs)
    ensures Heard(t, rs) == if Kind(rs[0].f) == PCI_CF then [rs[0]] + Heard(Handle(t, rs[0]), rs[1..])
      else if Aborts(t, rs[0]) then [] else Heard(Handle(t, rs[0]), rs[1..])
  {
    hide Handle, LowNibble;
  }

  /** The first frame of a delivery and the rest. */
  lemma DeliversCons(r: Rcv, cfs: seq<Rcv>, no: Nibble, missing: nat)
    ensures Delivers([r] + cfs, no, missing)
      <==> LowNibble(r.f) == no && (missing > CF_MAX ==> Delivers(cfs, (no + 1) % 16, missing - CF_MAX))
    ensures missing <= CF_MAX ==> |[r] + cfs| >= Need(missing) && Payload([r] + cfs, missing) == r.f[1..1 + missing]
    ensures missing > CF_MAX && |cfs| >= Need(missing - CF_MAX) ==>
      |[r] + cfs| >= Need(missing) && Payload([r] + cfs, missing) == r.f[1..1 + CF_MAX] + Payload(cfs, missing - CF_MAX)
  {
    hide LowNibble;
    assert ([r] + cfs)[1..] == cfs;
  }

  /** Flow control leaves a reception alone unless it aborts the message being sent. */
  lemma FcKeepsRx(t: Tp, r: Rcv)
    requires Kind(r.f) == PCI_FC
    ensures var u := Handle(t, r);
      && u.msg == t.msg && u.total == t.total && u.nextRx == t.nextRx && u.complete == t.complete
      && u.state == if Aborts(t, r) then ERROR_OVERFLOW else t.state
  {
    hide Kind, LowNibble;
    BlockKeepsRx(t.(block := if r.f[1] == 0 then 0xFFFF else r.f[1] as int));
  }

  lemma {:induction false} MixedSettled(t: Tp, rs: seq<Rcv>)
    requires t.state != RX_IN_PROGRESS && CfOrFc(rs)
    ensures HandleAll(t, rs).complete == t.complete && HandleAll(t, rs).msg == t.msg
    decreases |rs|
  {
    hide Kind, LowNibble;
    if rs == [] {
      NoFrames(t);
    } else {
      StepAll(t, rs);
      if Kind(rs[0].f) == PCI_FC {
        FcKeepsRx(t, rs[0]);
      }
      MixedSettled(Handle(t, rs[0]), rs[1..]);
    }
  }

  function ConsecutiveFrames(rs: seq<Rcv>): seq<Rcv> {
    if rs == [] then [] else (if Kind(rs[0].f) == PCI_CF then [rs[0]] else []) + ConsecutiveFrames(rs[1..])
  }

  /** A module that is not sending, or is not told to stop, hears every consecutive frame. */
  lemma {:induction false} AllHeard(t: Tp, rs: seq<Rcv>)
    requires CfOrFc(rs)
    requires !t.pending || forall i :: 0 <= i < |rs| && Kind(rs[i].f) == PCI_FC ==> LowNibble(rs[i].f) != OVERFLOW
    ensures Heard(t, rs) == ConsecutiveFrames(rs)
    decreases |rs|
  {
    hide Kind, LowNibble, SendBlock;
    if rs != [] {
      var u := Handle(t, rs[0]);
      if !t.pending {
        assert !u.pending;
      }
      AllHeard(u, rs[1..]);
    }
  }

  function FlowControls(rs: seq<Rcv>): (fcs: seq<Rcv>)
    ensures AllFc(fcs)
  {
    if rs == [] then []
    else (if Kind(rs[0].f) == PCI_FC then [rs[0]] else []) + FlowControls(rs[1..])
  }

  /** And the other way round: consecutive frames of a reception do not change what the sender
      emits under the flow control among them. */
  lemma {:induction false} MixedSending(t: Tp, rs: seq<Rcv>)
    requires t.done <= |t.tx| && CfOrFc(rs)
    ensures HandleAll(t, rs).out
      == t.out + if t.pending then Rest(t)[..Min(Granted(FlowControls(rs)), |Rest(t)|)] else []
    decreases |rs|
  {
    hide Kind, LowNibble, SendBlock, Rest, Granted;
    var fcs := FlowControls(rs);
    if rs == [] {
      NoFrames(t);
      NoGrants();
    } else {
      var u, rest := Handle(t, rs[0]), FlowControls(rs[1..]);
      StepAll(t, rs);
      if Kind(rs[0].f) == PCI_CF {
        assert fcs == rest;
        CfKeepsTx(t, rs[0]);
        MixedSending(u, rs[1..]);
      } else {
        HandledDone(t, rs[0]);
        MixedSending(u, rs[1..]);
        assert fcs == [rs[0]] + rest;
        GrantStep(t, rs[0], rest, HandleAll(u, rs[1..]).out);
      }
    }
  }

  lemma NoGrants()
    ensures Granted([]) == 0
  {
  }

  lemma CfKeepsTx(t: Tp, r: Rcv)
    requires Kind(r.f) == PCI_CF && t.done <= |t.tx|
    ensures var u := Handle(t, r);
      && u.out == t.out && u.pending == t.pending && u.done == t.done && u.tx == t.tx
      && Rest(u) == Rest(t)
  {
  }

  // ---------------------------------------------------------------- polls and the timeout

  function Polled(polls: seq<Poll>): seq<Rcv> {
    if polls == [] then [] else At(polls[0].fs, polls[0].now) + Polled(polls[1..])
  }

  function RunPolls(t: Tp, polls: seq<Poll>): Tp
    decreases |polls|
  {
    if polls == [] then t else RunPolls(PollSpec(t, polls[0]), polls[1..])
  }

  /** No poll of the run sees the reception stalled for N_Cr. */
  predicate Timely(t: Tp, polls: seq<Poll>)
    decreases |polls|
  {
    polls != [] ==>
      var u := HandleAll(t, At(polls[0].fs, polls[0].now));
      !Expires(u, polls[0].now) && Timely(u, polls[1..])
  }

  lemma {:induction false} PollsAreFrames(t: Tp, polls: seq<Poll>)
    requires Timely(t, polls)
    ensures RunPolls(t, polls) == HandleAll(t, Polled(polls))
    decreases |polls|
  {
    hide Handle, Expires;
    if polls == [] {
      NoFrames(t);
    } else {
      var head := At(polls[0].fs, polls[0].now);
      var u := HandleAll(t, head);
      PollsAreFrames(u, polls[1..]);
      HandleAllAppend(t, head, Polled(polls[1..]));
    }
  }

  /** The same message through the super-loop's polls, however the frames fall into them. */
  lemma ClientThroughPolls(t: Tp, msg: seq<byte>, polls: seq<Poll>)
    requires |msg| <= MAX_PAYLOAD && !t.complete && Timely(t, polls)
    requires Carries(Polled(polls), Segments(msg))
    ensures TakeSpec(RunPolls(t, polls), MAX_PAYLOAD).0 == Some(msg)
  {
    hide Handle, Segments, Carries;
    PollsAreFrames(t, polls);
    ClientToTarget(t, msg, Polled(polls));
  }

  // ---------------------------------------------------------------- the sender under flow control

  predicate AllFc(rs: seq<Rcv>) {
    forall i :: 0 <= i < |rs| ==> Kind(rs[i].f) == PCI_FC
  }

  /** Frames granted before an overflow status: a zero block size grants 65535. */
  function Granted(rs: seq<Rcv>): nat {
    if rs == [] then 0
    else if LowNibble(rs[0].f) == OVERFLOW then 0
    else
      var n: nat := if LowNibble(rs[0].f) != CTS then 0 else if rs[0].f[1] == 0 then 0xFFFF else rs[0].f[1] as int;
      n + Granted(rs[1..])
  }

  function Rest(t: Tp): seq<seq<byte>>
    requires t.done <= |t.tx|
  {
    Tail(t.tx[t.done..], t.nextTx)
  }

  lemma {:induction false} BlockSends(t: Tp)
    requires t.done <= |t.tx|
    ensures var u, n := SendBlock(t), Min(t.block, |Rest(t)|);
      && u.out == t.out + Rest(t)[..n] && u.done <= |u.tx| && Rest(u) == Rest(t)[n..]
      && u.pending == (t.pending && Rest(u) != []) && (u.pending ==> u.tx == t.tx)
    decreases |t.tx| - t.done
  {
    hide SendOne, Rest;
    if t.done < |t.tx| && t.block > 0 {
      var f := OneSent(t);
      var u := SendOne(t);
      BlockSends(u);
      PushFront(f, Rest(u), Min(u.block, |Rest(u)|));
    } else {
      RestEmptyIff(t);
      assert Rest(t)[..0] == [] && Rest(t)[0..] == Rest(t);
    }
  }

  /** One round of the send loop takes the first frame of what is left. */
  lemma OneSent(t: Tp) returns (f: seq<byte>)
    requires t.done < |t.tx| && t.block > 0
    ensures var u := SendOne(t);
      && Rest(t) == [f] + Rest(u) && u.out == t.out + [f]
      && u.block == t.block - 1 && u.pending == t.pending && u.tx == t.tx
  {
    hide ConsecutiveFrame;
    var n := Min(CF_MAX, |t.tx| - t.done);
    var rest := t.tx[t.done..];
    assert rest[..n] == t.tx[t.done..t.done + n] && rest[n..] == t.tx[t.done + n..];
    f := ConsecutiveFrame(t.nextTx, rest[..n]);
  }

  lemma RestEmptyIff(t: Tp)
    requires t.done <= |t.tx|
    ensures Rest(t) == [] <==> t.done == |t.tx|
    ensures forall p :: Rest(t.(pending := p)) == Rest(t)
  {
  }

  lemma PushFront(f: seq<byte>, rest: seq<seq<byte>>, k: nat)
    requires k <= |rest|
    ensures ([f] + rest)[..k + 1] == [f] + rest[..k] && ([f] + rest)[k + 1..] == rest[k..]
  {
  }

  /** One flow-control frame and what the rest grants. */
  lemma GrantStep(t: Tp, r: Rcv, rest: seq<Rcv>, out: seq<seq<byte>>)
    requires t.done <= |t.tx| && Kind(r.f) == PCI_FC
    requires var u := Handle(t, r);
      && u.done <= |u.tx|
      && out == u.out + if u.pending then Rest(u)[..Min(Granted(rest), |Rest(u)|)] else []
    ensures out == t.out + if t.pending then Rest(t)[..Min(Granted([r] + rest), |Rest(t)|)] else []
  {
    hide Kind, LowNibble, SendBlock, Rest;
    assert ([r] + rest)[1..] == rest;
    if t.pending && LowNibble(r.f) == CTS {
      var bs := if r.f[1] == 0 then 0xFFFF else r.f[1] as int;
      BlockSends(t.(block := bs));
      SameRest(t, bs);
      var all := Rest(t);
      var n := Min(bs, |all|);
      PrefixSplit(all, n, Min(Granted(rest), |all| - n));
    }
  }

  lemma HandledDone(t: Tp, r: Rcv)
    requires t.done <= |t.tx| && Kind(r.f) == PCI_FC
    ensures Handle(t, r).done <= |Handle(t, r).tx|
  {
    hide Kind, LowNibble, SendBlock, Rest;
    BlockSends(t.(block := if r.f[1] == 0 then 0xFFFF else r.f[1] as int));
  }

  /** After any sequence of flow-control frames the sender has emitted exactly the granted
      number of frames of the canonical segmentation, in order. */
  lemma {:induction false} GrantsSend(t: Tp, rs: seq<Rcv>)
    requires t.done <= |t.tx| && AllFc(rs)
    ensures HandleAll(t, rs).out == t.out + if t.pending then Rest(t)[..Min(Granted(rs), |Rest(t)|)] else []
    decreases |rs|
  {
    hide Kind, LowNibble, Handle, Rest;
    if rs == [] {
      NoFrames(t);
    } else {
      StepAll(t, rs);
      HandledDone(t, rs[0]);
      GrantsSend(Handle(t, rs[0]), rs[1..]);
      assert [rs[0]] + rs[1..] == rs;
      GrantStep(t, rs[0], rs[1..], HandleAll(t, rs).out);
    }
  }

  lemma PrefixSplit(s: seq<seq<byte>>, n: nat, m: nat)
    requires n + m <= |s|
    ensures s[..n] + s[n..][..m] == s[..n + m]
  {
  }

  lemma SameRest(t: Tp, bs: u16)
    requires t.done <= |t.tx|
    ensures Rest(t.(block := bs)) == Rest(t)
  {
  }

  /** The frames on the bus for one message after the flow-control frames `rs`. */
  lemma SenderUnderFlowControl(t: Tp, msg: seq<byte>, rs: seq<Rcv>)
    requires SF_MAX < |msg| <= MAX_PAYLOAD && !t.pending && AllFc(rs)
    ensures SendSpec(t, msg).Some? && HandleAll(SendSpec(t, msg).value, rs).out == t.out + Emitted(msg, Granted(rs))
  {
    hide *;
    var u := SendStart(t, msg);
    GrantsSend(u, rs);
    EmittedIs(t.out, msg, Granted(rs));
  }

  lemma SendStart(t: Tp, msg: seq<byte>) returns (u: Tp)
    requires SF_MAX < |msg| <= MAX_PAYLOAD && !t.pending
    ensures SendSpec(t, msg) == Some(u) && u.out == t.out + [FirstFrame(msg)]
    ensures u.pending && u.done <= |u.tx| && Rest(u) == Tail(msg[FF_INITIAL..], 1)
  {
    u := SendSpec(t, msg).value;
  }

  lemma EmittedIs(base: seq<seq<byte>>, msg: seq<byte>, grants: nat)
    requires SF_MAX < |msg| <= MAX_PAYLOAD
    ensures var rest := Tail(msg[FF_INITIAL..], 1);
      base + [FirstFrame(msg)] + rest[..Min(grants, |rest|)] == base + Emitted(msg, grants)
  {
    hide Tail, FirstFrame;
  }

  /** The first frame and as many consecutive frames as were granted. */
  function Emitted(msg: seq<byte>, grants: nat): (fs: seq<seq<byte>>)
    requires SF_MAX < |msg| <= MAX_PAYLOAD
  {
    Segments(msg)[..1 + Min(grants, |Segments(msg)| - 1)]
  }

  lemma {:induction false} NeedAtMost(missing: nat, k: nat)
    requires k > 0
    ensures Need(missing) <= k <==> missing <= CF_MAX * k
  {
    if missing > CF_MAX {
      if k > 1 {
        NeedAtMost(missing - CF_MAX, k - 1);
      }
    }
  }

  /** With the one flow control of eight frames that a receiver of this kind sends, a message
      between two targets arrives exactly when it has at most 59 + 8 * 63 bytes. */
  lemma OneFlowControl(t: Tp, msg: seq<byte>, rs: seq<Rcv>)
    requires SF_MAX < |msg| <= MAX_PAYLOAD && !t.complete && Carries(rs, Emitted(msg, BLOCK_SIZE))
    ensures HandleAll(t, rs).complete <==> |msg| <= FF_INITIAL + CF_MAX * BLOCK_SIZE as int
    ensures HandleAll(t, rs).complete ==> HandleAll(t, rs).msg == msg
  {
    hide Handle, HandleAll, Kind, LowNibble, ConsecutiveFrame, FirstFrame, Delivers, Need, Tail;
    var rest := msg[FF_INITIAL..];
    var cfs := Tail(rest, 1);
    TailLength(rest, 1);
    NeedAtMost(|rest|, 8);
    var fs := Emitted(msg, BLOCK_SIZE);
    assert fs[0] <= rs[0].f;
    var n := Min(8, |cfs|);
    assert fs[1..] == cfs[..n];
    if |cfs| <= 8 {
      assert fs == Segments(msg);
      ClientToTarget(t, msg, rs);
    } else {
      FfStep(t, msg, rs[0]);
      assert forall i :: 0 <= i < n ==> fs[1 + i] == cfs[i] && fs[1 + i] <= rs[1 + i].f;
      CarriedAreCf(cfs, rs[1..], rest, 1);
      LossDetected(t, msg, rs[0], rs[1..]);
      assert forall i :: 1 <= i < |rs| ==> rs[i] == rs[1..][i - 1];
      StepAll(t, rs);
    }
  }

  lemma StepAll(t: Tp, rs: seq<Rcv>)
    requires rs != []
    ensures HandleAll(t, rs) == HandleAll(Handle(t, rs[0]), rs[1..])
  {
  }

  lemma CarriedAreCf(fs: seq<seq<byte>>, rs: seq<Rcv>, rest: seq<byte>, no: Nibble)
    requires fs == Tail(rest, no) && |rs| <= |fs| && forall i :: 0 <= i < |rs| ==> fs[i] <= rs[i].f
    ensures AllCf(rs)
  {
    forall i | 0 <= i < |rs|
      ensures Kind(rs[i].f) == PCI_CF
    {
      TailIsCf(rest, no, i);
      assert rs[i].f[0] == fs[i][0];
    }
  }

  lemma {:induction false} TailIsCf(rest: seq<byte>, no: Nibble, i: nat)
    requires i < |Tail(rest, no)|
    ensures var f := Tail(rest, no)[i]; 0 < |f| <= 64 && Kind(f) == PCI_CF
    decreases |rest|
  {
    if i > 0 {
      TailIsCf(rest[Min(CF_MAX, |rest|)..], (no + 1) % 16, i - 1);
    }
  }

  // ---------------------------------------------------------------- target to client

  /** Each frame on the wire is the frame sent, possibly padded. */
  predicate Wire(ws: seq<seq<byte>>, fs: seq<seq<byte>>) {
    |ws| == |fs| && forall i :: 0 <= i < |fs| ==> |ws[i]| <= 64 && fs[i] <= ws[i]
  }

  lemma {:induction false} CollectTail(buf: seq<byte>, rest: seq<byte>, exp: nat, ws: seq<seq<byte>>, k: nat)
    requires k <= |Tail(rest, exp % 16)| && Wire(ws, Tail(rest, exp % 16)[..k])
    ensures C.Collect(buf, |buf| + |rest|, exp, ws)
      == if k == |Tail(rest, exp % 16)| then C.Got(buf + rest) else C.Timeout
    decreases |rest|
  {
    hide Tail, C.Collect, ConsecutiveFrame, LowNibble;
    if rest == [] {
      CollectedAll(buf, exp, ws);
    } else {
      var n := Min(CF_MAX, |rest|);
      var p := TailStep(rest, exp);
      var (f, later) := p;
      if k == 0 {
        CollectsNothing(buf, rest, exp, ws);
      } else {
        assert ([f] + later)[..k][0] == f && ([f] + later)[..k][1..] == later[..k - 1];
        CollectStep(buf, rest, exp, ws);
        assert Wire(ws[1..], later[..k - 1]);
        CollectTail(buf + rest[..n], rest[n..], exp + 1, ws[1..], k - 1);
        Regroup(buf, rest, n);
      }
    }
  }

  lemma Regroup(buf: seq<byte>, rest: seq<byte>, n: nat)
    requires n <= |rest|
    ensures buf + rest[..n] + rest[n..] == buf + rest
  {
  }

  lemma CollectedAll(buf: seq<byte>, exp: nat, ws: seq<seq<byte>>)
    ensures Tail([], exp % 16) == [] && C.Collect(buf, |buf|, exp, ws) == C.Got(buf + [])
  {
    assert buf[..|buf|] == buf && buf + [] == buf;
  }

  lemma CollectsNothing(buf: seq<byte>, rest: seq<byte>, exp: nat, ws: seq<seq<byte>>)
    requires rest != [] && ws == []
    ensures C.Collect(buf, |buf| + |rest|, exp, ws) == C.Timeout
  {
  }

  lemma TailStep(rest: seq<byte>, exp: nat) returns (p: (seq<byte>, seq<seq<byte>>))
    requires rest != []
    ensures var n := Min(CF_MAX, |rest|);
      && p.0 == ConsecutiveFrame(exp % 16, rest[..n]) && p.1 == Tail(rest[n..], (exp + 1) % 16)
      && Tail(rest, exp % 16) == [p.0] + p.1
  {
    hide ConsecutiveFrame;
    var n := Min(CF_MAX, |rest|);
    assert (exp % 16 + 1) % 16 == (exp + 1) % 16;
    p := (ConsecutiveFrame(exp % 16, rest[..n]), Tail(rest[n..], (exp + 1) % 16));
  }

  lemma CollectStep(buf: seq<byte>, rest: seq<byte>, exp: nat, ws: seq<seq<byte>>)
    requires rest != [] && ws != [] && |ws[0]| <= 64
    requires ConsecutiveFrame(exp % 16, rest[..Min(CF_MAX, |rest|)]) <= ws[0]
    ensures var n := Min(CF_MAX, |rest|);
      C.Collect(buf, |buf| + |rest|, exp, ws)
        == C.Collect(buf + rest[..n], |buf + rest[..n]| + |rest[n..]|, exp + 1, ws[1..])
  {
    hide LowNibble, ConsecutiveFrame, Kind;
    var n := Min(CF_MAX, |rest|);
    FrameRead(exp % 16, rest[..n], ws[0]);
    SliceOf(ws[0], n, |rest|);
    assert |buf + rest[..n]| + |rest[n..]| == |buf| + |rest|;
  }

  lemma FrameRead(no: Nibble, chunk: seq<byte>, w: seq<byte>)
    requires |chunk| <= CF_MAX && ConsecutiveFrame(no, chunk) <= w
    ensures |w| > |chunk| && Kind(w) == PCI_CF && LowNibble(w) == no && w[1..1 + |chunk|] == chunk
  {
    var f := ConsecutiveFrame(no, chunk);
    assert w[0] == f[0] && w[..|f|] == f && f[1..] == chunk;
  }

  /** The client takes what is still missing, at most what the frame holds. */
  lemma SliceOf(w: seq<byte>, n: nat, missing: nat)
    requires 1 + n <= |w| <= 64 && n == Min(CF_MAX, missing)
    ensures C.Slice(w, 1, 1 + missing) == w[1..1 + n]
  {
  }

  /** The client, which also grants eight frames once, receives exactly the messages of at
      most 59 + 8 * 63 bytes; for longer ones it times out. */
  lemma TargetToClient(msg: seq<byte>, ws: seq<seq<byte>>)
    requires |msg| <= MAX_PAYLOAD
    requires Wire(ws, if |msg| <= SF_MAX then Segments(msg) else Emitted(msg, BLOCK_SIZE))
    ensures C.ReceiveSpec(ws) == if |msg| <= FF_INITIAL + CF_MAX * BLOCK_SIZE as int then C.Got(msg) else C.Timeout
  {
    hide Tail;
    if |msg| <= SF_MAX {
      var f := SingleFrame(msg);
      assert f <= ws[0] && ws[0][..|f|] == f;
      assert ws[0][0] == f[0] && ws[0][1] == f[1] && ws[0][2..2 + |msg|] == f[2..];
      assert C.Slice(ws[0], 2, 2 + |msg|) == ws[0][2..2 + |msg|];
    } else {
      var rest := msg[FF_INITIAL..];
      var cfs := Tail(rest, 1);
      TailLength(rest, 1);
      NeedAtMost(|rest|, 8);
      var fs, n := Emitted(msg, BLOCK_SIZE), Min(8, |cfs|);
      FirstRead(msg, ws, fs);
      assert fs[1..] == cfs[..n];
      assert Wire(ws[1..], fs[1..]);
      CollectTail(msg[..FF_INITIAL], rest, 1, ws[1..], n);
      assert msg[..FF_INITIAL] + rest == msg;
    }
  }

  lemma FirstRead(msg: seq<byte>, ws: seq<seq<byte>>, fs: seq<seq<byte>>)
    requires SF_MAX < |msg| <= MAX_PAYLOAD && Wire(ws, fs) && fs != [] && fs[0] == FirstFrame(msg)
    ensures ws[0] != [] && Kind(ws[0]) == PCI_FF
    ensures C.Slice(ws[0], 5, |ws[0]|) == msg[..FF_INITIAL] && BigEndian(C.Slice(ws[0], 1, 5)) == |msg|
  {
    assert ws[0] == fs[0];
    var b := C.Slice(ws[0], 1, 5);
    var hi, lo: byte := |msg| / 0x100, |msg| % 0x100;
    assert b == [] + [0] + [0] + [hi] + [lo];
    Push([], 0);
    Push([] + [0], 0);
    Push([] + [0] + [0], hi);
    Push([] + [0] + [0] + [hi], lo);
  }

  lemma Push(b: seq<byte>, x: byte)
    ensures BigEndian(b + [x]) == BigEndian(b) * 0x100 + x as int
  {
    assert (b + [x])[..|b|] == b;
  }
}
