/** The transport in a closed loop: two modules, or a module and the client, that get exactly
    each other's frames until neither has anything left to send. */
module IsoTpLoop {
  import opened Words
  import opened IsoTp
  import opened IsoTpTheorems
  import C = UdsClient

  // ---------------------------------------------------------------- two modules

  /** Sender and receiver of one message, and how many of each one's frames the other has got. */
  datatype Loop = Loop(x: Tp, y: Tp, i: nat, j: nat)

  datatype Move = ToY(r: Rcv) | ToX(r: Rcv)

  /** A move delivers the next frame of one side to the other, padded or not. */
  predicate Can(s: Loop, m: Move) {
    match m
    case ToY(r) => s.i < |s.x.out| && s.x.out[s.i] <= r.f
    case ToX(r) => s.j < |s.y.out| && s.y.out[s.j] <= r.f
  }

  function Go(s: Loop, m: Move): Loop {
    match m
    case ToY(r) => s.(y := Handle(s.y, r), i := s.i + 1)
    case ToX(r) => s.(x := Handle(s.x, r), j := s.j + 1)
  }

  /** A run for `msg`, whose frames so far start at `from` and `back`. */
  predicate Run(ss: seq<Loop>, ms: seq<Move>, x: Tp, y: Tp, msg: seq<byte>) {
    && |ss| == |ms| + 1 && SendSpec(x, msg).Some?
    && ss[0] == Loop(SendSpec(x, msg).value, y, |x.out|, |y.out|)
    && forall k {:trigger ms[k]} :: 0 <= k < |ms| ==> Can(ss[k], ms[k]) && ss[k + 1] == Go(ss[k], ms[k])
  }

  predicate Quiet(s: Loop) {
    s.i >= |s.x.out| && s.j >= |s.y.out|
  }

  /** The frames delivered to `y`, in order. */
  function Got(ms: seq<Move>): seq<Rcv> {
    if ms == [] then []
    else Got(ms[..|ms| - 1]) + match ms[|ms| - 1] case ToY(r) => [r] case ToX(_) => []
  }

  /** The first frame has been delivered and answered. */
  predicate AfterFirst(s: Loop, x: Tp, y: Tp, msg: seq<byte>)
    requires SF_MAX < |msg| <= MAX_PAYLOAD
  {
    && s.i == |x.out| + 1 && s.j == |y.out|
    && SendSpec(x, msg) == Some(s.x) && s.y.out == y.out + [FlowControl(CTS, BLOCK_SIZE, 0)]
  }

  /** From the flow control on: the granted frames are out and nothing comes back. */
  predicate Granting(s: Loop, x: Tp, y: Tp, msg: seq<byte>)
    requires SF_MAX < |msg| <= MAX_PAYLOAD
  {
    && s.x.out == x.out + Emitted(msg, BLOCK_SIZE) && |x.out| + 1 <= s.i <= |s.x.out|
    && s.j == |s.y.out| == |y.out| + 1
  }

  /** After `k` moves: the receiver has handled the first frames of what the sender emits. */
  predicate Progress(s: Loop, rs: seq<Rcv>, k: nat, x: Tp, y: Tp, msg: seq<byte>)
    requires SF_MAX < |msg| <= MAX_PAYLOAD
  {
    && s.y == HandleAll(y, rs) && s.i == |x.out| + |rs|
    && |rs| <= |Emitted(msg, BLOCK_SIZE)| && (forall n :: 0 <= n < |rs| ==> Emitted(msg, BLOCK_SIZE)[n] <= rs[n].f)
    && (if k == 0 then rs == [] && SendSpec(x, msg) == Some(s.x) && s.j == |y.out|
        else if k == 1 then |rs| == 1 && AfterFirst(s, x, y, msg)
        else |rs| == k - 1 && Granting(s, x, y, msg))
  }

  lemma GotAppend(ms: seq<Move>, m: Move)
    ensures Got(ms + [m]) == Got(ms) + match m case ToY(r) => [r] case ToX(_) => []
  {
    assert (ms + [m])[..|ms|] == ms;
  }

  lemma HandleNext(y: Tp, rs: seq<Rcv>, r: Rcv)
    ensures HandleAll(y, rs + [r]) == Handle(HandleAll(y, rs), r)
  {
    hide Handle;
    HandleAllAppend(y, rs, [r]);
    StepAll(HandleAll(y, rs), [r]);
    NoFrames(Handle(HandleAll(y, rs), r));
    assert [r][1..] == [];
  }

  lemma FirstMove(s: Loop, m: Move, x: Tp, y: Tp, msg: seq<byte>)
    requires SF_MAX < |msg| <= MAX_PAYLOAD && !x.pending && Progress(s, [], 0, x, y, msg) && Can(s, m)
    ensures m.ToY? && Progress(Go(s, m), [m.r], 1, x, y, msg)
  {
    hide Handle, HandleAll, FirstFrame, Tail;
    NoFrames(y);
    var u := SendStart(x, msg);
    assert u.out[|x.out|] == FirstFrame(msg);
    FfStep(y, msg, m.r);
    HandleNext(y, [], m.r);
    assert [] + [m.r] == [m.r];
  }

  lemma SecondMove(s: Loop, rs: seq<Rcv>, m: Move, x: Tp, y: Tp, msg: seq<byte>)
    requires SF_MAX < |msg| <= MAX_PAYLOAD && !x.pending && Progress(s, rs, 1, x, y, msg) && Can(s, m)
    ensures m.ToX? && Progress(Go(s, m), rs, 2, x, y, msg)
  {
    hide Handle, HandleAll, Emitted, Tail, FirstFrame;
    var u := SendStart(x, msg);
    var fc := FlowControl(CTS, BLOCK_SIZE, 0);
    assert s.y.out[s.j] == fc;
    IsGrant(m.r);
    SenderUnderFlowControl(x, msg, [m.r]);
    StepAll(u, [m.r]);
    NoFrames(Handle(u, m.r));
    assert [m.r][1..] == [];
    assert |Emitted(msg, BLOCK_SIZE)| >= 1 by { EmittedFirst(msg); }
  }

  /** The flow control a module sends grants eight frames. */
  lemma IsGrant(r: Rcv)
    requires FlowControl(CTS, BLOCK_SIZE, 0) <= r.f
    ensures AllFc([r]) && Granted([r]) == 8
  {
    var fc := FlowControl(CTS, BLOCK_SIZE, 0);
    assert r.f[0] == fc[0] && r.f[1] == fc[1];
    assert [r][1..] == [];
    assert Granted([]) == 0;
  }

  lemma EmittedFirst(msg: seq<byte>)
    requires SF_MAX < |msg| <= MAX_PAYLOAD
    ensures 1 <= |Emitted(msg, BLOCK_SIZE)| <= 1 + |Tail(msg[FF_INITIAL..], 1)|
    ensures Emitted(msg, BLOCK_SIZE)[0] == FirstFrame(msg)
    ensures Emitted(msg, BLOCK_SIZE)[1..] == Tail(msg[FF_INITIAL..], 1)[..|Emitted(msg, BLOCK_SIZE)| - 1]
  {
    hide Tail, FirstFrame;
  }

  lemma LaterMove(s: Loop, rs: seq<Rcv>, k: nat, m: Move, x: Tp, y: Tp, msg: seq<byte>)
    requires SF_MAX < |msg| <= MAX_PAYLOAD && k >= 2 && Progress(s, rs, k, x, y, msg) && Can(s, m)
    ensures m.ToY? && Progress(Go(s, m), rs + [m.r], k + 1, x, y, msg)
  {
    hide Handle, HandleAll, Emitted, Tail;
    HandleNext(y, rs, m.r);
    var fs := Emitted(msg, BLOCK_SIZE);
    assert s.x.out[s.i] == fs[|rs|];
    EmittedFirst(msg);
    assert fs[|rs|] == fs[1..][|rs| - 1];
    TailIsCf(msg[FF_INITIAL..], 1, |rs| - 1);
    assert m.r.f[0] == fs[|rs|][0];
    CfSendsNothing(s.y, m.r);
  }

  lemma CfSendsNothing(t: Tp, r: Rcv)
    requires Kind(r.f) == PCI_CF
    ensures Handle(t, r).out == t.out
  {
  }

  lemma {:induction false} Progresses(ss: seq<Loop>, ms: seq<Move>, x: Tp, y: Tp, msg: seq<byte>, k: nat)
    requires SF_MAX < |msg| <= MAX_PAYLOAD && !x.pending && Run(ss, ms, x, y, msg) && k <= |ms|
    ensures Progress(ss[k], Got(ms[..k]), k, x, y, msg)
  {
    hide Can, Go, Progress, SendSpec, Got;
    if k == 0 {
      AtStart(ss, ms, x, y, msg);
    } else {
      Progresses(ss, ms, x, y, msg, k - 1);
      var s, m := ss[k - 1], ms[k - 1];
      assert ms[..k] == ms[..k - 1] + [m];
      assert Can(s, m) && ss[k] == Go(s, m);
      GotAppend(ms[..k - 1], m);
      if k == 1 {
        GotNothing(ms);
        FirstMove(s, m, x, y, msg);
        assert [] + [m.r] == [m.r];
      } else if k == 2 {
        SecondMove(s, Got(ms[..1]), m, x, y, msg);
        assert Got(ms[..1]) + [] == Got(ms[..1]);
      } else {
        LaterMove(s, Got(ms[..k - 1]), k - 1, m, x, y, msg);
      }
    }
  }

  lemma GotNothing(ms: seq<Move>)
    ensures Got(ms[..0]) == []
  {
  }

  lemma AtStart(ss: seq<Loop>, ms: seq<Move>, x: Tp, y: Tp, msg: seq<byte>)
    requires SF_MAX < |msg| <= MAX_PAYLOAD && Run(ss, ms, x, y, msg)
    ensures Progress(ss[0], Got(ms[..0]), 0, x, y, msg)
  {
    hide Tail, FirstFrame;
    NoFrames(y);
  }

  /** Two modules and one message, in any state of the sender's receiver and the receiver's
      sender: every run comes to rest within ten deliveries, and then the message has arrived
      exactly if it has at most 59 + 8 * 63 bytes. */
  lemma LoopDelivers(ss: seq<Loop>, ms: seq<Move>, x: Tp, y: Tp, msg: seq<byte>)
    requires |msg| <= MAX_PAYLOAD && !x.pending && !y.complete && Run(ss, ms, x, y, msg)
    ensures |ms| <= 10
    ensures var s := ss[|ms|]; Quiet(s) ==>
      && (s.y.complete <==> |msg| <= FF_INITIAL + CF_MAX * BLOCK_SIZE as int)
      && (s.y.complete ==> s.y.msg == msg)
  {
    hide Handle, HandleAll, Emitted, Tail, FirstFrame;
    if |msg| <= SF_MAX {
      LoopOfOne(ss, ms, x, y, msg);
    } else {
      Progresses(ss, ms, x, y, msg, |ms|);
      EmittedAtMost(msg);
      var s, rs := ss[|ms|], Got(ms);
      assert ms[..|ms|] == ms;
      if Quiet(s) {
        SendFirst(x, msg);
        OneFlowControl(y, msg, rs);
      }
    }
  }

  lemma SendFirst(x: Tp, msg: seq<byte>)
    requires SF_MAX < |msg| <= MAX_PAYLOAD && !x.pending
    ensures SendSpec(x, msg).Some? && |SendSpec(x, msg).value.out| == |x.out| + 1
  {
    hide FirstFrame;
  }

  lemma EmittedAtMost(msg: seq<byte>)
    requires SF_MAX < |msg| <= MAX_PAYLOAD
    ensures 1 <= |Emitted(msg, BLOCK_SIZE)| <= 9
  {
    hide Tail, FirstFrame;
  }

  lemma NoMoves(s: Loop)
    requires Quiet(s)
    ensures forall m :: !Can(s, m)
  {
  }

  lemma SecondCan(ss: seq<Loop>, ms: seq<Move>, x: Tp, y: Tp, msg: seq<byte>)
    requires Run(ss, ms, x, y, msg)
    ensures |ms| > 1 ==> Can(ss[1], ms[1])
  {
    hide Can, Go, SendSpec;
  }

  lemma LoopOfOne(ss: seq<Loop>, ms: seq<Move>, x: Tp, y: Tp, msg: seq<byte>)
    requires |msg| <= SF_MAX && !x.pending && Run(ss, ms, x, y, msg)
    ensures |ms| <= 1 && (Quiet(ss[|ms|]) ==> ss[|ms|].y.complete && ss[|ms|].y.msg == msg)
  {
    hide Handle, SingleFrame;
    if |ms| > 0 {
      assert Can(ss[0], ms[0]) && ss[1] == Go(ss[0], ms[0]);
      assert ss[0].x.out[|x.out|] == SingleFrame(msg);
      SfStep(y, msg, ms[0].r);
      NoMoves(ss[1]);
      SecondCan(ss, ms, x, y, msg);
    }
  }

  // ---------------------------------------------------------------- a module and the client

  /** A module that gets what the client answers, and a client that gets what the module sends:
      the client receives exactly the messages of at most 59 + 8 * 63 bytes and times out on
      longer ones. */
  lemma ClientLoop(x: Tp, msg: seq<byte>, rs: seq<Rcv>, ws: seq<seq<byte>>)
    requires |msg| <= MAX_PAYLOAD && !x.pending && SendSpec(x, msg).Some? && Carries(rs, C.Answers(ws))
    requires var u := HandleAll(SendSpec(x, msg).value, rs); |x.out| <= |u.out| && Wire(ws, u.out[|x.out|..])
    ensures C.ReceiveSpec(ws) == if |msg| <= FF_INITIAL + CF_MAX * BLOCK_SIZE as int then C.Got(msg) else C.Timeout
  {
    hide Handle, HandleAll, Emitted, Tail, FirstFrame, SingleFrame, C.ReceiveSpec, Granted, Kind;
    var t := SendSpec(x, msg).value;
    if |msg| <= SF_MAX {
      ClientOfOne(x, msg, rs, ws);
      TargetToClient(msg, ws);
    } else {
      var u := SendStart(x, msg);
      AnswersAreGrants(ws, rs);
      SenderUnderFlowControl(x, msg, rs);
      var out := HandleAll(u, rs).out;
      assert out[|x.out|..] == Emitted(msg, Granted(rs));
      EmittedStart(msg, Granted(rs));
      assert ws[0] == FirstFrame(msg);
      FirstIsFf(msg);
      TargetToClient(msg, ws);
    }
  }

  lemma EmittedStart(msg: seq<byte>, n: nat)
    requires SF_MAX < |msg| <= MAX_PAYLOAD
    ensures |Emitted(msg, n)| > 0 && Emitted(msg, n)[0] == FirstFrame(msg)
  {
    hide Tail, FirstFrame;
  }

  lemma FirstIsFf(msg: seq<byte>)
    requires SF_MAX < |msg| <= MAX_PAYLOAD
    ensures Kind(FirstFrame(msg)) == PCI_FF
  {
  }

  lemma AnswersAreGrants(ws: seq<seq<byte>>, rs: seq<Rcv>)
    requires Carries(rs, C.Answers(ws))
    ensures AllFc(rs) && Granted(rs) == if C.Answers(ws) == [] then 0 else 8
  {
    if |rs| == 1 {
      assert C.Answers(ws)[0] <= rs[0].f;
      IsGrant(rs[0]);
      assert rs == [rs[0]];
    }
  }

  lemma ClientOfOne(x: Tp, msg: seq<byte>, rs: seq<Rcv>, ws: seq<seq<byte>>)
    requires |msg| <= SF_MAX && !x.pending && Carries(rs, C.Answers(ws))
    requires var u := HandleAll(SendSpec(x, msg).value, rs); |x.out| <= |u.out| && Wire(ws, u.out[|x.out|..])
    ensures Wire(ws, Segments(msg))
  {
    hide SingleFrame, Granted, Rest, Handle, HandleAll;
    var t := SendSpec(x, msg).value;
    AnswersAreGrants(ws, rs);
    NotSending(t, rs);
    assert t.out[|x.out|..] == [SingleFrame(msg)];
  }

  /** A module that sends nothing is not moved to by flow control. */
  lemma {:induction false} NotSending(t: Tp, rs: seq<Rcv>)
    requires !t.pending && AllFc(rs)
    ensures HandleAll(t, rs) == t
    decreases |rs|
  {
    if rs == [] {
      NoFrames(t);
    } else {
      StepAll(t, rs);
      NotSending(t, rs[1..]);
    }
  }
}
