/** The N_Cr timeout of 1000 ms: when a reception that is fed through polls completes, and that a stall
    ends it for good. */
module IsoTpPolls {
  import opened Words
  import opened IsoTp
  import opened IsoTpTheorems

  predicate AllCfPolls(polls: seq<Poll>) {
    forall i, j :: 0 <= i < |polls| && 0 <= j < |polls[i].fs| ==> Kind(polls[i].fs[j]) == PCI_CF
  }

  function Since(now: u32, last: u32): u32 {
    (now as int - last as int) % U32_MOD
  }

  /** No poll comes N_Cr or more after the last poll that brought a frame, or after `last` while
      none has. */
  predicate OnTime(last: u32, polls: seq<Poll>)
    decreases |polls|
  {
    polls != [] ==>
      if polls[0].fs == [] then Since(polls[0].now, last) < 1000 && OnTime(last, polls[1..])
      else OnTime(polls[0].now, polls[1..])
  }

  // ---------------------------------------------------------------- one poll

  /** A reception that is still open after the frames of a poll stays open exactly if less than
      N_Cr has passed since its last accepted frame; otherwise it ends in a timeout. */
  lemma PollTimesOut(t: Tp, p: Poll)
    requires HandleAll(t, At(p.fs, p.now)).state == RX_IN_PROGRESS
    ensures var u, v := HandleAll(t, At(p.fs, p.now)), PollSpec(t, p);
      if Since(p.now, u.last) < 1000 then v == u else v == u.(state := ERROR_TIMEOUT)
  {
    hide HandleAll;
  }

  /** Outside a reception a poll sees no timeout. */
  lemma NoTimeoutElse(t: Tp, p: Poll)
    requires HandleAll(t, At(p.fs, p.now)).state != RX_IN_PROGRESS
    ensures PollSpec(t, p) == HandleAll(t, At(p.fs, p.now))
  {
    hide HandleAll;
  }

  /** After a stall nothing that comes in consecutive frames completes the message or adds to it,
      whatever the polls: a late frame is ignored. */
  lemma {:induction false} LateFramesIgnored(t: Tp, polls: seq<Poll>)
    requires t.state != RX_IN_PROGRESS && AllCfPolls(polls)
    ensures RunPolls(t, polls) == t
    decreases |polls|
  {
    hide HandleAll;
    if polls != [] {
      var rs := At(polls[0].fs, polls[0].now);
      assert AllCf(rs);
      Settled(t, rs);
      NoTimeoutElse(t, polls[0]);
      assert AllCfPolls(polls[1..]);
      LateFramesIgnored(t, polls[1..]);
    }
  }

  lemma StallIsFinal(t: Tp, p: Poll, later: seq<Poll>)
    requires t.state == RX_IN_PROGRESS && p.fs == [] && Since(p.now, t.last) >= 1000 && AllCfPolls(later)
    ensures RunPolls(t, [p] + later) == t.(state := ERROR_TIMEOUT)
  {
    hide HandleAll;
    NoFrames(t);
    assert At([], p.now) == [];
    PollTimesOut(t, p);
    assert ([p] + later)[1..] == later;
    LateFramesIgnored(PollSpec(t, p), later);
  }

  // ---------------------------------------------------------------- the frames of one poll

  /** Consecutive frames all arriving at `now` finish the message, break it off, or leave it open
      with that time as its last; what later frames can still do is what is missing then. */
  lemma {:induction false} FramesOfPoll(t: Tp, rs: seq<Rcv>, more: seq<Rcv>, now: u32)
    requires t.state == RX_IN_PROGRESS && !t.complete && |t.msg| <= t.total && AllCf(rs) && AllCf(more)
    requires forall i :: 0 <= i < |rs| ==> rs[i].now == now
    ensures var u, missing := HandleAll(t, rs), t.total as int - |t.msg|;
      if u.complete then
        u.state == RX_COMPLETE && Delivers(rs, t.nextRx, missing) && Delivers(rs + more, t.nextRx, missing)
      else if u.state != RX_IN_PROGRESS then !Delivers(rs + more, t.nextRx, missing)
      else
        && |u.msg| <= u.total && u.total == t.total && u.last == (if rs == [] then t.last else now)
        && (Delivers(rs + more, t.nextRx, missing) <==> Delivers(more, u.nextRx, u.total as int - |u.msg|))
    decreases |rs|
  {
    hide Handle, HandleAll, Kind, LowNibble, Delivers;
    var missing := t.total as int - |t.msg|;
    if rs == [] {
      NoFrames(t);
      assert rs + more == more;
    } else {
      var u, rest := Handle(t, rs[0]), rs[1..];
      AllStep(t, rs);
      CfStep(t, rs[0]);
      CfTakesTime(t, rs[0]);
      assert rs + more == [rs[0]] + (rest + more) && rs == [rs[0]] + rest;
      DeliversCons(rs[0], rest + more, t.nextRx, missing);
      DeliversCons(rs[0], rest, t.nextRx, missing);
      if LowNibble(rs[0].f) != t.nextRx || missing <= CF_MAX {
        Settled(u, rest);
      } else {
        FramesOfPoll(u, rest, more, now);
      }
    }
  }

  /** An accepted frame restarts the time. */
  lemma CfTakesTime(t: Tp, r: Rcv)
    requires t.state == RX_IN_PROGRESS && Kind(r.f) == PCI_CF
    ensures LowNibble(r.f) == t.nextRx ==> Handle(t, r).last == r.now
  {
    hide Kind, LowNibble;
  }

  // ---------------------------------------------------------------- whole receptions

  /** The frames of these polls deliver the message, and none of the polls came too late. */
  predicate InTime(polls: seq<Poll>, last: u32, no: Nibble, missing: nat) {
    OnTime(last, polls) && Delivers(Polled(polls), no, missing)
  }

  function Missing(t: Tp): nat
    requires |t.msg| <= t.total
  {
    t.total - |t.msg|
  }

  lemma PolledFirst(p: Poll, rest: seq<Poll>)
    ensures Polled([p] + rest) == At(p.fs, p.now) + Polled(rest)
    ensures forall last :: OnTime(last, [p] + rest) <==>
      if p.fs == [] then Since(p.now, last) < 1000 && OnTime(last, rest) else OnTime(p.now, rest)
  {
    assert ([p] + rest)[1..] == rest;
  }

  lemma {:induction false} PolledAreCf(polls: seq<Poll>)
    requires AllCfPolls(polls)
    ensures AllCf(Polled(polls))
  {
    hide Kind;
    if polls != [] {
      assert AllCfPolls(polls[1..]);
      PolledAreCf(polls[1..]);
    }
  }

  lemma FramesAreCf(p: Poll, later: seq<Poll>)
    requires AllCfPolls([p] + later)
    ensures AllCf(At(p.fs, p.now)) && AllCf(Polled(later)) && AllCfPolls(later)
  {
    hide Kind;
    var polls, rs := [p] + later, At(p.fs, p.now);
    assert polls[0] == p;
    forall j | 0 <= j < |rs|
      ensures Kind(rs[j].f) == PCI_CF
    {
      assert Kind(polls[0].fs[j]) == PCI_CF;
    }
    forall i, j | 0 <= i < |later| && 0 <= j < |later[i].fs|
      ensures Kind(later[i].fs[j]) == PCI_CF
    {
      assert later[i] == polls[i + 1] && Kind(polls[i + 1].fs[j]) == PCI_CF;
    }
    PolledAreCf(later);
  }

  /** The first poll finishes the reception, ends it for good, or leaves the rest to the others. */
  lemma PollStep(t: Tp, p: Poll, later: seq<Poll>)
    requires t.state == RX_IN_PROGRESS && !t.complete && |t.msg| <= t.total && AllCfPolls([p] + later)
    ensures var u, polls := PollSpec(t, p), [p] + later;
      if u.complete then u.state == RX_COMPLETE && InTime([p], t.last, t.nextRx, Missing(t))
      else if u.state != RX_IN_PROGRESS then !InTime(polls, t.last, t.nextRx, Missing(t))
      else
        && |u.msg| <= u.total
        && (InTime(polls, t.last, t.nextRx, Missing(t)) <==> InTime(later, u.last, u.nextRx, Missing(u)))
  {
    hide HandleAll, Delivers, PollSpec, Kind, OnTime, Polled;
    var rs := At(p.fs, p.now);
    FramesAreCf(p, later);
    FramesOfPoll(t, rs, [], p.now);
    FramesOfPoll(t, rs, Polled(later), p.now);
    assert rs + [] == rs;
    PolledFirst(p, later);
    PolledFirst(p, []);
    NothingPolled(p.now);
    NothingPolled(t.last);
    assert [p] + [] == [p];
    var u := HandleAll(t, rs);
    if u.state == RX_IN_PROGRESS {
      PollTimesOut(t, p);
    } else {
      NoTimeoutElse(t, p);
    }
    if p.fs == [] {
      NoFrames(t);
    }
  }

  lemma NothingPolled(last: u32)
    ensures Polled([]) == [] && OnTime(last, [])
  {
  }

  lemma NoneDelivered(polls: seq<Poll>, last: u32, no: Nibble, missing: nat)
    ensures !InTime(polls[..0], last, no, missing)
  {
  }

  /** A reception through polls completes exactly when the frames of some first polls deliver the
      message and none of these polls came N_Cr or more after the last frame. */
  lemma {:induction false} CompletesInTime(t: Tp, polls: seq<Poll>)
    requires t.state == RX_IN_PROGRESS && !t.complete && |t.msg| <= t.total && AllCfPolls(polls)
    ensures RunPolls(t, polls).complete
      <==> exists n: nat {:trigger polls[..n]} :: n <= |polls| && InTime(polls[..n], t.last, t.nextRx, Missing(t))
    decreases |polls|
  {
    hide InTime, PollSpec, Kind, AllCfPolls;
    NoneDelivered(polls, t.last, t.nextRx, Missing(t));
    if polls != [] {
      var p, rest := polls[0], polls[1..];
      var u := PollSpec(t, p);
      assert polls == [p] + rest;
      FramesAreCf(p, rest);
      PollStep(t, p, rest);
      if u.state == RX_IN_PROGRESS {
        CompletesInTime(u, rest);
      } else {
        LateFramesIgnored(u, rest);
      }
      if u.complete {
        assert polls[..1] == [p];
      }
      if n: nat :| n <= |polls| && InTime(polls[..n], t.last, t.nextRx, Missing(t)) {
        FirstOf(t, polls, n);
      }
      if m: nat :| u.state == RX_IN_PROGRESS && m <= |rest| && InTime(rest[..m], u.last, u.nextRx, Missing(u)) {
        assert polls[..m + 1] == [p] + rest[..m];
        SomePolls(polls, m + 1);
        PollStep(t, p, rest[..m]);
      }
    }
  }

  lemma SomePolls(polls: seq<Poll>, n: nat)
    requires AllCfPolls(polls) && n <= |polls|
    ensures AllCfPolls(polls[..n])
  {
  }

  /** If the first `n` polls are in time, the first of them has not ended the reception, and the
      others are in time for what it left. */
  lemma FirstOf(t: Tp, polls: seq<Poll>, n: nat)
    requires t.state == RX_IN_PROGRESS && !t.complete && |t.msg| <= t.total && AllCfPolls(polls)
    requires n <= |polls| && InTime(polls[..n], t.last, t.nextRx, Missing(t))
    ensures polls != []
    ensures var u := PollSpec(t, polls[0]);
      u.complete || (u.state == RX_IN_PROGRESS && |u.msg| <= u.total && n > 0
                     && InTime(polls[1..][..n - 1], u.last, u.nextRx, Missing(u)))
  {
    hide InTime, PollSpec, Kind, AllCfPolls;
    NoneDelivered(polls, t.last, t.nextRx, Missing(t));
    SomePolls(polls, n);
    assert polls[..n] == [polls[0]] + polls[1..][..n - 1];
    PollStep(t, polls[0], polls[1..][..n - 1]);
  }
}
