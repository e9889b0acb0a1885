/** Resynchronisation: in every reachable state of two running nodes one of them can be heard, in
    particular the one that booted last; its sync is fresh to the peer, and once the peer has
    adopted the floor in it both directions are open: the peer's next frame is accepted with its
    original PDU, whatever CAN FD padding the controller adds. `SecocDeaf` says what happens when
    the sync is lost. */
module SecocResync {
  import opened Words
  import opened WorkFlash
  import opened SecocStore
  import opened SecocFreshness
  import opened SecocFrame
  import opened SecocRx
  import opened SecocApp
  import opened SecocSystem
  import opened SecocTheorems

  /** A node that is up with both its contexts booted. */
  predicate Running(n: Sta) {
    n.on && n.ecu.tx.bound
  }

  /** The epoch of `s` has reached the floor of `r`, so what `s` draws next is fresh to `r`. */
  predicate Open(s: Sta, r: Sta) {
    s.ecu.tx.epoch >= r.ecu.rx.floor
  }

  /** The frame a message went out as. */
  function FrameOf(mac: Mac, m: Msg): seq<byte>
    requires |m.pdu| + TRAILER_LEN <= MAX_DLEN
  {
    Secure(mac, true, m.id, m.epoch, m.counter, m.pdu, MAX_DLEN).value
  }

  /** Once the sender's epoch has reached the receiver's floor, whatever the sender draws
      next is fresh to the receiver. */
  lemma NextIsFresh(sc: Config, s: Sta, rc: Config, r: Sta, id: u16, f: Fault, k: nat)
    requires Peers(rc, sc) && Local(sc, s, k) && Local(rc, r, k) && Cross(s, r) && Room(s) && k + 1 < U32_MOD
    requires Running(s) && Running(r) && id in rc.rxIds
    requires Open(s, r)
    ensures var (_, _, rc, e, c) := TxNextSpec(s.ecu.tx, s.ecu.st, id, f);
            rc == Done ==> RxCheckSpec(r.ecu.rx, id, e, c) == Fresh
  {
    hide StoreOk, Increasing, Paid, CommitSpec, TxNextSpec;
    var tx, rx := s.ecu.tx, r.ecu.rx;
    assert Loadable(s.ecu.st, DOM_TX, tx.epoch);
    NextFacts(tx, s.ecu.st, id, f, k);
    var (_, _, done, e, c) := TxNextSpec(tx, s.ecu.st, id, f);
    SpentMax(s.sent);
    assert Loadable(r.ecu.st, DOM_RX, rx.current);
    if done == Done && e == rx.current {
      var i := FindSlot(rx.ids, id).value;
      if rx.high[i] != 0 {
        assert HighFrom(r.got, rx, i);
        var m :| m in r.got && m.id == id && m.epoch == rx.current && m.counter == rx.high[i];
        assert m in s.sent;
      }
    }
  }

  /** A sent frame is not a forgery, padded or not. */
  lemma SentIsUnforged(mac: Mac, x: Sta, y: Sta, m: Msg, wire: seq<byte>)
    requires m in y.sent && m.out && |m.pdu| == PduLen(m.id) && |m.pdu| + TRAILER_LEN <= MAX_DLEN
    requires PadsTo(FrameOf(mac, m), wire)
    ensures Unforged(mac, x, y, m.id, wire)
  {
    hide PutU16, PduLen;
    var plen := |m.pdu|;
    var w := FrameOf(mac, m);
    assert wire[..plen] == w[..plen] == m.pdu;
    assert wire[plen..plen + 4] == w[plen..plen + 4] == Freshness(m.epoch, m.counter);
    assert InputOf(m) == InputOfFrame(m.id, wire, plen);
  }

  /** Delivery of a fresh frame: accepted with its PDU, by a receiver whose saves succeed. */
  lemma FreshIsAccepted(mac: Mac, cfg: Config, n: Sta, m: Msg, wire: seq<byte>, k: nat)
    requires Local(cfg, n, k) && k + 1 < U32_MOD && n.on && m.id in cfg.rxIds
    requires 0 < |m.pdu| == PduLen(m.id) && |m.pdu| + TRAILER_LEN <= MAX_DLEN && m.out
    requires PadsTo(FrameOf(mac, m), wire)
    requires RxCheckSpec(n.ecu.rx, m.id, m.epoch, m.counter) == Fresh
    ensures var r := ProcessSpec(mac, true, n.ecu.rx, n.ecu.st, m.id, wire, PduLen(m.id), NoFault);
            && r.verdict == Accept && !r.cut && r.epoch == m.epoch && r.counter == m.counter && r.pdu == m.pdu
  {
    hide StoreOk, Increasing, RxAcceptSpec, VerifyLen, Secure, PadsTo, PduLen;
    SecureVerify(mac, m.id, m.epoch, m.counter, m.pdu, wire, MAX_DLEN) by { SecureAnswers(mac, m); }
    AcceptFacts(n.ecu.rx, n.ecu.st, m.id, m.epoch, m.counter, NoFault, k);
  }

  lemma SecureAnswers(mac: Mac, m: Msg)
    requires |m.pdu| + TRAILER_LEN <= MAX_DLEN
    ensures Secure(mac, true, m.id, m.epoch, m.counter, m.pdu, MAX_DLEN).Some?
  {
  }

  /** Sending with a working store and MAC: one message goes out, with the next value. */
  lemma SendGoesOut(mac: Mac, cfg: Config, n: Sta, id: u16, pdu: seq<byte>, k: nat)
    requires Local(cfg, n, k) && k + 1 < U32_MOD && Running(n) && Room(n)
    requires id in cfg.txIds && |pdu| + TRAILER_LEN <= MAX_DLEN
    ensures var n' := SendMsg(mac, n, id, pdu, true, NoFault);
            var (_, _, rc, e, c) := TxNextSpec(n.ecu.tx, n.ecu.st, id, NoFault);
            && rc == Done && n'.sent == n.sent + [Msg(id, e, c, pdu, true)] && Running(n')
            && n'.ecu.rx == n.ecu.rx && n'.ecu.tx.epoch >= n.ecu.tx.epoch
  {
    hide StoreOk, Increasing, TxNextSpec;
    assert Loadable(n.ecu.st, DOM_TX, n.ecu.tx.epoch);
    NextFacts(n.ecu.tx, n.ecu.st, id, NoFault, k);
  }

  /** The sync of a node that can be heard is fresh to its peer, however often the node has
      rebuilt it and whatever else it has sent since its boot. */
  lemma SyncIsFresh(mac: Mac, rc: Config, r: Sta, pc: Config, p: Sta, k: nat)
    requires Peers(rc, pc) && rc.syncTx in rc.txIds && rc.syncTx in pc.rxIds
    requires Local(rc, r, k) && Local(pc, p, k) && Cross(r, p) && Room(r) && k + 1 < U32_MOD
    requires Running(r) && Running(p) && Open(r, p)
    ensures var r1 := SendMsg(mac, r, rc.syncTx, SyncPdu(r.ecu.rx), true, NoFault);
            && |r1.sent| == |r.sent| + 1 && r1.got == r.got && r1.ecu.rx == r.ecu.rx && Running(r1) && Open(r1, p)
            && var m := r1.sent[|r.sent|];
               && m.id == rc.syncTx && m.pdu == SyncPdu(r.ecu.rx) && m.out
               && r1.sent == r.sent + [m]
               && RxCheckSpec(p.ecu.rx, m.id, m.epoch, m.counter) == Fresh
  {
    hide StoreOk, Increasing, Paid, TxNextSpec, RxCheckSpec, Secure, PduLen, HighOk;
    SendGoesOut(mac, rc, r, rc.syncTx, SyncPdu(r.ecu.rx), k);
    assert p.ecu.rx.floor in p.floors;
    NextIsFresh(rc, r, pc, p, rc.syncTx, NoFault, k);
  }

  /** A fresh sync frame is accepted, and the peer's epoch is then at least the floor in it. */
  lemma SyncIsHeard(mac: Mac, pc: Config, p: Sta, m: Msg, fl: u16, wire: seq<byte>, k: nat)
    requires Local(pc, p, k) && k + 2 < U32_MOD && Running(p)
    requires m.id in pc.rxIds && m.id == pc.syncRx && PduLen(m.id) == 2 && m.pdu == PutU16(fl) && m.out
    requires PadsTo(FrameOf(mac, m), wire)
    requires RxCheckSpec(p.ecu.rx, m.id, m.epoch, m.counter) == Fresh
    ensures var p2 := Do(mac, pc, p, Recv(m.id, wire, true, NoFault, NoFault));
            p2.got == p.got + [m] && Running(p2) && p2.ecu.tx.epoch >= fl && p2.ecu.rx.floor == p.ecu.rx.floor
  {
    hide StoreOk, Increasing, TxAdoptSpec, ProcessSpec, RxCheckSpec, PadsTo, FrameOf, PduLen, HighOk, TxOk, RxOk,
      PutU16, GetU16;
    FreshIsAccepted(mac, pc, p, m, wire, k);
    var q := ProcessSpec(mac, true, p.ecu.rx, p.ecu.st, m.id, wire, PduLen(m.id), NoFault);
    U16RoundTrip(fl);
    FloorStays(mac, p.ecu.rx, p.ecu.st, m.id, wire, PduLen(m.id));
    AcceptedTx(mac, pc, p, m.id, wire, k);
    AdoptFacts(p.ecu.tx, q.st, fl, NoFault, k + 1);
  }

  lemma FloorStays(mac: Mac, rx: RxState, st: Store, id: u16, wire: seq<byte>, plen: nat)
    ensures ProcessSpec(mac, true, rx, st, id, wire, plen, NoFault).rx.floor == rx.floor
  {
    hide CommitSpec, VerifySpec;
  }

  /** Accepting a frame leaves the sender context in step with the store. */
  lemma AcceptedTx(mac: Mac, cfg: Config, n: Sta, id: u16, wire: seq<byte>, k: nat)
    requires Local(cfg, n, k) && k + 1 < U32_MOD && n.on && id in cfg.rxIds && n.ecu.tx.bound
    requires ProcessSpec(mac, true, n.ecu.rx, n.ecu.st, id, wire, PduLen(id), NoFault).verdict == Accept
    ensures var q := ProcessSpec(mac, true, n.ecu.rx, n.ecu.st, id, wire, PduLen(id), NoFault);
            && StoreOk(q.st, k + 1) && q.st.ram.status != Broken
            && n.ecu.tx.domain == DOM_TX && n.ecu.tx.epoch == Val(q.st.ram.mirror, DOM_TX)
  {
    hide StoreOk, Increasing, RxAcceptSpec, VerifySpec, HighOk;
    AcceptLocal(mac, cfg, n, id, wire, true, NoFault, k);
    var vr := VerifySpec(mac, true, id, wire, PduLen(id));
    AcceptFacts(n.ecu.rx, n.ecu.st, id, vr.epoch, vr.counter, NoFault, k);
  }

  /** The frame of the last message a node sent, if any. */
  function FrameOfLast(mac: Mac, n: Sta): seq<byte> {
    if n.sent == [] || |n.sent[|n.sent| - 1].pdu| + TRAILER_LEN > MAX_DLEN then []
    else FrameOf(mac, n.sent[|n.sent| - 1])
  }

  function LastOf(n: Sta): Msg
    requires n.sent != []
  {
    n.sent[|n.sent| - 1]
  }

  lemma LastFrame(mac: Mac, n: Sta)
    requires n.sent != [] && |LastOf(n).pdu| + TRAILER_LEN <= MAX_DLEN
    ensures FrameOfLast(mac, n) == FrameOf(mac, LastOf(n))
  {
  }

  /** Any next frame of a peer whose epoch has reached the floor is accepted as it was sent. */
  lemma DataIsHeard(mac: Mac, rc: Config, r: Sta, pc: Config, p: Sta, id: u16, pdu: seq<byte>, wire: seq<byte>, k: nat)
    requires Peers(rc, pc) && id in rc.rxIds && 0 < |pdu| == PduLen(id) && |pdu| + TRAILER_LEN <= MAX_DLEN
    requires Local(rc, r, k) && Local(pc, p, k) && Cross(p, r) && Room(p) && k + 3 < U32_MOD
    requires Running(r) && Running(p) && Open(p, r) && id != rc.syncRx
    requires PadsTo(FrameOfLast(mac, SendMsg(mac, p, id, pdu, true, NoFault)), wire)
    ensures var p1 := SendMsg(mac, p, id, pdu, true, NoFault);
            var r2 := Do(mac, rc, r, Recv(id, wire, true, NoFault, NoFault));
            && |p1.sent| == |p.sent| + 1
            && p1.sent[|p.sent|].id == id && p1.sent[|p.sent|].pdu == pdu
            && r2.got == r.got + [p1.sent[|p.sent|]]
            && Unforged(mac, r, p1, id, wire)
            && Running(p1) && Running(r2) && Open(p1, r2)
            && r2.ecu.tx == r.ecu.tx && p1.ecu.rx == p.ecu.rx
  {
    hide StoreOk, Increasing, Paid, TxNextSpec, TxAdoptSpec, ProcessSpec, RxCheckSpec, PadsTo, Secure, PduLen, HighOk,
      TxOk, RxOk;
    SendGoesOut(mac, pc, p, id, pdu, k);
    var p1 := SendMsg(mac, p, id, pdu, true, NoFault);
    var m := p1.sent[|p.sent|];
    NextIsFresh(pc, p, rc, r, id, NoFault, k);
    FreshIsAccepted(mac, rc, r, m, wire, k);
    FloorStays(mac, r.ecu.rx, r.ecu.st, id, wire, PduLen(id));
    SentIsUnforged(mac, r, p1, m, wire);
  }

  // ---------------------------------------------------------------- over runs

  function Mine(s: Sys, who: Who): Sta {
    if who == A then s.a else s.b
  }

  function Flip(who: Who): Who {
    if who == A then B else A
  }

  function Cfg(who: Who): Config {
    if who == A then GATEWAY else ACTUATOR
  }

  /** In every reachable state a receiver's floor is at most one past the epoch its peer has
      made durable, and one past the highest epoch the peer has drawn. */
  lemma FloorFollowsSender(mac: Mac, ss: seq<Sys>, steps: seq<Step>, who: Who)
    requires Trace(mac, ss, steps) && Within(ss[|steps|]) && 2 * |steps| + 2 < U32_MOD
    requires Mine(ss[|steps|], who).on && Mine(ss[|steps|], who).ecu.rx.ids != []
    ensures var r, s := Mine(ss[|steps|], who), Mine(ss[|steps|], Flip(who));
            && r.ecu.rx.floor <= Spent(s.sent) + 1
            && r.ecu.rx.floor <= Val(Mount(s.ecu.st.slots).mirror, DOM_TX) + 1
  {
    hide StoreOk, TxOk, Increasing, Paid, HighOk, Next, Within;
    TraceInv(mac, ss, steps, |steps|);
    var s := Mine(ss[|steps|], Flip(who));
    DurableValues(Cfg(Flip(who)), s, 2 * |steps|);
    SpentMax(s.sent);
  }

  // ---------------------------------------------------------------- no deadlock

  /** A node that comes up from a boot with both contexts has an epoch at or above the floor
      of its peer. */
  lemma BootOpens(mac: Mac, xc: Config, x: Sta, yc: Config, y: Sta, f: Fault, k: nat)
    requires Local(xc, x, k) && Local(yc, y, k) && Cross(x, y) && Room(x) && k + 2 < U32_MOD
    requires IdsOk(xc.txIds) && IdsOk(xc.rxIds)
    ensures var x' := Do(mac, xc, x, Boot(f)); Running(x') && Running(y) ==> Open(x', y)
  {
    hide StoreOk, CommitSpec, Mount, Increasing, HighOk, Paid;
    var st := MountStore(x.ecu.st.slots);
    MountOk(x.ecu.st, k);
    SpentMax(x.sent);
    assert Loadable(x.ecu.st, DOM_TX, Val(st.ram.mirror, DOM_TX));
  }

  /** No other step lowers an epoch or moves a floor. */
  lemma StepKeeps(mac: Mac, cfg: Config, n: Sta, act: Act, k: nat)
    requires Local(cfg, n, k) && Room(n) && k + 2 < U32_MOD && !act.Boot?
    ensures var n' := Do(mac, cfg, n, act);
      Running(n') ==> Running(n) && n'.ecu.tx.epoch >= n.ecu.tx.epoch && n'.ecu.rx.floor == n.ecu.rx.floor
  {
    hide StoreOk, CommitSpec, Increasing, Secure, VerifySpec, HighOk, SentOk, GotOk, FindSlot;
    assert Loadable(n.ecu.st, DOM_TX, Val(n.ecu.st.ram.mirror, DOM_TX));
  }

  /** In every reachable state of two running nodes at least one of them can be heard. */
  lemma {:induction false} NoDeadlock(mac: Mac, ss: seq<Sys>, steps: seq<Step>, i: nat)
    requires Trace(mac, ss, steps) && Within(ss[|steps|]) && 2 * |steps| + 4 < U32_MOD && i <= |steps|
    requires Running(ss[i].a) && Running(ss[i].b)
    ensures Open(ss[i].a, ss[i].b) || Open(ss[i].b, ss[i].a)
  {
    hide Local, Cross, Within, Do, Legal, Room, Open, Running;
    if i > 0 {
      var s, step := ss[i - 1], steps[i - 1];
      WithinAll(mac, ss, steps, i - 1);
      TraceInv(mac, ss, steps, i - 1);
      RoomFromCross(s, 2 * (i - 1));
      GatewayAndActuatorArePeers();
      assert ss[i] == Next(mac, s, step);
      OneStep(mac, s, step, 2 * (i - 1));
      if !step.act.Boot? {
        NoDeadlock(mac, ss, steps, i - 1);
      }
    } else {
      NothingRuns();
    }
  }

  lemma NothingRuns()
    ensures !Running(Start().a) && !Running(Start().b)
  {
  }

  /** A step of `who`: a boot opens its direction, anything else keeps both as they are. */
  lemma OneStep(mac: Mac, s: Sys, step: Step, k: nat)
    requires Inv(s, k) && Room(s.a) && Room(s.b) && k + 2 < U32_MOD
    ensures var s', x, y := Next(mac, s, step), Mine(s, step.who), Mine(s, Flip(step.who));
      var x', y' := Mine(s', step.who), Mine(s', Flip(step.who));
      && y' == y
      && (step.act.Boot? && Running(x') && Running(y) ==> Open(x', y))
      && (!step.act.Boot? && Running(x') ==> Running(x) && (Open(x, y) ==> Open(x', y)) && (Open(y, x) ==> Open(y, x')))
  {
    hide Local, Cross, Do, Running;
    GatewayAndActuatorArePeers();
    var x, y := Mine(s, step.who), Mine(s, Flip(step.who));
    match step.act {
      case Boot(f) => BootOpens(mac, Cfg(step.who), x, Cfg(Flip(step.who)), y, f, k);
      case _ => StepKeeps(mac, Cfg(step.who), x, step.act, k);
    }
  }

  /** The node that booted last is such a node: from its boot on, until its peer boots, it can
      be heard whenever both run, whatever it has drawn, sent, received or failed to do. */
  lemma {:induction false} OpenSinceBoot(mac: Mac, ss: seq<Sys>, steps: seq<Step>, who: Who, i: nat, j: nat)
    requires Trace(mac, ss, steps) && Within(ss[|steps|]) && 2 * |steps| + 4 < U32_MOD && i < j <= |steps|
    requires steps[i].who == who && steps[i].act.Boot?
    requires forall m :: i < m < j ==> !(steps[m].who == Flip(who) && steps[m].act.Boot?)
    requires Running(Mine(ss[j], who)) && Running(Mine(ss[j], Flip(who)))
    ensures Open(Mine(ss[j], who), Mine(ss[j], Flip(who)))
    decreases j
  {
    hide Local, Cross, Within, Do, Legal, Room, Open, Running;
    var s, step := ss[j - 1], steps[j - 1];
    WithinAll(mac, ss, steps, j - 1);
    TraceInv(mac, ss, steps, j - 1);
    RoomFromCross(s, 2 * (j - 1));
    assert ss[j] == Next(mac, s, step);
    OneStep(mac, s, step, 2 * (j - 1));
    if j - 1 > i && !(step.who == who && step.act.Boot?) {
      OpenSinceBoot(mac, ss, steps, who, i, j - 1);
    }
  }

  // ---------------------------------------------------------------- the exchange

  /** The exchange, without faults: the sync of `who` goes out and reaches the peer
      as `sync`; the peer sends `pdu` on `id`, which arrives as `wire`. */
  function Exchange(who: Who, sync: seq<byte>, id: u16, pdu: seq<byte>, wire: seq<byte>): (steps: seq<Step>)
    ensures |steps| == 4
  {
    [Step(who, SendSync(true, NoFault)),
     Step(Flip(who), Recv(Cfg(who).syncTx, sync, true, NoFault, NoFault)),
     Step(Flip(who), Send(id, pdu, true, NoFault)),
     Step(who, Recv(id, wire, true, NoFault, NoFault))]
  }

  /** From any reachable state in which a node can be heard by its running peer, the exchange
      completes with any CAN FD padding of the two frames: the node accepts exactly the message
      the peer sent, with its PDU, and from then on both directions are open. */
  lemma ResyncCompletes(mac: Mac, ss: seq<Sys>, steps: seq<Step>, who: Who, sync: seq<byte>, id: u16, pdu: seq<byte>,
                        wire: seq<byte>)
    requires Trace(mac, ss, steps + Exchange(who, sync, id, pdu, wire))
    requires Within(ss[|steps| + 4]) && 2 * |steps| + 12 < U32_MOD
    requires Running(Mine(ss[|steps|], who)) && Running(Mine(ss[|steps|], Flip(who)))
    requires Open(Mine(ss[|steps|], who), Mine(ss[|steps|], Flip(who)))
    requires id in Cfg(who).rxIds && id != Cfg(who).syncRx && |pdu| == PduLen(id)
    requires PadsTo(FrameOfLast(mac, Mine(ss[|steps| + 1], who)), sync)
    requires PadsTo(FrameOfLast(mac, Mine(ss[|steps| + 3], Flip(who))), wire)
    ensures var sent := Mine(ss[|steps| + 3], Flip(who)).sent;
            && |sent| == |Mine(ss[|steps|], Flip(who)).sent| + 1
            && sent[|sent| - 1].id == id && sent[|sent| - 1].pdu == pdu
            && Mine(ss[|steps| + 4], who).got == Mine(ss[|steps|], who).got + [sent[|sent| - 1]]
    ensures var x, y := Mine(ss[|steps| + 4], who), Mine(ss[|steps| + 4], Flip(who));
            Running(x) && Running(y) && Open(x, y) && Open(y, x)
  {
    hide Local, Cross, Within, SendMsg, PutU16, FrameOf, Unforged, PadsTo, FrameOfLast, HandleSpec, Room, Peers,
      Exchange, PduLen;
    var n, k := |steps|, 2 * |steps|;
    var all := steps + Exchange(who, sync, id, pdu, wire);
    var rc, pc, other := Cfg(who), Cfg(Flip(who)), Flip(who);
    GatewayAndActuatorArePeers();
    ExchangeSteps(mac, ss, steps, who, sync, id, pdu, wire);
    WithinAll(mac, ss, all, n);
    WithinAll(mac, ss, all, n + 2);
    TraceInv(mac, ss, all, n);
    TraceInv(mac, ss, all, n + 2);
    SyncHalf(mac, ss[n], ss[n + 1], ss[n + 2], who, sync, k);
    DataHalf(mac, ss[n + 2], ss[n + 3], ss[n + 4], who, id, pdu, wire, k + 4);
  }

  lemma SyncHalf(mac: Mac, s: Sys, s1: Sys, s2: Sys, who: Who, sync: seq<byte>, k: nat)
    requires Inv(s, k) && Within(s) && k + 2 < U32_MOD
    requires Running(Mine(s, who)) && Running(Mine(s, Flip(who))) && Open(Mine(s, who), Mine(s, Flip(who)))
    requires s1 == Next(mac, s, Step(who, SendSync(true, NoFault)))
    requires s2 == Next(mac, s1, Step(Flip(who), Recv(Cfg(who).syncTx, sync, true, NoFault, NoFault)))
    requires PadsTo(FrameOfLast(mac, Mine(s1, who)), sync)
    ensures var x, y := Mine(s2, who), Mine(s2, Flip(who));
      && Running(x) && Running(y) && Open(x, y) && Open(y, x)
      && x.got == Mine(s, who).got && y.sent == Mine(s, Flip(who)).sent
  {
    hide Local, Cross, Within, SendMsg, PutU16, FrameOf, PadsTo, FrameOfLast, HandleSpec, Room, Peers;
    GatewayAndActuatorArePeers();
    RoomFromCross(s, k);
    SyncIsFresh(mac, Cfg(who), Mine(s, who), Cfg(Flip(who)), Mine(s, Flip(who)), k);
    LastFrame(mac, Mine(s1, who));
    SyncIsHeard(mac, Cfg(Flip(who)), Mine(s, Flip(who)), LastOf(Mine(s1, who)), Mine(s, who).ecu.rx.floor, sync, k);
  }

  lemma DataHalf(mac: Mac, s: Sys, s1: Sys, s2: Sys, who: Who, id: u16, pdu: seq<byte>, wire: seq<byte>, k: nat)
    requires Inv(s, k) && Within(s) && k + 3 < U32_MOD
    requires Running(Mine(s, who)) && Running(Mine(s, Flip(who)))
    requires Open(Mine(s, who), Mine(s, Flip(who))) && Open(Mine(s, Flip(who)), Mine(s, who))
    requires id in Cfg(who).rxIds && id != Cfg(who).syncRx && |pdu| == PduLen(id)
    requires s1 == Next(mac, s, Step(Flip(who), Send(id, pdu, true, NoFault)))
    requires s2 == Next(mac, s1, Step(who, Recv(id, wire, true, NoFault, NoFault)))
    requires PadsTo(FrameOfLast(mac, Mine(s1, Flip(who))), wire)
    ensures var x, y, sent := Mine(s2, who), Mine(s2, Flip(who)), Mine(s1, Flip(who)).sent;
      && Running(x) && Running(y) && Open(x, y) && Open(y, x)
      && |sent| == |Mine(s, Flip(who)).sent| + 1
      && sent[|sent| - 1].id == id && sent[|sent| - 1].pdu == pdu
      && x.got == Mine(s, who).got + [sent[|sent| - 1]]
  {
    hide Local, Cross, Within, SendMsg, PutU16, FrameOf, Unforged, PadsTo, FrameOfLast, HandleSpec, Room, Peers, Secure;
    GatewayAndActuatorArePeers();
    RoomFromCross(s, k);
    DataIsHeard(mac, Cfg(who), Mine(s, who), Cfg(Flip(who)), Mine(s, Flip(who)), id, pdu, wire, k);
  }

  lemma ExchangeSteps(mac: Mac, ss: seq<Sys>, steps: seq<Step>, who: Who, sync: seq<byte>, id: u16, pdu: seq<byte>,
                      wire: seq<byte>)
    requires Trace(mac, ss, steps + Exchange(who, sync, id, pdu, wire))
    ensures var n := |steps|;
            && |ss| == n + 5
            && ss[n + 1] == Next(mac, ss[n], Step(who, SendSync(true, NoFault)))
            && ss[n + 2] == Next(mac, ss[n + 1], Step(Flip(who), Recv(Cfg(who).syncTx, sync, true, NoFault, NoFault)))
            && ss[n + 3] == Next(mac, ss[n + 2], Step(Flip(who), Send(id, pdu, true, NoFault)))
            && ss[n + 4] == Next(mac, ss[n + 3], Step(who, Recv(id, wire, true, NoFault, NoFault)))
  {
    hide Next, Legal, Start;
    var n, all := |steps|, steps + Exchange(who, sync, id, pdu, wire);
    var tail := Exchange(who, sync, id, pdu, wire);
    assert all[n] == tail[0] && all[n + 1] == tail[1] && all[n + 2] == tail[2] && all[n + 3] == tail[3];
  }

  /** What makes the two deliveries of the exchange possible: a frame a node has sent may
      always be delivered, with any padding, in every reachable state. */
  lemma SentMayBeDelivered(mac: Mac, s: Sys, who: Who, to: Who, m: Msg, wire: seq<byte>, f: Fault, g: Fault, up: bool)
    requires m in Mine(s, who).sent && m.out && |m.pdu| == PduLen(m.id) && |m.pdu| + TRAILER_LEN <= MAX_DLEN
    requires PadsTo(FrameOf(mac, m), wire)
    ensures Legal(mac, s, Step(to, Recv(m.id, wire, up, f, g)))
  {
    hide PadsTo, FrameOf, Unforged, PduLen;
    SentIsUnforged(mac, Mine(s, Flip(who)), Mine(s, who), m, wire);
    UnforgedSwap(mac, s, who, m.id, wire);
  }

  lemma UnforgedSwap(mac: Mac, s: Sys, who: Who, id: u16, frame: seq<byte>)
    ensures Unforged(mac, Mine(s, who), Mine(s, Flip(who)), id, frame) <==> Unforged(mac, s.a, s.b, id, frame)
    ensures Unforged(mac, Mine(s, Flip(who)), Mine(s, who), id, frame) <==> Unforged(mac, s.a, s.b, id, frame)
  {
    hide PduLen, InputOfFrame, WireTag;
  }
}
