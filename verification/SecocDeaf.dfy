/** A failing property: the code sends its boot sync once, and when the one sync is lost the
    direction towards the node that booted stays closed. What closes a direction, exactly what
    opens it again, and that it happens. `r` is the receiver of the direction, `p` its sender. */
module SecocDeaf {
  import opened Words
  import opened WorkFlash
  import opened SecocStore
  import opened SecocFreshness
  import opened SecocFrame
  import opened SecocRx
  import opened SecocApp
  import opened SecocSystem
  import opened SecocTheorems
  import opened SecocResync
  import opened SecocUnbooted

  /** `r` has made every epoch that `p` ever drew durable, so its floor, now or from its next
      boot on, is above everything `p` has sent and, if `p` runs, above what it draws next. */
  predicate Deaf(r: Sta, p: Sta) {
    && Val(r.ecu.st.ram.mirror, DOM_RX) as int == Spent(p.sent)
    && (r.on && r.ecu.rx.ids != [] ==> r.ecu.rx.floor as int == Spent(p.sent) + 1)
    && (Running(p) ==> p.ecu.tx.epoch as int == Spent(p.sent))
  }

  /** The node accepts its peer's sync and adopts the floor in it. */
  predicate Adopts(mac: Mac, cfg: Config, n: Sta, act: Act) {
    && act.Recv? && Running(n) && act.id == cfg.syncRx && act.id in cfg.rxIds
    && var q := ProcessSpec(mac, act.up, n.ecu.rx, n.ecu.st, act.id, act.frame, PduLen(act.id), act.f);
       q.verdict == Accept && |q.pdu| >= 2 && TxAdoptSpec(n.ecu.tx, q.st, GetU16(q.pdu), act.g).2 == Done
  }

  /** A counter of the node has run out and the next epoch is committed. */
  predicate RollsOver(cfg: Config, n: Sta, act: Act) {
    && Running(n) && ((act.Send? && act.id != cfg.syncTx) || act.SendSync?)
    && var id := if act.Send? then act.id else cfg.syncTx;
       RunsOut(n.ecu.tx, id) && TxNextSpec(n.ecu.tx, n.ecu.st, id, act.f).2 == Done
  }

  /** The three ways in which a sender gets past the floor of a deaf receiver. */
  predicate Opens(mac: Mac, cfg: Config, n: Sta, act: Act) {
    (act.Boot? && Running(Do(mac, cfg, n, act))) || Adopts(mac, cfg, n, act) || RollsOver(cfg, n, act)
  }

  // ---------------------------------------------------------------- a closed direction

  /** Between two running nodes a direction is closed exactly when the receiver is deaf, and the
      floor is then one past the sender's epoch. */
  lemma ClosedIsDeaf(rc: Config, r: Sta, pc: Config, p: Sta, k: nat)
    requires Local(rc, r, k) && Local(pc, p, k) && Cross(p, r) && Running(r) && Running(p)
    ensures !Open(p, r) <==> Deaf(r, p)
    ensures !Open(p, r) ==> r.ecu.rx.floor as int == p.ecu.tx.epoch as int + 1
  {
    hide StoreOk, Increasing, Paid, HighOk;
    SpentMax(p.sent);
    assert Loadable(r.ecu.st, DOM_RX, r.ecu.rx.current);
    assert r.ecu.rx.floor in r.floors;
  }

  lemma SentBelow(cfg: Config, n: Sta, k: nat)
    requires Local(cfg, n, k) && Running(n)
    ensures Spent(n.sent) <= n.ecu.tx.epoch as int
  {
    hide StoreOk, Increasing, GotOk, RxOk, HighOk, FindSlot;
    SpentMax(n.sent);
  }

  /** A receiver that boots is deaf exactly when it loads the sender's present epoch, that is,
      has accepted a value of it before. No other step closes a direction (`OneStep`). */
  lemma BootDeafens(mac: Mac, rc: Config, r: Sta, pc: Config, p: Sta, f: Fault, k: nat)
    requires Local(rc, r, k) && Local(pc, p, k) && Cross(p, r) && Room(r) && Running(p) && k + 2 < U32_MOD
    requires IdsOk(rc.txIds) && IdsOk(rc.rxIds)
    ensures var r' := Do(mac, rc, r, Boot(f));
      Running(r') ==> (!Open(p, r') <==> Val(Mount(r.ecu.st.slots).mirror, DOM_RX) == p.ecu.tx.epoch)
  {
    hide StoreOk, CommitSpec, Mount, Increasing, HighOk, Paid, SentOk, GotOk, RxOk, FindSlot;
    var st := MountStore(r.ecu.st.slots);
    MountOk(r.ecu.st, k);
    SentBelow(pc, p, k);
    var m := st.ram.mirror;
    assert Loadable(r.ecu.st, DOM_RX, Val(m, DOM_RX)) && Loadable(r.ecu.st, DOM_TX, Val(m, DOM_TX));
    if st.ram.status != Broken {
      CommitOk(st, DOM_TX, (Load(st.ram, DOM_TX).GetOr(0) + 1) % U16_MOD, f, k + 1);
    }
  }

  // ---------------------------------------------------------------- one step of the receiver

  /** Nothing the bus can deliver to a deaf receiver is accepted. */
  lemma NothingHeard(mac: Mac, rc: Config, r: Sta, pc: Config, p: Sta, id: u16, frame: seq<byte>, up: bool, f: Fault,
                     k: nat)
    requires Peers(rc, pc) && Local(rc, r, k) && Local(pc, p, k) && r.on && id in rc.rxIds
    requires Deaf(r, p) && Unforged(mac, r, p, id, frame)
    ensures var q := ProcessSpec(mac, up, r.ecu.rx, r.ecu.st, id, frame, PduLen(id), f);
      q.verdict != Accept && q.rx == r.ecu.rx && q.st == r.ecu.st && !q.cut
  {
    hide StoreOk, Increasing, VerifySpec, Unforged, RxAcceptSpec, HighOk;
    if VerifySpec(mac, up, id, frame, PduLen(id)).Verified? {
      Authentic(mac, rc, r, pc, p, id, frame, up);
      SpentMax(p.sent);
    }
  }

  lemma ReceiverStep(mac: Mac, rc: Config, r: Sta, pc: Config, p: Sta, act: Act, k: nat)
    requires Peers(rc, pc) && Local(rc, r, k) && Local(pc, p, k) && Cross(p, r) && Room(r) && k + 2 < U32_MOD
    requires Deaf(r, p) && (act.Recv? ==> Unforged(mac, r, p, act.id, act.frame))
    ensures var r' := Do(mac, rc, r, act); Deaf(r', p) && r'.got == r.got
  {
    hide StoreOk, Increasing, Unforged, Paid, HighOk, InitSpec, TxNextSpec, Secure, ProcessSpec, Loadable, CommitSpec;
    match act
    case Boot(f) =>
      InitFacts(rc, r.ecu.st, f, k);
      MirrorLoads(Do(mac, rc, r, act).ecu.st);
    case PowerCut =>
    case Send(id, pdu, up, f) => if r.on { DrawKeeps(rc, r, id, f, k); }
    case SendSync(up, f) => if r.on { DrawKeeps(rc, r, rc.syncTx, f, k); }
    case Recv(id, frame, up, f, g) =>
      if r.on && id in rc.rxIds {
        NothingHeard(mac, rc, r, pc, p, id, frame, up, f, k);
      }
  }

  lemma MirrorLoads(st: Store)
    ensures Loadable(st, DOM_RX, Val(st.ram.mirror, DOM_RX)) && Loadable(st, DOM_TX, Val(st.ram.mirror, DOM_TX))
  {
  }

  /** Drawing a value leaves the receiver's epoch in the store. */
  lemma DrawKeeps(cfg: Config, n: Sta, id: u16, f: Fault, k: nat)
    requires Local(cfg, n, k) && Room(n) && n.on && k + 2 < U32_MOD
    ensures var (tx, st, rc, e, c) := TxNextSpec(n.ecu.tx, n.ecu.st, id, f);
      Val(st.ram.mirror, DOM_RX) == Val(n.ecu.st.ram.mirror, DOM_RX)
  {
    hide StoreOk, Increasing, HighOk, TxNextSpec;
    MirrorLoads(n.ecu.st);
    if n.ecu.tx.bound {
      NextFacts(n.ecu.tx, n.ecu.st, id, f, k);
    } else {
      UnbootedSends(n.ecu.st, id, f);
    }
  }

  // ---------------------------------------------------------------- one step of the sender

  /** What a draw does to the epoch: one more exactly when the counter had run out. */
  lemma DrawnEpoch(tx: TxState, st: Store, id: u16, f: Fault)
    requires tx.epoch < 0xFFFF
    ensures var (tx', _, rc, e, _) := TxNextSpec(tx, st, id, f);
      && tx'.bound == tx.bound && (rc == Done ==> e == tx'.epoch)
      && tx'.epoch as int == tx.epoch as int + if RunsOut(tx, id) && rc == Done then 1 else 0
  {
    hide CommitSpec;
  }

  lemma SenderDraws(mac: Mac, rc: Config, r: Sta, pc: Config, p: Sta, id: u16, pdu: seq<byte>, up: bool, f: Fault,
                    k: nat)
    requires Local(pc, p, k) && Room(p) && p.on && Deaf(r, p)
    ensures var p' := SendMsg(mac, p, id, pdu, up, f);
      Deaf(r, p') <==> !(Running(p) && RunsOut(p.ecu.tx, id) && TxNextSpec(p.ecu.tx, p.ecu.st, id, f).2 == Done)
  {
    hide StoreOk, Increasing, HighOk, TxNextSpec, Secure, SentOk, GotOk, RxOk;
    MirrorLoads(p.ecu.st);
    if p.ecu.tx.bound {
      DrawnEpoch(p.ecu.tx, p.ecu.st, id, f);
    } else {
      UnbootedSends(p.ecu.st, id, f);
    }
    var p' := SendMsg(mac, p, id, pdu, up, f);
    if p'.sent != p.sent {
      SpentAppend(p.sent, p'.sent[|p.sent|]);
    }
  }

  /** What a reception does to the sender's epoch: it rises exactly when a floor is adopted. */
  lemma SenderReceives(mac: Mac, pc: Config, p: Sta, id: u16, frame: seq<byte>, up: bool, f: Fault, g: Fault)
    ensures var act := Recv(id, frame, up, f, g);
      var p' := Do(mac, pc, p, act);
      && p'.sent == p.sent && (Running(p') ==> Running(p))
      && (Adopts(mac, pc, p, act) ==> Running(p') && p'.ecu.tx.epoch > p.ecu.tx.epoch)
      && (!Adopts(mac, pc, p, act) && Running(p') ==> p'.ecu.tx.epoch == p.ecu.tx.epoch)
  {
    hide ProcessSpec, CommitSpec;
  }

  lemma SenderStep(mac: Mac, rc: Config, r: Sta, pc: Config, p: Sta, act: Act, k: nat)
    requires Peers(rc, pc) && Local(pc, p, k) && Room(p) && k + 2 < U32_MOD && Deaf(r, p)
    ensures var p' := Do(mac, pc, p, act); Deaf(r, p') <==> !Opens(mac, pc, p, act)
  {
    hide StoreOk, Increasing, HighOk, InitSpec, TxNextSpec, HandleSpec, SendMsg, ProcessSpec, TxAdoptSpec, SentOk,
      GotOk, RxOk, Deaf;
    match act
    case Boot(f) => SenderBoots(mac, r, pc, p, f, k);
    case PowerCut => SenderOff(r, p);
    case Send(id, pdu, up, f) => if p.on && id != pc.syncTx { SenderDraws(mac, rc, r, pc, p, id, pdu, up, f, k); }
    case SendSync(up, f) => if p.on { SenderDraws(mac, rc, r, pc, p, pc.syncTx, SyncPdu(p.ecu.rx), up, f, k); }
    case Recv(id, frame, up, f, g) =>
      SenderReceives(mac, pc, p, id, frame, up, f, g);
      SameSent(r, p, Do(mac, pc, p, act));
  }

  lemma SenderOff(r: Sta, p: Sta)
    requires Deaf(r, p)
    ensures Deaf(r, p.(on := false))
  {
  }

  lemma SameSent(r: Sta, p: Sta, p': Sta)
    requires Deaf(r, p) && p'.sent == p.sent && (Running(p') ==> Running(p))
    ensures Deaf(r, p') <==> (Running(p') ==> p'.ecu.tx.epoch == p.ecu.tx.epoch)
  {
  }

  lemma SenderBoots(mac: Mac, r: Sta, pc: Config, p: Sta, f: Fault, k: nat)
    requires Local(pc, p, k) && Room(p) && k + 2 < U32_MOD && Deaf(r, p) && IdsOk(pc.txIds) && IdsOk(pc.rxIds)
    ensures var p' := Do(mac, pc, p, Boot(f)); Deaf(r, p') <==> !Running(p')
  {
    hide StoreOk, InitSpec, Increasing, Loadable, GotOk, HighOk;
    InitFacts(pc, p.ecu.st, f, k);
    SpentMax(p.sent);
  }

  // ---------------------------------------------------------------- over runs

  lemma TracePeers(mac: Mac, ss: seq<Sys>, steps: seq<Step>, who: Who, i: nat)
    requires Trace(mac, ss, steps) && Within(ss[|steps|]) && 2 * |steps| + 4 < U32_MOD && i <= |steps|
    ensures var r, p := Mine(ss[i], who), Mine(ss[i], Flip(who));
      && Local(Cfg(who), r, 2 * i) && Local(Cfg(Flip(who)), p, 2 * i) && Cross(p, r) && Cross(r, p) && Room(r)
      && Room(p)
      && Peers(Cfg(who), Cfg(Flip(who)))
      && (i < |steps| && steps[i].act.Recv? ==> Unforged(mac, r, p, steps[i].act.id, steps[i].act.frame))
  {
    hide Local, Cross, Within, Next, Room, Unforged, Peers;
    TraceInv(mac, ss, steps, i);
    WithinAll(mac, ss, steps, i);
    RoomFromCross(ss[i], 2 * i);
    GatewayAndActuatorArePeers();
    if i < |steps| {
      assert Legal(mac, ss[i], steps[i]);
      if steps[i].act.Recv? {
        UnforgedSwap(mac, ss[i], who, steps[i].act.id, steps[i].act.frame);
      }
    }
  }

  /** In every reachable state of two running nodes a closed direction has a deaf receiver, with
      its floor one past the sender's epoch. */
  lemma ClosedMeansDeaf(mac: Mac, ss: seq<Sys>, steps: seq<Step>, who: Who, i: nat)
    requires Trace(mac, ss, steps) && Within(ss[|steps|]) && 2 * |steps| + 4 < U32_MOD && i <= |steps|
    requires Running(Mine(ss[i], who)) && Running(Mine(ss[i], Flip(who)))
    ensures var r, p := Mine(ss[i], who), Mine(ss[i], Flip(who));
      && (!Open(p, r) <==> Deaf(r, p))
      && (!Open(p, r) ==> r.ecu.rx.floor as int == p.ecu.tx.epoch as int + 1)
  {
    hide Local, Cross, Within, Next, Room, Unforged, Peers, Deaf, Running;
    TracePeers(mac, ss, steps, who, i);
    ClosedIsDeaf(Cfg(who), Mine(ss[i], who), Cfg(Flip(who)), Mine(ss[i], Flip(who)), 2 * i);
  }

  /** Over every run, exactly what closes a direction between two nodes that keep running: a boot
      of the receiver that loads the sender's present epoch. */
  lemma ClosesExactly(mac: Mac, ss: seq<Sys>, steps: seq<Step>, who: Who, i: nat)
    requires Trace(mac, ss, steps) && Within(ss[|steps|]) && 2 * |steps| + 4 < U32_MOD && i < |steps|
    requires Running(Mine(ss[i], Flip(who))) && Running(Mine(ss[i + 1], who)) && Running(Mine(ss[i + 1], Flip(who)))
    requires Open(Mine(ss[i], Flip(who)), Mine(ss[i], who))
    ensures !Open(Mine(ss[i + 1], Flip(who)), Mine(ss[i + 1], who)) <==>
      && steps[i].who == who && steps[i].act.Boot?
      && Val(Mount(Mine(ss[i], who).ecu.st.slots).mirror, DOM_RX) == Mine(ss[i], Flip(who)).ecu.tx.epoch
  {
    hide Local, Cross, Within, Do, Room, Unforged, Peers, Running, Mount;
    TracePeers(mac, ss, steps, who, i);
    TraceInv(mac, ss, steps, i);
    GatewayAndActuatorArePeers();
    var r, p, step := Mine(ss[i], who), Mine(ss[i], Flip(who)), steps[i];
    assert ss[i + 1] == Next(mac, ss[i], step);
    OneStep(mac, ss[i], step, 2 * i);
    if step.act.Boot? {
      if step.who == who {
        BootDeafens(mac, Cfg(who), r, Cfg(Flip(who)), p, step.act.f, 2 * i);
      } else {
        BootOpens(mac, Cfg(Flip(who)), p, Cfg(who), r, step.act.f, 2 * i);
      }
    }
  }

  /** Over every run, exactly what ends deafness: the sender comes up from a boot, adopts a
      floor, or rolls over. In that step and any other the deaf node accepts nothing. */
  lemma DeafExactly(mac: Mac, ss: seq<Sys>, steps: seq<Step>, who: Who, i: nat)
    requires Trace(mac, ss, steps) && Within(ss[|steps|]) && 2 * |steps| + 4 < U32_MOD && i < |steps|
    requires Deaf(Mine(ss[i], who), Mine(ss[i], Flip(who)))
    ensures Mine(ss[i + 1], who).got == Mine(ss[i], who).got
    ensures Deaf(Mine(ss[i + 1], who), Mine(ss[i + 1], Flip(who)))
      <==> !(steps[i].who == Flip(who) && Opens(mac, Cfg(Flip(who)), Mine(ss[i], Flip(who)), steps[i].act))
  {
    hide Local, Cross, Within, Do, Room, Unforged, Peers, Deaf, Opens;
    TracePeers(mac, ss, steps, who, i);
    var r, p, act := Mine(ss[i], who), Mine(ss[i], Flip(who)), steps[i].act;
    assert ss[i + 1] == Next(mac, ss[i], steps[i]);
    if steps[i].who == who {
      ReceiverStep(mac, Cfg(who), r, Cfg(Flip(who)), p, act, 2 * i);
    } else {
      SenderStep(mac, Cfg(who), r, Cfg(Flip(who)), p, act, 2 * i);
    }
  }

  /** So without such a step it lasts, through any number of reboots of the deaf node, syncs it
      draws and frames it is sent: it never accepts anything. */
  lemma {:induction false} StaysDeaf(mac: Mac, ss: seq<Sys>, steps: seq<Step>, who: Who, i: nat, j: nat)
    requires Trace(mac, ss, steps) && Within(ss[|steps|]) && 2 * |steps| + 4 < U32_MOD && i <= j <= |steps|
    requires Deaf(Mine(ss[i], who), Mine(ss[i], Flip(who)))
    requires forall m :: i <= m < j ==>
      !(steps[m].who == Flip(who) && Opens(mac, Cfg(Flip(who)), Mine(ss[m], Flip(who)), steps[m].act))
    ensures Mine(ss[j], who).got == Mine(ss[i], who).got && Deaf(Mine(ss[j], who), Mine(ss[j], Flip(who)))
    decreases j
  {
    hide Within, Next, Deaf, Opens;
    if i < j {
      StaysDeaf(mac, ss, steps, who, i, j - 1);
      DeafExactly(mac, ss, steps, who, j - 1);
    }
  }

  /** A rollover is no quick remedy: it takes at least 65535 draws of one ID in the epoch. */
  lemma RolloverTakes(mac: Mac, ss: seq<Sys>, steps: seq<Step>, who: Who, i: nat)
    requires Trace(mac, ss, steps) && i < |steps| && RollsOver(Cfg(who), Mine(ss[i], who), steps[i].act)
    ensures UsedUp(Mine(ss[i], who).sent, Mine(ss[i], who).ecu.tx.epoch)
  {
    hide Next, Legal, TxNextSpec;
    RolloverCost(mac, ss, steps, i);
    var n, act := Mine(ss[i], who), steps[i].act;
    var id := if act.Send? then act.id else Cfg(who).syncTx;
    var slot := FindSlot(n.ecu.tx.ids, id).value;
    assert Draws(n.sent, n.ecu.tx.ids[slot], n.ecu.tx.epoch) >= 0xFFFF;
  }

  // ---------------------------------------------------------------- it happens

  lemma OneMore(mac: Mac, ss: seq<Sys>, steps: seq<Step>, step: Step) returns (ss': seq<Sys>, steps': seq<Step>)
    requires Trace(mac, ss, steps) && Legal(mac, ss[|steps|], step)
    ensures ss' == ss + [Next(mac, ss[|steps|], step)] && steps' == steps + [step] && Trace(mac, ss', steps')
  {
    hide Next, Legal, Start;
    ss', steps' := ss + [Next(mac, ss[|steps|], step)], steps + [step];
    forall i {:trigger steps'[i]} | 0 <= i < |steps'|
      ensures Legal(mac, ss'[i], steps'[i]) && ss'[i + 1] == Next(mac, ss'[i], steps'[i])
    {
      if i < |steps| {
        assert steps'[i] == steps[i] && ss'[i] == ss[i] && ss'[i + 1] == ss[i + 1];
      }
    }
  }

  /** The first boot of a factory-fresh node without a fault. */
  lemma FirstBoot(mac: Mac, cfg: Config)
    requires IdsOk(cfg.txIds) && IdsOk(cfg.rxIds)
    ensures var n := Do(mac, cfg, FactorySta(), Boot(NoFault));
      && Running(n) && n.ecu.tx.epoch == 1 && n.ecu.rx.floor == 1 && n.boots == 1 && n.exhausted == {}
  {
    hide Mount, CommitSpec, Sound;
    FactoryMount();
    var st := MountStore([EMPTY_SLOT, EMPTY_SLOT]);
    CommitSound(st, DOM_TX, 1, NoFault);
    NextValues(ZERO_REC, DOM_TX, 1);
  }

  /** A node with a record boots again without a fault. */
  lemma BootsAgain(mac: Mac, cfg: Config, n: Sta, k: nat)
    requires Local(cfg, n, k) && Room(n) && k + 2 < U32_MOD && n.ecu.st.ram.status == Ok
    requires IdsOk(cfg.txIds) && IdsOk(cfg.rxIds)
    ensures Running(Do(mac, cfg, n, Boot(NoFault)))
  {
    hide CommitSpec, Mount, Increasing, HighOk, Sound, SentOk, GotOk;
    MountSound(n.ecu.st);
    MountOk(n.ecu.st, k);
    var st := MountStore(n.ecu.st.slots);
    MirrorLoads(st);
    CommitOk(st, DOM_TX, (Load(st.ram, DOM_TX).GetOr(0) + 1) % U16_MOD, NoFault, k + 1);
  }

  lemma SentEpoch(mac: Mac, n: Sta, id: u16, pdu: seq<byte>, up: bool, f: Fault)
    requires n.ecu.tx.epoch < 0xFFFF
    ensures var n' := SendMsg(mac, n, id, pdu, up, f);
      && n'.boots == n.boots && |n'.exhausted| <= |n.exhausted| + 1
      && (|n'.sent| > |n.sent| ==> n'.sent[|n.sent|].epoch == n'.ecu.tx.epoch)
  {
    hide TxNextSpec, Secure;
    DrawnEpoch(n.ecu.tx, n.ecu.st, id, f);
  }

  /** A node that has accepted a value of its peer's present epoch has a record, and loads that
      epoch. */
  lemma LoadsPeerEpoch(rc: Config, r: Sta, pc: Config, p: Sta, m: Msg, k: nat)
    requires Local(rc, r, k) && Local(pc, p, k) && Cross(p, r) && Running(p) && k + 1 < U32_MOD
    requires m in r.got && m.epoch == p.ecu.tx.epoch > 0
    ensures r.ecu.st.ram.status == Ok && Val(Mount(r.ecu.st.slots).mirror, DOM_RX) == p.ecu.tx.epoch
  {
    hide StoreOk, Increasing, HighOk, Paid, Mount;
    MountOk(r.ecu.st, k);
    SpentMax(p.sent);
    MirrorLoads(MountStore(r.ecu.st.slots));
    assert r.ecu.st.ram.status != Ok ==> r.ecu.st.ram.mirror == ZERO_REC by { StatusOk(r.ecu.st, k); }
  }

  lemma StatusOk(st: Store, k: nat)
    requires StoreOk(st, k)
    ensures st.ram.status != Ok ==> st.ram.mirror == ZERO_REC
  {
    hide Sound;
  }

  /** The gateway's data reaches the actuator, which accepts it. */
  lemma DataArrives(mac: Mac, a: Sta, b: Sta, k: nat) returns (wire: seq<byte>)
    requires Local(GATEWAY, a, k) && Local(ACTUATOR, b, k) && Cross(a, b) && Room(a) && k + 3 < U32_MOD
    requires Running(a) && Running(b) && Open(a, b)
    ensures var a', b' := SendMsg(mac, a, 0x120, [0], true, NoFault),
      Do(mac, ACTUATOR, b, Recv(0x120, wire, true, NoFault, NoFault));
      && Running(a') && Running(b') && Unforged(mac, b, a', 0x120, wire)
      && a'.boots == a.boots && |a'.exhausted| <= |a.exhausted| + 1
      && b'.got != [] && b'.got[|b'.got| - 1].epoch == a'.ecu.tx.epoch && a'.ecu.tx.epoch >= a.ecu.tx.epoch
  {
    hide Local, Cross, SendMsg, Room, HandleSpec, Secure, FrameOf, PadsTo, Unforged, FrameOfLast;
    GatewayAndActuatorArePeers();
    var a' := SendMsg(mac, a, 0x120, [0], true, NoFault);
    SendGoesOut(mac, GATEWAY, a, 0x120, [0], k) by { assert 0x120 in GATEWAY.txIds; }
    wire := FrameOfLast(mac, a');
    LastFrame(mac, a');
    PadsToItself(mac, LastOf(a'));
    DataIsHeard(mac, ACTUATOR, b, GATEWAY, a, 0x120, [0], wire, k) by { assert 0x120 in ACTUATOR.rxIds; }
    RoomEpoch(GATEWAY, a, k);
    SentEpoch(mac, a, 0x120, [0], true, NoFault);
  }

  lemma RoomEpoch(cfg: Config, n: Sta, k: nat)
    requires Local(cfg, n, k) && Running(n) && Room(n)
    ensures n.ecu.tx.epoch < 0xFFFF
  {
    hide StoreOk, Increasing, HighOk;
    MirrorLoads(n.ecu.st);
  }

  predicate Few(s: Sys) {
    s.a.boots + s.b.boots <= 3 && |s.a.exhausted| <= 1 && |s.b.exhausted| <= 1
  }

  lemma FewIsWithin(s: Sys)
    requires Few(s)
    ensures Within(s)
  {
  }

  lemma BootCounts(mac: Mac, cfg: Config, n: Sta)
    ensures var n' := Do(mac, cfg, n, Boot(NoFault));
      n'.boots == n.boots + 1 && n'.exhausted == n.exhausted && n'.got == n.got && n'.sent == n.sent
  {
    hide InitSpec;
  }

  /** Both nodes up for the first time: each can be heard by the other. */
  lemma TwoBooted(mac: Mac) returns (ss: seq<Sys>, steps: seq<Step>)
    ensures Trace(mac, ss, steps) && |steps| == 2 && Few(ss[2])
    ensures ss[2].a.boots == ss[2].b.boots == 1 && ss[2].a.exhausted == ss[2].b.exhausted == {}
    ensures Running(ss[2].a) && Running(ss[2].b) && Open(ss[2].a, ss[2].b) && ss[2].a.ecu.tx.epoch > 0
  {
    hide Do, Running;
    FirstBoot(mac, GATEWAY);
    FirstBoot(mac, ACTUATOR);
    BootCounts(mac, GATEWAY, FactorySta());
    BootCounts(mac, ACTUATOR, FactorySta());
    ss, steps := [Start()], [];
    ss, steps := OneMore(mac, ss, steps, Step(A, Boot(NoFault)));
    ss, steps := OneMore(mac, ss, steps, Step(B, Boot(NoFault)));
  }

  /** The gateway sends a command and the actuator accepts it. */
  lemma OneCommand(mac: Mac) returns (ss: seq<Sys>, steps: seq<Step>)
    ensures Trace(mac, ss, steps) && |steps| == 4 && Few(ss[4])
    ensures ss[4].a.boots == ss[4].b.boots == 1 && |ss[4].a.exhausted| <= 1 && ss[4].b.exhausted == {}
    ensures Running(ss[4].a) && Running(ss[4].b) && ss[4].b.got != []
    ensures ss[4].b.got[|ss[4].b.got| - 1].epoch == ss[4].a.ecu.tx.epoch > 0
  {
    hide Do, Running, Local, Cross, Room, Within, Unforged, Peers, Open, SendMsg;
    ss, steps := TwoBooted(mac);
    var a, b := ss[2].a, ss[2].b;
    FewIsWithin(ss[2]);
    TracePeers(mac, ss, steps, B, 2);
    var wire := DataArrives(mac, a, b, 4);
    DoSends(mac, a);
    ss, steps := OneMore(mac, ss, steps, Step(A, Send(0x120, [0], true, NoFault)));
    UnforgedSwap(mac, ss[3], B, 0x120, wire);
    ss, steps := OneMore(mac, ss, steps, Step(B, Recv(0x120, wire, true, NoFault, NoFault)));
    RecvCounts(mac, ACTUATOR, b, 0x120, wire, true, NoFault, NoFault);
  }

  lemma DoSends(mac: Mac, n: Sta)
    requires Running(n)
    ensures Do(mac, GATEWAY, n, Send(0x120, [0], true, NoFault)) == SendMsg(mac, n, 0x120, [0], true, NoFault)
  {
    hide SendMsg;
  }

  lemma DoSyncs(mac: Mac, n: Sta)
    requires Running(n)
    ensures Do(mac, ACTUATOR, n, SendSync(true, NoFault)) == SendMsg(mac, n, 0x2F0, SyncPdu(n.ecu.rx), true, NoFault)
  {
    hide SendMsg;
  }

  /** Then the actuator boots again, and the direction towards it is closed. */
  lemma ActuatorReboots(mac: Mac) returns (ss: seq<Sys>, steps: seq<Step>)
    ensures Trace(mac, ss, steps) && |steps| == 5 && Few(ss[5]) && steps[4] == Step(B, Boot(NoFault))
    ensures ss[5].a.boots == 1 && ss[5].b.boots == 2 && |ss[5].a.exhausted| <= 1 && ss[5].b.exhausted == {}
    ensures Running(ss[5].a) && Running(ss[5].b) && !Open(ss[5].a, ss[5].b) && ss[5].b.got != []
  {
    hide Do, Running, Local, Cross, Room, Within, Unforged, Peers, Open;
    ss, steps := OneCommand(mac);
    var a, b := ss[4].a, ss[4].b;
    FewIsWithin(ss[4]);
    TracePeers(mac, ss, steps, B, 4);
    LoadsPeerEpoch(ACTUATOR, b, GATEWAY, a, b.got[|b.got| - 1], 8);
    GatewayAndActuatorArePeers();
    BootsAgain(mac, ACTUATOR, b, 8);
    BootDeafens(mac, ACTUATOR, b, GATEWAY, a, NoFault, 8);
    BootCounts(mac, ACTUATOR, b);
    ss, steps := OneMore(mac, ss, steps, Step(B, Boot(NoFault)));
  }

  /** Its sync goes out and is lost. Both nodes run, and by `StaysDeaf` the actuator then hears
      nothing. */
  lemma DeafIsReachable(mac: Mac) returns (ss: seq<Sys>, steps: seq<Step>)
    ensures Trace(mac, ss, steps) && Within(ss[|steps|]) && |steps| == 6
    ensures steps[4] == Step(B, Boot(NoFault)) && steps[5] == Step(B, SendSync(true, NoFault))
    ensures |ss[6].b.sent| == |ss[5].b.sent| + 1 && ss[6].b.sent[|ss[5].b.sent|].out && ss[6].b.got != []
    ensures Running(ss[6].a) && Running(ss[6].b) && !Open(ss[6].a, ss[6].b) && Deaf(ss[6].b, ss[6].a)
  {
    hide Do, Running, Local, Cross, Room, Within, Unforged, Peers, SendMsg, Deaf;
    ss, steps := ActuatorReboots(mac);
    FewIsWithin(ss[5]);
    TracePeers(mac, ss, steps, B, 5);
    var b := ss[5].b;
    DoSyncs(mac, b);
    GotStays(mac, b);
    SendGoesOut(mac, ACTUATOR, b, 0x2F0, SyncPdu(b.ecu.rx), 10) by { assert 0x2F0 in ACTUATOR.txIds; }
    RoomEpoch(ACTUATOR, b, 10);
    SentEpoch(mac, b, 0x2F0, SyncPdu(b.ecu.rx), true, NoFault);
    ss, steps := OneMore(mac, ss, steps, Step(B, SendSync(true, NoFault)));
    FewIsWithin(ss[6]);
    ClosedMeansDeaf(mac, ss, steps, B, 6);
  }

  lemma GotStays(mac: Mac, n: Sta)
    ensures SendMsg(mac, n, 0x2F0, SyncPdu(n.ecu.rx), true, NoFault).got == n.got
  {
    hide BuildSpec;
  }
}
