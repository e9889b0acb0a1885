/** A failing property: start-up ignores a failed sender boot and boots the receiver anyway, so
    an accepted floor can reach a sender context without a store. When exactly that crashes
    a node, and that it happens. */
module SecocUnbooted {
  import opened Words
  import opened WorkFlash
  import opened SecocStore
  import opened SecocFreshness
  import opened SecocFrame
  import opened SecocRx
  import opened SecocApp
  import opened SecocSystem
  import opened SecocTheorems
  import opened SecocResync

  /** The node is up without a booted sender and accepts its peer's sync frame. */
  predicate Derefs(mac: Mac, cfg: Config, n: Sta, act: Act) {
    && act.Recv? && n.on && !n.ecu.tx.bound && act.id == cfg.syncRx && act.id in cfg.rxIds
    && ProcessSpec(mac, act.up, n.ecu.rx, n.ecu.st, act.id, act.frame, PduLen(act.id), act.f).verdict == Accept
  }

  /** An accepted sync carries a floor that the peer's boot announced, which is never 0. */
  lemma FloorIsPositive(mac: Mac, xc: Config, x: Sta, yc: Config, y: Sta, frame: seq<byte>, up: bool, k: nat)
    requires Peers(xc, yc) && Local(xc, x, k) && Local(yc, y, k) && Cross(y, x) && Cross(x, y)
    requires xc.syncRx in xc.rxIds && Unforged(mac, x, y, xc.syncRx, frame)
    requires VerifySpec(mac, up, xc.syncRx, frame, PduLen(xc.syncRx)).Verified?
    ensures var pdu := VerifySpec(mac, up, xc.syncRx, frame, PduLen(xc.syncRx)).pdu; |pdu| == 2 && GetU16(pdu) > 0
  {
    hide StoreOk, TxOk, RxOk, Increasing, Paid, VerifySpec, Unforged, PutU16, GetU16, GotOk;
    Authentic(mac, xc, x, yc, y, xc.syncRx, frame, up);
    var vr := VerifySpec(mac, up, xc.syncRx, frame, PduLen(xc.syncRx));
    var m := Msg(xc.syncRx, vr.epoch, vr.counter, vr.pdu, true);
    assert m in y.sent && m.id == yc.syncTx;
    var fl :| fl in y.floors && m.pdu == PutU16(fl);
    U16RoundTrip(fl);
  }

  /** Adopting a floor crashes exactly on an unbooted context that is below the floor. */
  lemma AdoptCrashes(tx: TxState, st: Store, floor: u16, f: Fault)
    ensures TxAdoptSpec(tx, st, floor, f).2 == Crash <==> floor > tx.epoch && !tx.bound
  {
    hide SaveSpec, ReadSlot;
    var rc: FlashRc := CommitSpec(st, tx.domain, floor, f).1;
  }

  lemma RecvCounts(mac: Mac, cfg: Config, n: Sta, id: u16, frame: seq<byte>, up: bool, f: Fault, g: Fault)
    ensures var n' := Do(mac, cfg, n, Recv(id, frame, up, f, g)); n'.boots == n.boots && n'.exhausted == n.exhausted
  {
    hide HandleSpec;
  }

  lemma CrashOf(mac: Mac, xc: Config, x: Sta, yc: Config, y: Sta, act: Act, k: nat)
    requires Peers(xc, yc) && xc.syncRx in xc.rxIds
    requires Local(xc, x, k) && Local(yc, y, k) && Cross(y, x) && Cross(x, y)
    requires act.Recv? ==> Unforged(mac, x, y, act.id, act.frame)
    ensures Do(mac, xc, x, act).crashes == x.crashes + if Derefs(mac, xc, x, act) then 1 else 0
    ensures Derefs(mac, xc, x, act) ==> !Do(mac, xc, x, act).on
  {
    hide StoreOk, Increasing, Paid, SentOk, GotOk, HighOk, RxOk, CommitSpec, PduLen, Peers, Cross, Unforged;
    hide VerifySpec, TxAdoptSpec, RxAcceptSpec;
    match act
    case Recv(id, frame, up, f, g) =>
      var r := ProcessSpec(mac, up, x.ecu.rx, x.ecu.st, id, frame, PduLen(id), f);
      if r.verdict == Accept && |r.pdu| >= 2 {
        AdoptCrashes(x.ecu.tx, r.st, GetU16(r.pdu), g);
      }
      if id == xc.syncRx && VerifySpec(mac, up, id, frame, PduLen(id)).Verified? {
        FloorIsPositive(mac, xc, x, yc, y, frame, up, k);
      }
    case _ =>
  }

  /** Over every run, exactly when a node crashes: in the steps in which it is up, its sender is
      unbooted and it accepts its peer's sync; it is then down until its next boot. */
  lemma CrashExactly(mac: Mac, ss: seq<Sys>, steps: seq<Step>, i: nat)
    requires Trace(mac, ss, steps) && Within(ss[|steps|]) && 2 * |steps| + 2 < U32_MOD && i < |steps|
    ensures var who := steps[i].who;
      var x, x' := Mine(ss[i], who), Mine(ss[i + 1], who);
      && x'.crashes == x.crashes + (if Derefs(mac, Cfg(who), x, steps[i].act) then 1 else 0)
      && (Derefs(mac, Cfg(who), x, steps[i].act) ==> !x'.on)
      && Mine(ss[i + 1], Flip(who)).crashes == Mine(ss[i], Flip(who)).crashes
  {
    hide Local, Cross, Do, Peers, Within, Derefs;
    TraceInv(mac, ss, steps, i);
    GatewayAndActuatorArePeers();
    var step := steps[i];
    assert Legal(mac, ss[i], step) && ss[i + 1] == Next(mac, ss[i], step);
    UnforgedSwapped(mac, ss[i], step);
    CrashOf(mac, Cfg(step.who), Mine(ss[i], step.who), Cfg(Flip(step.who)), Mine(ss[i], Flip(step.who)), step.act,
      2 * i);
  }

  /** A boot whose commit succeeds rules it out until the next boot: the sender stays booted. */
  lemma BootedStaysSafe(mac: Mac, cfg: Config, n: Sta, act: Act)
    requires n.on && n.ecu.tx.bound && !act.Boot?
    ensures Do(mac, cfg, n, act).ecu.tx.bound && !Derefs(mac, cfg, n, act)
  {
    hide CommitSpec, ProcessSpec, Secure;
  }

  /** It does happen: the gateway's first boot fails to save its epoch, and the actuator's
      first boot sync then takes the gateway down. */
  lemma CrashIsReachable(mac: Mac) returns (ss: seq<Sys>, steps: seq<Step>)
    ensures Trace(mac, ss, steps) && Within(ss[|steps|]) && |steps| == 4 && ss[4].a.crashes == 1
  {
    hide Do, Derefs, Local, Cross, Within, FrameOf, PadsTo, ProcessSpec, PutU16;
    var boots := [Step(A, Boot(EraseFault([], false))), Step(B, Boot(NoFault)), Step(B, SendSync(true, NoFault))];
    var s0 := Start();
    var s1 := Next(mac, s0, boots[0]);
    var s2 := Next(mac, s1, boots[1]);
    var s3 := Next(mac, s2, boots[2]);
    UpWithoutSender(mac);
    UpWithSender(mac);
    var m := SyncGoesOut(mac, s2.b);
    var wire := FrameOf(mac, m);
    var last := Step(A, Recv(0x2F0, wire, true, NoFault, NoFault));
    steps := boots + [last];
    ss := [s0, s1, s2, s3, Next(mac, s3, last)];
    assert PadsTo(FrameOf(mac, m), wire) by { PadsToItself(mac, m); }
    SentMayBeDelivered(mac, s3, B, A, m, wire, NoFault, NoFault, true);
    assert Trace(mac, ss, steps) by {
      assert steps[0] == boots[0] && steps[1] == boots[1] && steps[2] == boots[2] && steps[3] == last;
    }
    RecvCounts(mac, GATEWAY, s3.a, 0x2F0, wire, true, NoFault, NoFault);
    SmallCounts(mac, ss);
    TraceInv(mac, ss, steps, 3);
    CrashExactly(mac, ss, steps, 3);
    CrashExactly(mac, ss, steps, 2);
    CrashExactly(mac, ss, steps, 1);
    CrashExactly(mac, ss, steps, 0);
    assert steps[0].act.Boot? && steps[1].act.Boot? && steps[2].act.SendSync?;
    assert Derefs(mac, GATEWAY, s3.a, last.act) by {
      FreshIsAccepted(mac, GATEWAY, s3.a, m, wire, 6);
      AcceptedSyncDerefs(mac, s3.a, wire);
    }
    NoDerefElsewhere(mac, steps, ss);
  }

  lemma NoDerefElsewhere(mac: Mac, steps: seq<Step>, ss: seq<Sys>)
    requires |steps| == 4 && |ss| == 5 && forall i :: 0 <= i < 3 ==> !steps[i].act.Recv?
    ensures forall i, n, cfg :: 0 <= i < 3 ==> !Derefs(mac, cfg, n, steps[i].act)
  {
  }

  lemma AcceptedSyncDerefs(mac: Mac, n: Sta, wire: seq<byte>)
    requires n.on && !n.ecu.tx.bound
    requires ProcessSpec(mac, true, n.ecu.rx, n.ecu.st, 0x2F0, wire, PduLen(0x2F0), NoFault).verdict == Accept
    ensures Derefs(mac, GATEWAY, n, Recv(0x2F0, wire, true, NoFault, NoFault))
  {
    hide ProcessSpec;
    assert 0x2F0 in GATEWAY.rxIds;
  }

  lemma PadsToItself(mac: Mac, m: Msg)
    requires |m.pdu| + TRAILER_LEN <= MAX_DLEN
    ensures PadsTo(FrameOf(mac, m), FrameOf(mac, m))
  {
    var w := FrameOf(mac, m);
    FdLenLeast(|w|, 64);
  }

  /** First boots on factory-fresh nodes, without and with a successful save. */
  lemma UpWithoutSender(mac: Mac)
    ensures var n := Do(mac, GATEWAY, FactorySta(), Boot(EraseFault([], false)));
      && n.on && !n.ecu.tx.bound && n.ecu.rx.ids == GATEWAY.rxIds
      && n.ecu.rx.floor == 1 && n.ecu.rx.current == 0 && n.boots == 1 && n.exhausted == {} && n.crashes == 0
  {
    hide Mount;
    FactoryMount();
  }

  lemma UpWithSender(mac: Mac)
    ensures var n := Do(mac, ACTUATOR, FactorySta(), Boot(NoFault));
      && n.on && n.ecu.tx.bound && n.ecu.tx.ids == ACTUATOR.txIds && n.ecu.tx.epoch == 1
      && n.ecu.tx.counter == Zeros(2) && n.ecu.rx.floor == 1 && n.boots == 1 && n.exhausted == {} && n.sent == []
  {
    hide Mount, CommitSpec, Sound;
    FactoryMount();
    var st := MountStore([EMPTY_SLOT, EMPTY_SLOT]);
    CommitSound(st, DOM_TX, 1, NoFault);
    NextValues(ZERO_REC, DOM_TX, 1);
  }

  lemma FactoryMount()
    ensures Mount([EMPTY_SLOT, EMPTY_SLOT]) == Ram(Factory, NO_SLOT, ZERO_REC)
      && Sound(MountStore([EMPTY_SLOT, EMPTY_SLOT]))
  {
    assert ReadSlot(EMPTY_SLOT) == Empty;
  }

  lemma SyncGoesOut(mac: Mac, n: Sta) returns (m: Msg)
    requires n.on && n.ecu.tx.bound && n.ecu.tx.ids == ACTUATOR.txIds && n.ecu.tx.epoch == 1
      && n.ecu.tx.counter == Zeros(2)
    requires n.ecu.rx.floor == 1 && n.sent == []
    ensures m == Msg(0x2F0, 1, 1, PutU16(1), true) && |m.pdu| == PduLen(0x2F0) && |m.pdu| + TRAILER_LEN <= MAX_DLEN
    ensures var n' := Do(mac, ACTUATOR, n, SendSync(true, NoFault));
      n'.sent == [m] && n'.boots == n.boots && n'.exhausted == n.exhausted
  {
    hide PutU16;
    m := Msg(0x2F0, 1, 1, PutU16(1), true);
    assert FindSlot(ACTUATOR.txIds, 0x2F0) == Some(1);
  }

  lemma SmallCounts(mac: Mac, ss: seq<Sys>)
    requires |ss| == 5 && ss[4].a.boots + ss[4].b.boots < 3 && |ss[4].a.exhausted| == |ss[4].b.exhausted| == 0
    ensures Within(ss[4])
  {
  }
}
