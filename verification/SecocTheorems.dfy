/** What the two-node system guarantees over every run: delivery in order and at most once,
    strictly increasing freshness at both ends, and the epoch budget. */
module SecocTheorems {
  import opened Words
  import opened WorkFlash
  import opened SecocStore
  import opened SecocFreshness
  import opened SecocFrame
  import opened SecocRx
  import opened SecocApp
  import opened SecocSystem

  // ---------------------------------------------------------------- the invariant along a run

  lemma StartInv()
    ensures Inv(Start(), 0)
  {
    assert ReadSlot(EMPTY_SLOT) == Empty;
    assert Below({}, 0) == {};
  }

  lemma NextInv(mac: Mac, s: Sys, step: Step, k: nat)
    requires Inv(s, k) && Within(s) && Legal(mac, s, step) && k + 2 < U32_MOD
    ensures Inv(Next(mac, s, step), k + 2)
  {
    hide Local, Cross, Do, Peers, Unforged, Room, PduLen;
    GatewayAndActuatorArePeers();
    RoomFromCross(s, k);
    assert Spent(s.a.sent) <= Val(s.a.ecu.st.ram.mirror, DOM_TX)
      && Spent(s.b.sent) <= Val(s.b.ecu.st.ram.mirror, DOM_TX) by {
      RoomOneWay(GATEWAY, s.a, ACTUATOR, s.b, k);
      RoomOneWay(ACTUATOR, s.b, GATEWAY, s.a, k);
    }
    match step.who
    case A =>
      LocalMore(ACTUATOR, s.b, k, k + 2);
      DoInv(mac, GATEWAY, s.a, ACTUATOR, s.b, step.act, k);
    case B =>
      UnforgedSwapped(mac, s, step);
      LocalMore(GATEWAY, s.a, k, k + 2);
      DoInv(mac, ACTUATOR, s.b, GATEWAY, s.a, step.act, k);
  }

  lemma UnforgedSwapped(mac: Mac, s: Sys, step: Step)
    requires Legal(mac, s, step)
    ensures step.act.Recv? ==> Unforged(mac, s.b, s.a, step.act.id, step.act.frame)
  {
  }

  lemma DoInv(mac: Mac, xc: Config, x: Sta, yc: Config, y: Sta, act: Act, k: nat)
    requires Peers(xc, yc) && Local(xc, x, k) && Local(yc, y, k) && Cross(x, y) && Cross(y, x) && Room(x)
      && k + 2 < U32_MOD
    requires act.Recv? ==> Unforged(mac, x, y, act.id, act.frame)
    requires Spent(x.sent) <= Val(x.ecu.st.ram.mirror, DOM_TX)
    ensures var x' := Do(mac, xc, x, act); Local(xc, x', k + 2) && Cross(x', y) && Cross(y, x')
  {
    hide StoreOk, TxOk, RxOk, SentOk, GotOk, SendMsg, Unforged, Peers, Room, PduLen, HandleSpec, InitSpec;
    LocalMore(xc, x, k, k + 2);
    match act
    case Boot(f) => BootCross(mac, xc, x, yc, y, f, k);
    case PowerCut => OffLocal(xc, x, k + 2);
    case Send(id, pdu, up, f) =>
      if x.on && id != xc.syncTx {
        SendCross(mac, xc, x, y, id, pdu, up, f, k);
        LocalMore(xc, SendMsg(mac, x, id, pdu, up, f), k + 1, k + 2);
      }
    case SendSync(up, f) =>
      if x.on {
        SendCross(mac, xc, x, y, xc.syncTx, SyncPdu(x.ecu.rx), up, f, k);
        LocalMore(xc, SendMsg(mac, x, xc.syncTx, SyncPdu(x.ecu.rx), up, f), k + 1, k + 2);
      }
    case Recv(id, frame, up, f, g) =>
      if x.on {
        RecvCross(mac, xc, x, yc, y, id, frame, up, f, g, k);
      }
  }

  lemma OffLocal(cfg: Config, n: Sta, k: nat)
    requires Local(cfg, n, k)
    ensures Local(cfg, n.(on := false), k)
  {
    hide StoreOk, Increasing;
  }

  /** Boots and exhausted epochs are only ever added. */
  lemma WithinBefore(mac: Mac, s: Sys, step: Step)
    requires Within(Next(mac, s, step))
    ensures Within(s)
  {
    hide InitSpec, HandleSpec, BuildSpec;
    var s' := Next(mac, s, step);
    SubsetSize(s.a.exhausted, s'.a.exhausted);
    SubsetSize(s.b.exhausted, s'.b.exhausted);
  }

  lemma {:induction false} WithinAll(mac: Mac, ss: seq<Sys>, steps: seq<Step>, i: nat)
    requires Trace(mac, ss, steps) && i <= |steps| && Within(ss[|steps|])
    ensures Within(ss[i])
    decreases |steps| - i
  {
    hide Next, Within, Legal, Start;
    if i < |steps| {
      WithinAll(mac, ss, steps, i + 1);
      WithinBefore(mac, ss[i], steps[i]);
    }
  }

  lemma {:induction false} TraceInv(mac: Mac, ss: seq<Sys>, steps: seq<Step>, i: nat)
    requires Trace(mac, ss, steps) && i <= |steps| && Within(ss[|steps|]) && 2 * |steps| + 2 < U32_MOD
    ensures Inv(ss[i], 2 * i)
  {
    hide Next, Within, Legal, Start, Inv;
    if i == 0 {
      StartInv();
    } else {
      TraceInv(mac, ss, steps, i - 1);
      WithinAll(mac, ss, steps, i - 1);
      NextInv(mac, ss[i - 1], steps[i - 1], 2 * (i - 1));
    }
  }

  // ---------------------------------------------------------------- delivery

  /** The messages of one ID, in order. */
  function OnId(ms: seq<Msg>, id: u16): (r: seq<Msg>)
    ensures forall m :: m in r <==> m in ms && m.id == id
  {
    if ms == [] then []
    else
      var init, last := ms[..|ms| - 1], ms[|ms| - 1];
      assert ms == init + [last];
      if last.id == id then OnId(init, id) + [last] else OnId(init, id)
  }

  /** `xs` comes from `ys` by leaving elements out. */
  ghost predicate Subsequence(xs: seq<Msg>, ys: seq<Msg>) {
    if xs == [] then true
    else if ys == [] then false
    else
      || (xs[|xs| - 1] == ys[|ys| - 1] && Subsequence(xs[..|xs| - 1], ys[..|ys| - 1]))
      || Subsequence(xs, ys[..|ys| - 1])
  }

  ghost predicate StrictlyUp(ms: seq<Msg>) {
    forall i, j :: 0 <= i < j < |ms| ==> Before(ms[i], ms[j])
  }

  lemma {:induction false} OnIdUp(ms: seq<Msg>, id: u16)
    requires Increasing(ms)
    ensures StrictlyUp(OnId(ms, id))
  {
    if ms != [] {
      var init, last := ms[..|ms| - 1], ms[|ms| - 1];
      assert ms == init + [last];
      OnIdUp(init, id);
      var r := OnId(init, id);
      if last.id == id {
        forall i | 0 <= i < |r|
          ensures Before(r[i], last)
        {
          assert r[i] in init;
          var j :| 0 <= j < |init| && init[j] == r[i];
          assert ms[j] == r[i] && ms[|ms| - 1] == last;
        }
      }
    }
  }

  /** Two strictly ordered lists, one inside the other as a set, are a subsequence. */
  lemma {:induction false} UpSubsequence(xs: seq<Msg>, ys: seq<Msg>)
    requires StrictlyUp(xs) && StrictlyUp(ys) && forall m :: m in xs ==> m in ys
    ensures Subsequence(xs, ys)
    decreases |ys|
  {
    if xs != [] {
      var x := xs[|xs| - 1];
      assert x in ys;
      var y := ys[|ys| - 1];
      var xs', ys' := xs[..|xs| - 1], ys[..|ys| - 1];
      if x == y {
        forall m | m in xs'
          ensures m in ys'
        {
          var i :| 0 <= i < |xs'| && xs'[i] == m;
          assert Before(xs[i], xs[|xs| - 1]);
          assert m in xs;
          var k :| 0 <= k < |ys| && ys[k] == m;
          assert ys'[k] == m;
        }
        UpSubsequence(xs', ys');
      } else {
        forall m | m in xs
          ensures m in ys'
        {
          var i :| 0 <= i < |xs| && xs[i] == m;
          var j :| 0 <= j < |ys| && ys[j] == x;
          assert j < |ys| - 1 && Before(ys[j], ys[|ys| - 1]);
          assert i < |xs| - 1 ==> Before(xs[i], xs[|xs| - 1]);
          assert m != y;
          var k :| 0 <= k < |ys| && ys[k] == m;
          assert ys'[k] == m;
        }
        UpSubsequence(xs, ys');
      }
    }
  }

  /** Over every run with an ideal MAC: on each CAN ID, what a node has accepted is a
      subsequence of what the peer sent on it, and no message is accepted twice. */
  lemma InOrderAtMostOnce(mac: Mac, ss: seq<Sys>, steps: seq<Step>, id: u16)
    requires Trace(mac, ss, steps) && Within(ss[|steps|]) && 2 * |steps| + 2 < U32_MOD
    ensures var s := ss[|steps|];
            && Subsequence(OnId(s.b.got, id), OnId(s.a.sent, id)) && StrictlyUp(OnId(s.b.got, id))
            && Subsequence(OnId(s.a.got, id), OnId(s.b.sent, id)) && StrictlyUp(OnId(s.a.got, id))
            && (forall m :: m in s.a.got || m in s.b.got ==> m.out)
  {
    TraceInv(mac, ss, steps, |steps|);
    var s := ss[|steps|];
    InvLists(s, 2 * |steps|);
    OnIdUp(s.a.sent, id);
    OnIdUp(s.b.sent, id);
    OnIdUp(s.a.got, id);
    OnIdUp(s.b.got, id);
    UpSubsequence(OnId(s.b.got, id), OnId(s.a.sent, id));
    UpSubsequence(OnId(s.a.got, id), OnId(s.b.sent, id));
  }

  lemma InvLists(s: Sys, k: nat)
    requires Inv(s, k)
    ensures Increasing(s.a.sent) && Increasing(s.b.sent) && Increasing(s.a.got) && Increasing(s.b.got)
    ensures forall m :: m in s.b.got ==> m in s.a.sent && m.out
    ensures forall m :: m in s.a.got ==> m in s.b.sent && m.out
  {
    hide StoreOk, TxOk, RxOk, Increasing, Paid;
  }

  // ---------------------------------------------------------------- freshness at both ends

  /** Sender uniqueness and receiver monotonicity over every run, across boots, rollovers,
      floor adoptions, failed commits and power cuts: per ID the values drawn, and the
      values accepted, go strictly up. No drawn epoch exceeds what the store acknowledged,
      and none exceeds what the next mount loads. */
  lemma FreshnessGoesUp(mac: Mac, ss: seq<Sys>, steps: seq<Step>)
    requires Trace(mac, ss, steps) && Within(ss[|steps|]) && 2 * |steps| + 2 < U32_MOD
    ensures var s := ss[|steps|];
            && Increasing(s.a.sent) && Increasing(s.a.got) && Increasing(s.b.sent) && Increasing(s.b.got)
            && (forall m :: m in s.a.sent ==>
                  m.epoch <= Val(s.a.ecu.st.ram.mirror, DOM_TX) <= Val(Mount(s.a.ecu.st.slots).mirror, DOM_TX))
            && (forall m :: m in s.b.sent ==>
                  m.epoch <= Val(s.b.ecu.st.ram.mirror, DOM_TX) <= Val(Mount(s.b.ecu.st.slots).mirror, DOM_TX))
            && (forall m :: m in s.a.got ==> m.epoch <= Val(Mount(s.a.ecu.st.slots).mirror, DOM_RX))
            && (forall m :: m in s.b.got ==> m.epoch <= Val(Mount(s.b.ecu.st.slots).mirror, DOM_RX))
  {
    TraceInv(mac, ss, steps, |steps|);
    var s := ss[|steps|];
    InvLists(s, 2 * |steps|);
    DurableValues(GATEWAY, s.a, 2 * |steps|);
    DurableValues(ACTUATOR, s.b, 2 * |steps|);
  }

  lemma DurableValues(cfg: Config, n: Sta, k: nat)
    requires Local(cfg, n, k) && k + 1 < U32_MOD
    ensures forall m :: m in n.sent ==> m.epoch <= Val(n.ecu.st.ram.mirror, DOM_TX)
    ensures forall m :: m in n.got ==> m.epoch <= Val(n.ecu.st.ram.mirror, DOM_RX)
    ensures var m := Mount(n.ecu.st.slots).mirror;
            Val(n.ecu.st.ram.mirror, DOM_TX) <= Val(m, DOM_TX) && Val(n.ecu.st.ram.mirror, DOM_RX) <= Val(m, DOM_RX)
  {
    hide StoreOk, TxOk, RxOk, Increasing;
    MountOk(n.ecu.st, k);
  }

  /** The epoch budget: what a mount would load as a sender's epoch is at most its boots plus
      the peer's boots plus the epochs it ran out of counters in. */
  lemma EpochBudget(mac: Mac, ss: seq<Sys>, steps: seq<Step>)
    requires Trace(mac, ss, steps) && Within(ss[|steps|]) && 2 * |steps| + 2 < U32_MOD
    ensures var s := ss[|steps|];
            && Val(Mount(s.a.ecu.st.slots).mirror, DOM_TX) <= s.a.boots + s.b.boots + |s.a.exhausted|
            && Val(Mount(s.b.ecu.st.slots).mirror, DOM_TX) <= s.a.boots + s.b.boots + |s.b.exhausted|
  {
    TraceInv(mac, ss, steps, |steps|);
    var s := ss[|steps|];
    BudgetOneWay(GATEWAY, s.a, ACTUATOR, s.b, 2 * |steps|);
    BudgetOneWay(ACTUATOR, s.b, GATEWAY, s.a, 2 * |steps|);
  }

  lemma BudgetOneWay(sc: Config, s: Sta, rc: Config, r: Sta, k: nat)
    requires Local(sc, s, k) && Local(rc, r, k) && Cross(s, r) && k + 1 < U32_MOD
    ensures Val(Mount(s.ecu.st.slots).mirror, DOM_TX) <= s.boots + r.boots + |s.exhausted|
  {
    hide StoreOk, TxOk, RxOk, Increasing, Below;
    MountOk(s.ecu.st, k);
    BelowSize(r.floors, Val(Mount(s.ecu.st.slots).mirror, DOM_TX));
  }

  // ---------------------------------------------------------------- what a rollover costs

  /** How often a value of epoch `e` was drawn for `id`. */
  function Draws(ms: seq<Msg>, id: u16, e: u16): nat {
    if ms == [] then 0
    else Draws(ms[..|ms| - 1], id, e) + if ms[|ms| - 1].id == id && ms[|ms| - 1].epoch == e then 1 else 0
  }

  lemma DrawsAppend(ms: seq<Msg>, m: Msg, id: u16, e: u16)
    ensures Draws(ms + [m], id, e) == Draws(ms, id, e) + if m.id == id && m.epoch == e then 1 else 0
  {
    assert (ms + [m])[..|ms|] == ms;
  }

  ghost predicate UsedUp(ms: seq<Msg>, e: u16) {
    exists id: u16 :: Draws(ms, id, e) >= 0xFFFF
  }

  /** Counters are paid for by draws, and so is every exhausted epoch. */
  ghost predicate Counted(n: Sta) {
    && (n.on ==> forall i :: 0 <= i < |n.ecu.tx.ids| ==>
          Draws(n.sent, n.ecu.tx.ids[i], n.ecu.tx.epoch) >= n.ecu.tx.counter[i])
    && (forall e :: e in n.exhausted ==> UsedUp(n.sent, e))
  }

  lemma SendCounted(mac: Mac, n: Sta, id: u16, pdu: seq<byte>, up: bool, f: Fault)
    requires Counted(n) && n.on
    ensures Counted(SendMsg(mac, n, id, pdu, up, f))
  {
    hide CommitSpec, Secure;
    var n' := SendMsg(mac, n, id, pdu, up, f);
    if n'.sent != n.sent {
      var m := n'.sent[|n.sent|];
      forall i: u16, e: u16
        ensures Draws(n'.sent, i, e) == Draws(n.sent, i, e) + if m.id == i && m.epoch == e then 1 else 0
      {
        DrawsAppend(n.sent, m, i, e);
      }
    }
    if RunsOut(n.ecu.tx, id) {
      assert Draws(n.sent, id, n.ecu.tx.epoch) >= 0xFFFF;
    }
    forall e | e in n'.exhausted
      ensures UsedUp(n'.sent, e)
    {
      assert UsedUp(n.sent, e);
      var i: u16 :| Draws(n.sent, i, e) >= 0xFFFF;
      assert Draws(n'.sent, i, e) >= 0xFFFF;
    }
  }

  lemma DoCounted(mac: Mac, cfg: Config, n: Sta, act: Act)
    requires Counted(n)
    ensures Counted(Do(mac, cfg, n, act))
  {
    hide CommitSpec, SendMsg, ProcessSpec, RxBootSpec, Mount;
    match act
    case Boot(f) =>
    case PowerCut =>
    case Send(id, pdu, up, f) => if n.on { SendCounted(mac, n, id, pdu, up, f); }
    case SendSync(up, f) => if n.on { SendCounted(mac, n, cfg.syncTx, SyncPdu(n.ecu.rx), up, f); }
    case Recv(id, frame, up, f, g) =>
  }

  /** Over every run, each epoch in the budget's rollover term cost 65535 draws on one ID. */
  lemma {:induction false} RolloverCost(mac: Mac, ss: seq<Sys>, steps: seq<Step>, i: nat)
    requires Trace(mac, ss, steps) && i <= |steps|
    ensures Counted(ss[i].a) && Counted(ss[i].b)
  {
    hide Do, Counted, Legal;
    if i == 0 {
      StartCounted();
    } else {
      RolloverCost(mac, ss, steps, i - 1);
      DoCounted(mac, GATEWAY, ss[i - 1].a, steps[i - 1].act);
      DoCounted(mac, ACTUATOR, ss[i - 1].b, steps[i - 1].act);
    }
  }

  lemma StartCounted()
    ensures Counted(FactorySta())
  {
  }
}
