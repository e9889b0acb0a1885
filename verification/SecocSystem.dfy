/** The two nodes and the bus as a step system. A step boots a node, cuts its power, makes
    it send, or hands it an arbitrary frame under an arbitrary CAN ID; every commit inside a
    step carries a fault, so saves fail and power is lost between any two flash operations.
    Dropping, duplicating, reordering, re-labelling and corrupting frames are all deliveries
    the bus chooses to make or not to make. */
module SecocSystem {
  import opened Words
  import opened WorkFlash
  import opened SecocStore
  import opened SecocFreshness
  import opened SecocFrame
  import opened SecocRx
  import opened SecocApp

  datatype Who = A | B

  /** A freshness value drawn for an ID and PDU; `out` says a secured frame came of it. */
  datatype Msg = Msg(id: u16, epoch: u16, counter: u16, pdu: seq<byte>, out: bool)

  /** One node. While `on` is false only the flash of `ecu` is real. The rest is history:
      values drawn, messages accepted, boots, epochs whose counter ran out, boot floors, and
      how often its processor faulted. */
  datatype Sta = Sta(on: bool, ecu: Ecu, sent: seq<Msg>, got: seq<Msg>, boots: nat, exhausted: set<u16>,
                     floors: set<u16>, crashes: nat)

  datatype Sys = Sys(a: Sta, b: Sta)

  datatype Act =
    | Boot(f: Fault)
    | PowerCut
    | Send(id: u16, pdu: seq<byte>, up: bool, f: Fault)
    | SendSync(up: bool, f: Fault)
    | Recv(id: u16, frame: seq<byte>, up: bool, f: Fault, g: Fault)

  datatype Step = Step(who: Who, act: Act)

  function FactorySta(): Sta {
    var blank := Store([EMPTY_SLOT, EMPTY_SLOT], Ram(Factory, NO_SLOT, ZERO_REC), {});
    Sta(false, Ecu(blank, UNBOOTED_TX, UNBOOTED_RX), [], [], 0, {}, {}, 0)
  }

  function Start(): Sys {
    Sys(FactorySta(), FactorySta())
  }

  predicate RunsOut(tx: TxState, id: u16) {
    match FindSlot(tx.ids, id)
    case None => false
    case Some(i) => tx.counter[i] == 0xFFFF
  }

  function SendMsg(mac: Mac, n: Sta, id: u16, pdu: seq<byte>, up: bool, f: Fault): Sta {
    var b := BuildSpec(mac, up, n.ecu, id, pdu, f);
    n.(on := !b.cut, ecu := b.ecu,
       exhausted := if RunsOut(n.ecu.tx, id) then n.exhausted + {n.ecu.tx.epoch} else n.exhausted,
       sent := if b.drawn.Some? then n.sent + [Msg(id, b.drawn.value.0, b.drawn.value.1, pdu, b.frame.Some?)]
         else n.sent)
  }

  function Do(mac: Mac, cfg: Config, n: Sta, act: Act): Sta {
    match act
    case Boot(f) =>
      var (e, cut) := InitSpec(cfg, n.ecu.st.slots, f);
      n.(on := !cut, ecu := e, boots := n.boots + 1,
         floors := if e.rx.ids != [] then n.floors + {e.rx.floor} else n.floors)
    case PowerCut => n.(on := false)
    case Send(id, pdu, up, f) =>
      if !n.on || id == cfg.syncTx then n else SendMsg(mac, n, id, pdu, up, f)
    case SendSync(up, f) =>
      if !n.on then n else SendMsg(mac, n, cfg.syncTx, SyncPdu(n.ecu.rx), up, f)
    case Recv(id, frame, up, f, g) =>
      if !n.on then n
      else
        var h := HandleSpec(mac, up, cfg, n.ecu, id, frame, f, g);
        n.(on := !h.cut && !h.crash, ecu := h.ecu, crashes := n.crashes + if h.crash then 1 else 0,
           got := if h.got.Some? then n.got + [Msg(id, h.got.value.0, h.got.value.1, h.got.value.2, true)] else n.got)
  }

  function Next(mac: Mac, s: Sys, step: Step): Sys {
    match step.who
    case A => Sys(Do(mac, GATEWAY, s.a, step.act), s.b)
    case B => Sys(s.a, Do(mac, ACTUATOR, s.b, step.act))
  }

  // ---------------------------------------------------------------- the ideal MAC

  function InputOf(m: Msg): seq<byte> {
    MacInput(m.id, Freshness(m.epoch, m.counter), m.pdu)
  }

  /** The MAC input a receiver would compute for a frame with a PDU of `plen` bytes. */
  function InputOfFrame(id: u16, frame: seq<byte>, plen: nat): seq<byte>
    requires plen + TRAILER_LEN <= |frame|
  {
    MacInput(id, frame[plen..plen + 4], frame[..plen])
  }

  ghost predicate Made(ms: seq<Msg>, input: seq<byte>) {
    exists m :: m in ms && m.out && InputOf(m) == input
  }

  /** The bus cannot make a tag for an input neither node has authenticated. */
  ghost predicate Unforged(mac: Mac, x: Sta, y: Sta, id: u16, frame: seq<byte>) {
    var plen := PduLen(id);
    plen + TRAILER_LEN <= |frame| ==>
    WireTag(frame, plen) == mac(InputOfFrame(id, frame, plen))[..8] ==>
    Made(x.sent, InputOfFrame(id, frame, plen)) || Made(y.sent, InputOfFrame(id, frame, plen))
  }

  ghost predicate Legal(mac: Mac, s: Sys, step: Step) {
    step.act.Recv? ==> Unforged(mac, s.a, s.b, step.act.id, step.act.frame)
  }

  ghost predicate Trace(mac: Mac, ss: seq<Sys>, steps: seq<Step>) {
    && |ss| == |steps| + 1
    && ss[0] == Start()
    && forall i {:trigger steps[i]} :: 0 <= i < |steps| ==>
         Legal(mac, ss[i], steps[i]) && ss[i + 1] == Next(mac, ss[i], steps[i])
  }

  /** What keeps every 16-bit epoch from wrapping: boots of both nodes plus exhausted epochs
      of each sender stay below 0xFFFF. */
  ghost predicate Within(s: Sys) {
    && s.a.boots + s.b.boots + |s.a.exhausted| < 0xFFFF
    && s.a.boots + s.b.boots + |s.b.exhausted| < 0xFFFF
  }

  // ---------------------------------------------------------------- store values

  /** Value `x` of domain `d` is what a mount may load: acknowledged, or attempted since. */
  ghost predicate Loadable(st: Store, d: nat, x: u16) {
    x == Val(st.ram.mirror, d) || Try(d, x) in st.tries
  }

  /** The store is sound, at most `k` saves old, and attempts never go below the mirror. */
  ghost predicate StoreOk(st: Store, k: nat) {
    && Sound(st)
    && st.ram.mirror.no <= k && st.ram.mirror.written < 4
    && (st.ram.status != Ok ==> st.ram.mirror == ZERO_REC)
    && forall t :: t in st.tries ==> t.d < 2 && t.epoch >= Val(st.ram.mirror, t.d)
  }

  lemma CommitOk(st: Store, d: nat, epoch: u16, f: Fault, k: nat)
    requires StoreOk(st, k) && k + 1 < U32_MOD && d < 2
    requires st.ram.status != Broken && epoch >= Val(st.ram.mirror, d)
    ensures var (st', rc) := CommitSpec(st, d, epoch, f);
            && StoreOk(st', k + 1) && st'.ram.status != Broken
            && (rc == Done ==> Val(st'.ram.mirror, d) == epoch && st'.ram.status == Ok)
            && (rc != Done ==> st'.ram == st.ram)
            && Val(st'.ram.mirror, 1 - d) == Val(st.ram.mirror, 1 - d)
            && (forall o, x :: o < 2 && Loadable(st', o, x) ==> Loadable(st, o, x) || (o == d && x == epoch))
            && (f == NoFault ==> rc == Done)
  {
    hide Sound, CommitSpec, NextRec;
    CommitSound(st, d, epoch, f);
    NextValues(st.ram.mirror, d, epoch);
    NextNumber(st.ram.mirror, d, epoch);
  }

  lemma StoreOkMore(st: Store, k: nat, k': nat)
    requires StoreOk(st, k) && k <= k'
    ensures StoreOk(st, k')
  {
    hide Sound;
  }

  lemma MountOk(st: Store, k: nat)
    requires StoreOk(st, k) && k + 1 < U32_MOD
    ensures var st' := MountStore(st.slots);
            && StoreOk(st', k + 1) && st'.tries == {}
            && (forall d :: 0 <= d < 2 ==>
                  Loadable(st, d, Val(st'.ram.mirror, d)) && Val(st'.ram.mirror, d) >= Val(st.ram.mirror, d))
            && (forall d, x :: Loadable(st', d, x) ==> x == Val(st'.ram.mirror, d))
  {
    hide Sound, Mount, NextRec;
    MountSound(st);
    var st' := MountStore(st.slots);
    MountMirror(st');
    var m, m' := st.ram.mirror, st'.ram.mirror;
    if st'.ram.status == Ok && m' != m {
      var t :| t in st.tries && Attempt(m, t, m');
      NextValues(m, t.d, t.epoch);
      NextNumber(m, t.d, t.epoch);
    }
  }

  lemma MountMirror(st: Store)
    requires Sound(st)
    ensures st.ram.mirror.written < 4
    ensures st.ram.status != Ok ==> st.ram.mirror == ZERO_REC
  {
    hide ReadSlot;
  }

  // ---------------------------------------------------------------- messages

  predicate Before(m: Msg, m': Msg) {
    m.epoch < m'.epoch || (m.epoch == m'.epoch && m.counter < m'.counter)
  }

  /** Per ID, the freshness values of a list go strictly up. */
  ghost predicate Increasing(ms: seq<Msg>) {
    forall i, j :: 0 <= i < j < |ms| && ms[i].id == ms[j].id ==> Before(ms[i], ms[j])
  }

  /** The highest epoch drawn. */
  function Spent(ms: seq<Msg>): nat {
    if ms == [] then 0
    else var e: nat := Spent(ms[..|ms| - 1]); if ms[|ms| - 1].epoch > e then ms[|ms| - 1].epoch else e
  }

  lemma {:induction false} SpentMax(ms: seq<Msg>)
    ensures forall m :: m in ms ==> m.epoch <= Spent(ms)
    ensures Spent(ms) == 0 || exists m :: m in ms && m.epoch == Spent(ms)
  {
    if ms != [] {
      var init, last := ms[..|ms| - 1], ms[|ms| - 1];
      SpentMax(init);
      assert ms == init + [last];
      assert last in ms;
    }
  }

  lemma SpentAppend(ms: seq<Msg>, m: Msg)
    ensures Spent(ms + [m]) == if m.epoch > Spent(ms) then m.epoch else Spent(ms)
  {
    assert (ms + [m])[..|ms|] == ms;
  }

  // ---------------------------------------------------------------- the invariant of one node

  ghost predicate TxOk(cfg: Config, n: Sta) {
    var tx, m := n.ecu.tx, n.ecu.st.ram.mirror;
    if !tx.bound then tx == UNBOOTED_TX
    else
      && n.ecu.st.ram.status != Broken && n.ecu.rx.ids != []
      && tx.ids == cfg.txIds && tx.domain == DOM_TX && tx.epoch == Val(m, DOM_TX)
      && forall s :: s in n.sent && s.epoch == tx.epoch ==>
           FindSlot(tx.ids, s.id).Some? && s.counter <= tx.counter[FindSlot(tx.ids, s.id).value]
  }

  ghost predicate RxOk(cfg: Config, n: Sta) {
    var rx, m := n.ecu.rx, n.ecu.st.ram.mirror;
    if rx.ids == [] then rx == UNBOOTED_RX
    else
      && n.ecu.st.ram.status != Broken
      && rx.ids == cfg.rxIds && rx.domain == DOM_RX && rx.current == Val(m, DOM_RX)
      && rx.floor <= rx.current + 1 && rx.floor in n.floors
      && (rx.floor <= rx.current ==> forall s :: s in n.got && s.epoch == rx.current ==>
            FindSlot(rx.ids, s.id).Some? && s.counter <= rx.high[FindSlot(rx.ids, s.id).value])
  }

  /** A high-water mark is 0 or the counter of a message accepted in the current epoch. */
  ghost predicate HighOk(n: Sta) {
    var rx := n.ecu.rx;
    forall i :: 0 <= i < |rx.ids| && rx.high[i] != 0 ==> HighFrom(n.got, rx, i)
  }

  ghost predicate HighFrom(got: seq<Msg>, rx: RxState, i: nat)
    requires i < |rx.ids|
  {
    exists m :: m in got && m.id == rx.ids[i] && m.epoch == rx.current && m.counter == rx.high[i]
  }

  ghost predicate SentOk(cfg: Config, n: Sta) {
    && Increasing(n.sent)
    && (forall s :: s in n.sent ==> s.id in cfg.txIds && s.epoch <= Val(n.ecu.st.ram.mirror, DOM_TX))
    && (forall s :: s in n.sent && s.id == cfg.syncTx ==> exists fl :: fl in n.floors && s.pdu == PutU16(fl))
  }

  ghost predicate GotOk(cfg: Config, n: Sta) {
    && Increasing(n.got)
    && (forall s :: s in n.got ==> s.id in cfg.rxIds && s.epoch <= Val(n.ecu.st.ram.mirror, DOM_RX))
  }

  ghost predicate Local(cfg: Config, n: Sta, k: nat) {
    && StoreOk(n.ecu.st, k)
    && SentOk(cfg, n) && GotOk(cfg, n)
    && (n.on ==> TxOk(cfg, n) && RxOk(cfg, n) && HighOk(n))
    && |n.floors| <= n.boots
  }

  // ---------------------------------------------------------------- the invariant of a direction

  function Below(floors: set<u16>, x: nat): set<u16> {
    set f | f in floors && f <= x
  }

  /** The epoch budget: boots of the sender, epochs it used up, and floors the receiver
      has announced up to `x`. */
  ghost predicate Paid(s: Sta, r: Sta, x: nat) {
    x <= s.boots + |s.exhausted| + |Below(r.floors, x)|
  }

  ghost predicate Cross(s: Sta, r: Sta) {
    && (forall m :: m in r.got ==> m in s.sent && m.out)
    && (forall x: u16 :: Loadable(r.ecu.st, DOM_RX, x) ==> x <= Spent(s.sent))
    && (forall f :: f in r.floors ==> 0 < f <= Spent(s.sent) + 1)
    && (forall x: u16 :: Loadable(s.ecu.st, DOM_TX, x) ==> Paid(s, r, x))
    && (forall e :: e in s.exhausted ==> Paid(s, r, e + 1))
  }

  ghost predicate Inv(s: Sys, k: nat) {
    && Local(GATEWAY, s.a, k) && Local(ACTUATOR, s.b, k)
    && Cross(s.a, s.b) && Cross(s.b, s.a)
  }

  /** No value that a mount can load is near the 16-bit wrap. */
  ghost predicate Room(n: Sta) {
    forall d, x: u16 :: d < 2 && Loadable(n.ecu.st, d, x) ==> x < 0xFFFF
  }

  lemma BelowSize(floors: set<u16>, x: nat)
    ensures |Below(floors, x)| <= |floors|
  {
    SubsetSize(Below(floors, x), floors);
  }

  lemma {:induction false} SubsetSize(s: set<u16>, t: set<u16>)
    requires s <= t
    ensures |s| <= |t|
  {
    if s != {} {
      var x :| x in s;
      SubsetSize(s - {x}, t - {x});
    }
  }

  lemma PaidRoom(s: Sta, r: Sta, x: nat)
    requires Paid(s, r, x) && |r.floors| <= r.boots && s.boots + r.boots + |s.exhausted| < 0xFFFF
    ensures x < 0xFFFF
  {
    BelowSize(r.floors, x);
  }

  /** The budget is monotone in everything it counts. */
  lemma PaidMore(s: Sta, r: Sta, s': Sta, r': Sta, x: nat)
    requires Paid(s, r, x) && s.boots <= s'.boots && s.exhausted <= s'.exhausted && r.floors <= r'.floors
    ensures Paid(s', r', x)
  {
    SubsetSize(s.exhausted, s'.exhausted);
    SubsetSize(Below(r.floors, x), Below(r'.floors, x));
  }

  lemma PaidBoot(s: Sta, r: Sta, s': Sta, x: nat)
    requires Paid(s, r, x) && s'.boots == s.boots + 1 && s'.exhausted == s.exhausted
    ensures Paid(s', r, x + 1)
  {
    SubsetSize(Below(r.floors, x), Below(r.floors, x + 1));
  }

  lemma PaidRollover(s: Sta, r: Sta, s': Sta, e: u16)
    requires Paid(s, r, e) && s'.boots == s.boots && s'.exhausted == s.exhausted + {e}
    requires e in s.exhausted ==> Paid(s, r, e + 1)
    ensures Paid(s', r, e + 1)
  {
    SubsetSize(Below(r.floors, e), Below(r.floors, e + 1));
  }

  lemma PaidFloor(s: Sta, r: Sta, x: nat, fl: u16)
    requires Paid(s, r, x) && fl as int == x + 1 && fl in r.floors
    ensures Paid(s, r, fl)
  {
    assert Below(r.floors, x) <= Below(r.floors, fl) - {fl};
    SubsetSize(Below(r.floors, x), Below(r.floors, fl) - {fl});
  }

  lemma RoomFromCross(s: Sys, k: nat)
    requires Inv(s, k) && Within(s)
    ensures Room(s.a) && Room(s.b)
  {
    hide StoreOk, TxOk, RxOk, Increasing, Below;
    RoomOneWay(GATEWAY, s.a, ACTUATOR, s.b, k);
    RoomOneWay(ACTUATOR, s.b, GATEWAY, s.a, k);
  }

  /** The sender's own values are paid for; the receiver's are below what the sender spent. */
  lemma RoomOneWay(scfg: Config, s: Sta, rcfg: Config, r: Sta, k: nat)
    requires Local(scfg, s, k) && Local(rcfg, r, k) && Cross(s, r)
    requires s.boots + r.boots + |s.exhausted| < 0xFFFF
    ensures forall x: u16 :: Loadable(s.ecu.st, DOM_TX, x) ==> x < 0xFFFF
    ensures forall x: u16 :: Loadable(r.ecu.st, DOM_RX, x) ==> x < 0xFFFF
    ensures Spent(s.sent) <= Val(s.ecu.st.ram.mirror, DOM_TX)
  {
    hide StoreOk, TxOk, RxOk, Increasing, Below;
    forall x: u16 | Loadable(s.ecu.st, DOM_TX, x)
      ensures x < 0xFFFF
    {
      PaidRoom(s, r, x);
    }
    SpentMax(s.sent);
    assert Loadable(s.ecu.st, DOM_TX, Val(s.ecu.st.ram.mirror, DOM_TX));
  }

  // ---------------------------------------------------------------- one step of one node

  /** What a mount may load for the sender, or one more: what a boot may then commit. */
  ghost predicate LoadableOrNext(st: Store, x: u16) {
    Loadable(st, DOM_TX, x) || (x > 0 && Loadable(st, DOM_TX, x - 1))
  }

  /** Values that only go up keep the lists of messages in order. */
  lemma ListsStay(cfg: Config, n: Sta, n': Sta)
    requires SentOk(cfg, n) && GotOk(cfg, n) && n'.sent == n.sent && n'.got == n.got && n.floors <= n'.floors
    requires Val(n'.ecu.st.ram.mirror, DOM_TX) >= Val(n.ecu.st.ram.mirror, DOM_TX)
    requires Val(n'.ecu.st.ram.mirror, DOM_RX) >= Val(n.ecu.st.ram.mirror, DOM_RX)
    ensures SentOk(cfg, n') && GotOk(cfg, n')
  {
    hide Increasing, Val;
  }

  /** What a boot makes of the flash: a sender at an epoch above everything loaded before, or
      none; a receiver at the loaded epoch with the floor above it, or none. */
  lemma InitFacts(cfg: Config, old0: Store, f: Fault, k: nat)
    requires StoreOk(old0, k) && k + 2 < U32_MOD && IdsOk(cfg.txIds) && IdsOk(cfg.rxIds)
    requires forall d, x: u16 :: d < 2 && Loadable(old0, d, x) ==> x < 0xFFFF
    ensures var (e, cut) := InitSpec(cfg, old0.slots, f);
            var tx, rx, m := Val(e.st.ram.mirror, DOM_TX), Val(e.st.ram.mirror, DOM_RX), old0.ram.mirror;
            && StoreOk(e.st, k + 2) && tx >= Val(m, DOM_TX) && rx >= Val(m, DOM_RX)
            && (forall x: u16 :: Loadable(e.st, DOM_RX, x) ==> Loadable(old0, DOM_RX, x))
            && (forall x: u16 :: Loadable(e.st, DOM_TX, x) ==> LoadableOrNext(old0, x))
            && (e.tx == UNBOOTED_TX
                || (e.rx.ids != [] && tx > Val(m, DOM_TX)
                      && e.tx == Tx(true, DOM_TX, tx, cfg.txIds, Zeros(|cfg.txIds|))))
            && (e.rx == UNBOOTED_RX
                || (e.st.ram.status != Broken && rx < 0xFFFF && Loadable(old0, DOM_RX, rx)
                    && e.rx == Rx(DOM_RX, rx + 1, rx, cfg.rxIds, Zeros(|cfg.rxIds|))))
  {
    hide StoreOk, CommitSpec, Mount;
    var st := MountStore(old0.slots);
    MountOk(old0, k);
    StoreOkMore(st, k + 1, k + 2);
    if st.ram.status != Broken {
      var next := (Load(st.ram, DOM_TX).GetOr(0) + 1) % U16_MOD;
      assert next == Val(st.ram.mirror, DOM_TX) + 1;
      CommitOk(st, DOM_TX, next, f, k + 1);
    }
  }

  lemma BootLocal(mac: Mac, cfg: Config, n: Sta, f: Fault, k: nat)
    requires Local(cfg, n, k) && k + 2 < U32_MOD && Room(n) && IdsOk(cfg.txIds) && IdsOk(cfg.rxIds)
    ensures var n' := Do(mac, cfg, n, Boot(f));
            && Local(cfg, n', k + 2)
            && n'.boots == n.boots + 1 && n'.sent == n.sent && n'.got == n.got && n'.exhausted == n.exhausted
            && n.floors <= n'.floors
            && (forall x: u16 :: Loadable(n'.ecu.st, DOM_RX, x) ==> Loadable(n.ecu.st, DOM_RX, x))
            && (forall x: u16 :: Loadable(n'.ecu.st, DOM_TX, x) ==> LoadableOrNext(n.ecu.st, x))
            && (forall fl :: fl in n'.floors ==> fl in n.floors || (fl > 0 && Loadable(n.ecu.st, DOM_RX, fl - 1)))
  {
    hide StoreOk, InitSpec, Increasing, FindSlot, Loadable, GotOk, LoadableOrNext;
    InitFacts(cfg, n.ecu.st, f, k);
    var n' := Do(mac, cfg, n, Boot(f));
    ListsStay(cfg, n, n');
    Fewer(n.floors, n'.ecu.rx.floor);
    assert forall s :: s in n.got ==> s.epoch <= Val(n.ecu.st.ram.mirror, DOM_RX) by { ListsBelow(cfg, n); }
  }

  lemma ListsBelow(cfg: Config, n: Sta)
    requires GotOk(cfg, n)
    ensures forall s :: s in n.got ==> s.epoch <= Val(n.ecu.st.ram.mirror, DOM_RX)
  {
  }

  lemma Fewer(floors: set<u16>, fl: u16)
    ensures |floors + {fl}| <= |floors| + 1
  {
  }

  lemma IncreasingAppend(ms: seq<Msg>, m: Msg)
    requires Increasing(ms)
    requires forall s :: s in ms && s.id == m.id ==> Before(s, m)
    ensures Increasing(ms + [m])
  {
    var all := ms + [m];
    forall i, j | 0 <= i < j < |all| && all[i].id == all[j].id
      ensures Before(all[i], all[j])
    {
      if j == |ms| {
        assert ms[i] in ms;
      }
    }
  }

  /** The value drawn is the next counter of the epoch, or the first of the next epoch. */
  predicate Drawn(tx: TxState, tx': TxState, id: u16, e: u16, c: u16) {
    match FindSlot(tx.ids, id)
    case None => false
    case Some(i) =>
      && e == tx'.epoch
      && (|| (e == tx.epoch && c as int == tx.counter[i] as int + 1 && tx'.counter == tx.counter[i := c])
          || (e as int == tx.epoch as int + 1 && c == 1 && tx'.counter == Zeros(|tx.ids|)[i := 1]))
  }

  /** Drawing a value: what happens to the store, and that the value is the new counter of
      the new epoch, one past the old one or the first of the next epoch. */
  lemma NextFacts(tx: TxState, st: Store, id: u16, f: Fault, k: nat)
    requires StoreOk(st, k) && k + 1 < U32_MOD && st.ram.status != Broken
    requires tx.domain == DOM_TX && tx.epoch == Val(st.ram.mirror, DOM_TX) < 0xFFFF
    ensures var (tx', st', rc, e, c) := TxNextSpec(tx, st, id, f);
            && StoreOk(st', k + 1) && st'.ram.status != Broken
            && Val(st'.ram.mirror, DOM_RX) == Val(st.ram.mirror, DOM_RX)
            && (forall x: u16 :: Loadable(st', DOM_RX, x) ==> Loadable(st, DOM_RX, x))
            && (forall x: u16 :: Loadable(st', DOM_TX, x) ==>
                  Loadable(st, DOM_TX, x) || (RunsOut(tx, id) && x as int == tx.epoch + 1))
            && tx'.bound == tx.bound && tx'.ids == tx.ids && tx'.domain == DOM_TX
            && tx'.epoch == Val(st'.ram.mirror, DOM_TX)
            && (rc != Done ==> tx' == tx)
            && (rc == Done ==> Drawn(tx, tx', id, e, c))
            && (f == NoFault && FindSlot(tx.ids, id).Some? ==> rc == Done)
  {
    hide StoreOk, CommitSpec;
    StoreOkMore(st, k, k + 1);
    if RunsOut(tx, id) {
      CommitOk(st, DOM_TX, (tx.epoch + 1) % U16_MOD, f, k);
    }
  }

  /** What a send leaves alone: the receiver side. */
  lemma SameRx(cfg: Config, n: Sta, n': Sta)
    requires GotOk(cfg, n) && RxOk(cfg, n) && HighOk(n)
    requires n'.got == n.got && n'.ecu.rx == n.ecu.rx && n'.floors == n.floors
    ensures HighOk(n') && (n.ecu.rx.ids != [] ==> n.ecu.rx.floor in n.floors)
    ensures Val(n'.ecu.st.ram.mirror, DOM_RX) == Val(n.ecu.st.ram.mirror, DOM_RX) ==>
              GotOk(cfg, n') && (n'.ecu.st.ram.status != Broken ==> RxOk(cfg, n'))
    ensures n'.ecu.st.ram == n.ecu.st.ram ==> RxOk(cfg, n')
  {
    hide Increasing;
  }

  lemma SendLocal(mac: Mac, cfg: Config, n: Sta, id: u16, pdu: seq<byte>, up: bool, f: Fault, k: nat)
    requires Local(cfg, n, k) && k + 1 < U32_MOD && Room(n) && n.on
    requires id == cfg.syncTx ==> pdu == SyncPdu(n.ecu.rx)
    ensures var n' := SendMsg(mac, n, id, pdu, up, f);
            && Local(cfg, n', k + 1)
            && n'.got == n.got && n'.boots == n.boots && n'.floors == n.floors && n.exhausted <= n'.exhausted
            && (n'.sent == n.sent || exists m :: n'.sent == n.sent + [m])
            && (n'.exhausted == n.exhausted || n'.exhausted == n.exhausted + {Val(n.ecu.st.ram.mirror, DOM_TX)})
            && (forall x: u16 :: Loadable(n'.ecu.st, DOM_RX, x) ==> Loadable(n.ecu.st, DOM_RX, x))
            && (forall x: u16 :: Loadable(n'.ecu.st, DOM_TX, x) ==>
                  || Loadable(n.ecu.st, DOM_TX, x)
                  || (x == Val(n.ecu.st.ram.mirror, DOM_TX) + 1 && Val(n.ecu.st.ram.mirror, DOM_TX) in n'.exhausted))
  {
    hide StoreOk, CommitSpec, Increasing, Secure, TxNextSpec, HighOk, RxOk, GotOk;
    SameRx(cfg, n, SendMsg(mac, n, id, pdu, up, f));
    var tx, st := n.ecu.tx, n.ecu.st;
    StoreOkMore(st, k, k + 1);
    assert Loadable(st, DOM_TX, Val(st.ram.mirror, DOM_TX));
    if tx.bound {
      NextFacts(tx, st, id, f, k);
      var b := BuildSpec(mac, up, n.ecu, id, pdu, f);
      if b.drawn.Some? {
        IncreasingAppend(n.sent, Msg(id, b.drawn.value.0, b.drawn.value.1, pdu, b.frame.Some?));
      }
    } else {
      UnbootedSends(st, id, f);
    }
  }

  lemma UnbootedSends(st: Store, id: u16, f: Fault)
    ensures TxNextSpec(UNBOOTED_TX, st, id, f) == (UNBOOTED_TX, st, Failed, 0, 0) && !RunsOut(UNBOOTED_TX, id)
  {
  }

  /** Accepting a value: it becomes the high-water mark, of a new epoch or the current one. */
  lemma AcceptFacts(rx: RxState, st: Store, id: u16, e: u16, c: u16, f: Fault, k: nat)
    requires StoreOk(st, k) && k + 1 < U32_MOD && st.ram.status != Broken
    requires rx.domain == DOM_RX && rx.current == Val(st.ram.mirror, DOM_RX) && e >= rx.current
    ensures var (rx', st', rc) := RxAcceptSpec(rx, st, id, e, c, f);
            && StoreOk(st', k + 1) && st'.ram.status != Broken
            && Val(st'.ram.mirror, DOM_TX) == Val(st.ram.mirror, DOM_TX)
            && (forall x: u16 :: Loadable(st', DOM_TX, x) ==> Loadable(st, DOM_TX, x))
            && (forall x: u16 :: Loadable(st', DOM_RX, x) ==> Loadable(st, DOM_RX, x) || x == e)
            && rx'.ids == rx.ids && rx'.domain == DOM_RX && rx'.floor == rx.floor
            && rx'.current == Val(st'.ram.mirror, DOM_RX)
            && (rc != Done ==> rx' == rx)
            && (rc == Done ==>
                  var idx := FindSlot(rx.ids, id);
                  && idx.Some? && rx'.current == e
                  && rx'.high == (if e == rx.current then rx.high else Zeros(|rx.ids|))[idx.value := c])
            && (f == NoFault && FindSlot(rx.ids, id).Some? ==> rc == Done)
  {
    hide StoreOk, CommitSpec;
    StoreOkMore(st, k, k + 1);
    if FindSlot(rx.ids, id).Some? && e > rx.current {
      CommitOk(st, DOM_RX, e, f, k);
    }
  }

  lemma AdoptFacts(tx: TxState, st: Store, fl: u16, f: Fault, k: nat)
    requires StoreOk(st, k) && k + 1 < U32_MOD
    requires tx.bound ==> st.ram.status != Broken && tx.domain == DOM_TX && tx.epoch == Val(st.ram.mirror, DOM_TX)
    ensures var (tx', st', rc) := TxAdoptSpec(tx, st, fl, f);
            && StoreOk(st', k + 1) && (st.ram.status != Broken ==> st'.ram.status != Broken)
            && Val(st'.ram.mirror, DOM_RX) == Val(st.ram.mirror, DOM_RX)
            && (forall x: u16 :: Loadable(st', DOM_RX, x) ==> Loadable(st, DOM_RX, x))
            && (forall x: u16 :: Loadable(st', DOM_TX, x) ==>
                  Loadable(st, DOM_TX, x) || (x == fl && fl > Val(st.ram.mirror, DOM_TX)))
            && Val(st'.ram.mirror, DOM_TX) >= Val(st.ram.mirror, DOM_TX)
            && (rc != Done ==> tx' == tx && st'.ram == st.ram)
            && (rc == Done ==>
                  && tx.bound && fl > tx.epoch && tx' == tx.(epoch := fl, counter := Zeros(|tx.ids|))
                  && Val(st'.ram.mirror, DOM_TX) == fl)
            && (f == NoFault && tx.bound && fl > tx.epoch ==> rc == Done)
            && (fl <= tx.epoch ==> rc == Failed)
  {
    hide StoreOk, CommitSpec;
    StoreOkMore(st, k, k + 1);
    if fl > tx.epoch && tx.bound {
      CommitOk(st, DOM_TX, fl, f, k);
    }
  }

  /** The first half of handling a frame: everything up to the accept. */
  function Accepted(mac: Mac, cfg: Config, n: Sta, id: u16, frame: seq<byte>, up: bool, f: Fault): Sta {
    var r := ProcessSpec(mac, up, n.ecu.rx, n.ecu.st, id, frame, PduLen(id), f);
    n.(on := !r.cut, ecu := Ecu(r.st, n.ecu.tx, r.rx),
       got := if r.verdict == Accept then n.got + [Msg(id, r.epoch, r.counter, r.pdu, true)] else n.got)
  }

  /** What a reception leaves alone: the sender side. */
  lemma TxUntouched(cfg: Config, n: Sta, n': Sta)
    requires SentOk(cfg, n) && TxOk(cfg, n)
    requires n'.sent == n.sent && n'.ecu.tx == n.ecu.tx && n'.floors == n.floors
    ensures Val(n'.ecu.st.ram.mirror, DOM_TX) == Val(n.ecu.st.ram.mirror, DOM_TX) ==> SentOk(cfg, n')
    ensures Val(n'.ecu.st.ram.mirror, DOM_TX) == Val(n.ecu.st.ram.mirror, DOM_TX)
      && (n.ecu.st.ram.status != Broken ==> n'.ecu.st.ram.status != Broken)
      && (n.ecu.rx.ids == [] <==> n'.ecu.rx.ids == [])
      ==> TxOk(cfg, n')
  {
    hide Increasing;
  }

  lemma AcceptLocal(mac: Mac, cfg: Config, n: Sta, id: u16, frame: seq<byte>, up: bool, f: Fault, k: nat)
    requires Local(cfg, n, k) && k + 1 < U32_MOD && n.on && id in cfg.rxIds
    ensures var n' := Accepted(mac, cfg, n, id, frame, up, f);
            var vr := VerifySpec(mac, up, id, frame, PduLen(id));
            && Local(cfg, n', k + 1)
            && Val(n'.ecu.st.ram.mirror, DOM_TX) == Val(n.ecu.st.ram.mirror, DOM_TX)
            && (n'.got == n.got || (vr.Verified? && n'.got == n.got + [Msg(id, vr.epoch, vr.counter, vr.pdu, true)]))
            && (forall x: u16 :: Loadable(n'.ecu.st, DOM_TX, x) ==> Loadable(n.ecu.st, DOM_TX, x))
            && (forall x: u16 :: Loadable(n'.ecu.st, DOM_RX, x) ==>
                  Loadable(n.ecu.st, DOM_RX, x) || (vr.Verified? && x == vr.epoch))
  {
    hide StoreOk, CommitSpec, Increasing, VerifySpec, RxAcceptSpec, TxOk, SentOk;
    var rx, st := n.ecu.rx, n.ecu.st;
    TxUntouched(cfg, n, Accepted(mac, cfg, n, id, frame, up, f));
    StoreOkMore(st, k, k + 1);
    var vr := VerifySpec(mac, up, id, frame, PduLen(id));
    if vr.Verified? && RxCheckSpec(rx, id, vr.epoch, vr.counter) == Fresh {
      AcceptFacts(rx, st, id, vr.epoch, vr.counter, f, k);
      var n' := Accepted(mac, cfg, n, id, frame, up, f);
      if n'.got != n.got {
        IncreasingAppend(n.got, Msg(id, vr.epoch, vr.counter, vr.pdu, true));
      }
    }
  }

  lemma AdoptLocal(cfg: Config, n: Sta, fl: u16, g: Fault, k: nat)
    requires Local(cfg, n, k) && k + 1 < U32_MOD && n.on
    ensures var (tx, st, rc) := TxAdoptSpec(n.ecu.tx, n.ecu.st, fl, g);
            var n' := n.(on := rc != Cut && rc != Crash, ecu := Ecu(st, tx, n.ecu.rx),
              crashes := n.crashes + if rc == Crash then 1 else 0);
            && Local(cfg, n', k + 1)
            && (forall x: u16 :: Loadable(st, DOM_RX, x) ==> Loadable(n.ecu.st, DOM_RX, x))
            && (forall x: u16 :: Loadable(st, DOM_TX, x) ==>
                  Loadable(n.ecu.st, DOM_TX, x) || (x == fl && fl > Val(n.ecu.st.ram.mirror, DOM_TX)))
  {
    hide StoreOk, CommitSpec, Increasing, TxAdoptSpec;
    AdoptFacts(n.ecu.tx, n.ecu.st, fl, g, k);
  }

  lemma RecvLocal(mac: Mac, cfg: Config, n: Sta, id: u16, frame: seq<byte>, up: bool, f: Fault, g: Fault, k: nat)
    requires Local(cfg, n, k) && k + 2 < U32_MOD && n.on
    ensures var n' := Do(mac, cfg, n, Recv(id, frame, up, f, g));
            var vr := VerifySpec(mac, up, id, frame, PduLen(id));
            && Local(cfg, n', k + 2)
            && n'.sent == n.sent && n'.boots == n.boots && n'.floors == n.floors && n'.exhausted == n.exhausted
            && (n'.got == n.got || (id in cfg.rxIds && vr.Verified?
                  && n'.got == n.got + [Msg(id, vr.epoch, vr.counter, vr.pdu, true)]))
            && (forall x: u16 :: Loadable(n'.ecu.st, DOM_RX, x) ==>
                  || Loadable(n.ecu.st, DOM_RX, x)
                  || (id in cfg.rxIds && vr.Verified? && x == vr.epoch))
            && (forall x: u16 :: Loadable(n'.ecu.st, DOM_TX, x) ==>
                  || Loadable(n.ecu.st, DOM_TX, x)
                  || (id in cfg.rxIds && id == cfg.syncRx && vr.Verified? && |vr.pdu| >= 2 && x == GetU16(vr.pdu)
                      && x > Val(n.ecu.st.ram.mirror, DOM_TX)))
  {
    hide StoreOk, CommitSpec, Increasing, VerifySpec, TxAdoptSpec, RxAcceptSpec, RxCheckSpec, TxOk, RxOk, SentOk, GotOk;
    LocalMore(cfg, n, k, k + 2);
    if id in cfg.rxIds {
      AcceptLocal(mac, cfg, n, id, frame, up, f, k);
      var n1 := Accepted(mac, cfg, n, id, frame, up, f);
      LocalMore(cfg, n1, k + 1, k + 2);
      var r := ProcessSpec(mac, up, n.ecu.rx, n.ecu.st, id, frame, PduLen(id), f);
      if r.verdict == Accept && id == cfg.syncRx && |r.pdu| >= 2 {
        AdoptLocal(cfg, n1, GetU16(r.pdu), g, k + 1);
      }
    }
  }

  lemma LocalMore(cfg: Config, n: Sta, k: nat, k': nat)
    requires Local(cfg, n, k) && k <= k'
    ensures Local(cfg, n, k')
  {
    hide StoreOk;
    StoreOkMore(n.ecu.st, k, k');
  }

  // ---------------------------------------------------------------- one step of the system

  /** The two configurations are mirror images. */
  ghost predicate Peers(xc: Config, yc: Config) {
    && IdsOk(xc.txIds) && IdsOk(xc.rxIds) && IdsOk(yc.txIds) && IdsOk(yc.rxIds)
    && (forall id :: id in xc.rxIds ==> id in yc.txIds && id !in xc.txIds && PduLen(id) != 0)
    && (forall id :: id in yc.rxIds ==> id in xc.txIds && id !in yc.txIds && PduLen(id) != 0)
    && xc.syncRx == yc.syncTx && yc.syncRx == xc.syncTx
  }

  lemma GatewayAndActuatorArePeers()
    ensures Peers(GATEWAY, ACTUATOR) && Peers(ACTUATOR, GATEWAY)
  {
  }

  /** A verified frame is one the peer made: the MAC input determines ID, freshness and PDU,
      and a node never receives on an ID it sends on. */
  lemma Authentic(mac: Mac, xc: Config, x: Sta, yc: Config, y: Sta, id: u16, frame: seq<byte>, up: bool)
    requires Peers(xc, yc) && id in xc.rxIds && Unforged(mac, x, y, id, frame)
    requires forall m :: m in x.sent ==> m.id in xc.txIds
    requires VerifySpec(mac, up, id, frame, PduLen(id)).Verified?
    ensures var vr := VerifySpec(mac, up, id, frame, PduLen(id)); Msg(id, vr.epoch, vr.counter, vr.pdu, true) in y.sent
  {
    hide Freshness, MacInput;
    var plen := PduLen(id);
    var vr := VerifySpec(mac, up, id, frame, plen);
    VerifiedMeans(mac, up, id, frame, plen, MAX_DLEN, vr.epoch, vr.counter, vr.pdu);
    var input := InputOfFrame(id, frame, plen);
    var ms := if Made(y.sent, input) then y.sent else x.sent;
    var m :| m in ms && m.out && InputOf(m) == input;
    MacInputInjective(m.id, m.epoch, m.counter, m.pdu, id, vr.epoch, vr.counter, vr.pdu);
    assert m == Msg(id, vr.epoch, vr.counter, vr.pdu, true);
  }

  lemma BootCross(mac: Mac, xc: Config, x: Sta, yc: Config, y: Sta, f: Fault, k: nat)
    requires Peers(xc, yc) && Local(xc, x, k) && Local(yc, y, k) && Cross(x, y) && Cross(y, x) && Room(x)
      && k + 2 < U32_MOD
    ensures var x' := Do(mac, xc, x, Boot(f)); Local(xc, x', k + 2) && Cross(x', y) && Cross(y, x')
  {
    hide StoreOk, TxOk, RxOk, Increasing, Do, Paid;
    BootLocal(mac, xc, x, f, k);
    var x' := Do(mac, xc, x, Boot(f));
    forall v: u16 | Loadable(x'.ecu.st, DOM_TX, v)
      ensures Paid(x', y, v)
    {
      if Loadable(x.ecu.st, DOM_TX, v) {
        PaidMore(x, y, x', y, v);
      } else {
        PaidBoot(x, y, x', v - 1);
      }
    }
    forall e | e in x'.exhausted
      ensures Paid(x', y, e + 1)
    {
      PaidMore(x, y, x', y, e + 1);
    }
    PeerPaid(y, x, x');
  }

  /** More boots and floors of the receiver keep the sender's budget. */
  lemma PeerPaid(y: Sta, x: Sta, x': Sta)
    requires Cross(y, x) && x.floors <= x'.floors
    ensures forall v: u16 :: Loadable(y.ecu.st, DOM_TX, v) ==> Paid(y, x', v)
    ensures forall e :: e in y.exhausted ==> Paid(y, x', e + 1)
  {
    hide Paid, Loadable;
    forall v: nat | Paid(y, x, v)
      ensures Paid(y, x', v)
    {
      PaidMore(y, x, y, x', v);
    }
  }

  lemma SendCross(mac: Mac, xc: Config, x: Sta, y: Sta, id: u16, pdu: seq<byte>, up: bool, f: Fault, k: nat)
    requires Local(xc, x, k) && Cross(x, y) && Cross(y, x) && Room(x) && k + 1 < U32_MOD && x.on
    requires id == xc.syncTx ==> pdu == SyncPdu(x.ecu.rx)
    ensures var x' := SendMsg(mac, x, id, pdu, up, f); Local(xc, x', k + 1) && Cross(x', y) && Cross(y, x')
  {
    hide Local, SendMsg, Paid;
    SendLocal(mac, xc, x, id, pdu, up, f, k);
    var x' := SendMsg(mac, x, id, pdu, up, f);
    var e := Val(x.ecu.st.ram.mirror, DOM_TX);
    assert Loadable(x.ecu.st, DOM_TX, e);
    if x'.sent != x.sent {
      var m :| x'.sent == x.sent + [m];
      SpentAppend(x.sent, m);
    }
    if x'.exhausted != x.exhausted {
      PaidRollover(x, y, x', e);
    }
    forall v: nat | Paid(x, y, v)
      ensures Paid(x', y, v)
    {
      PaidMore(x, y, x', y, v);
    }
    PeerPaid(y, x, x');
  }

  lemma RecvCross(mac: Mac, xc: Config, x: Sta, yc: Config, y: Sta, id: u16, frame: seq<byte>, up: bool, f: Fault,
                  g: Fault, k: nat)
    requires Peers(xc, yc) && Local(xc, x, k) && Local(yc, y, k) && Cross(x, y) && Cross(y, x)
    requires k + 2 < U32_MOD && x.on && Unforged(mac, x, y, id, frame)
    requires Spent(x.sent) <= Val(x.ecu.st.ram.mirror, DOM_TX)
    ensures var x' := Do(mac, xc, x, Recv(id, frame, up, f, g)); Local(xc, x', k + 2) && Cross(x', y) && Cross(y, x')
  {
    hide StoreOk, TxOk, RxOk, Increasing, Do, Paid, VerifySpec, Unforged;
    RecvLocal(mac, xc, x, id, frame, up, f, g, k);
    var x' := Do(mac, xc, x, Recv(id, frame, up, f, g));
    var vr := VerifySpec(mac, up, id, frame, PduLen(id));
    forall v: nat | Paid(x, y, v)
      ensures Paid(x', y, v)
    {
      PaidMore(x, y, x', y, v);
    }
    if id in xc.rxIds && vr.Verified? {
      Authentic(mac, xc, x, yc, y, id, frame, up);
      var m := Msg(id, vr.epoch, vr.counter, vr.pdu, true);
      SpentMax(y.sent);
      if id == xc.syncRx {
        var fl :| fl in y.floors && m.pdu == PutU16(fl);
        U16RoundTrip(fl);
        var e := Val(x.ecu.st.ram.mirror, DOM_TX);
        assert Loadable(x.ecu.st, DOM_TX, e);
        if fl > e {
          PaidFloor(x, y, e, fl);
        }
      }
    }
    PeerPaid(y, x, x');
  }
}
