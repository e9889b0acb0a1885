/** Freshness values: a durable epoch shared by all IDs of a sender and a counter per ID;
    a receiver's boot floor, current epoch and high-water mark per ID. The functions are
    the specification, the classes the step-by-step code proved against them. */
module SecocFreshness {
  import opened Words
  import opened WorkFlash
  import opened SecocStore

  const MAX_IDS := 8

  datatype TxRaw = Tx(bound: bool, domain: nat, epoch: u16, ids: seq<u16>, counter: seq<u16>)

  /** A sender context; `bound` means its store pointer is set, as a boot does. */
  type TxState = t: TxRaw | |t.ids| == |t.counter| witness UNBOOTED_TX

  const UNBOOTED_TX := Tx(false, 0, 0, [], [])

  datatype RxRaw = Rx(domain: nat, floor: u16, current: u16, ids: seq<u16>, high: seq<u16>)

  type RxState = r: RxRaw | |r.ids| == |r.high| witness UNBOOTED_RX

  const UNBOOTED_RX := Rx(0, 0, 0, [], [])

  datatype Verdict = Fresh | Stale | Unknown

  function Zeros(n: nat): (z: seq<u16>)
    ensures |z| == n
  {
    seq(n, _ => 0)
  }

  function FindSlot(ids: seq<u16>, id: u16): (idx: Option<nat>)
    ensures match idx
            case Some(i) => i < |ids| && ids[i] == id && id !in ids[..i]
            case None => id !in ids
  {
    if ids == [] then None
    else if ids[0] == id then Some(0)
    else
      assert ids == [ids[0]] + ids[1..];
      match FindSlot(ids[1..], id)
      case None => None
      case Some(i) =>
        assert ids[..i + 1] == [ids[0]] + ids[1..][..i];
        Some(i + 1)
  }

  method FindSlotLoop(ids: seq<u16>, id: u16) returns (idx: Option<nat>)
    ensures idx == FindSlot(ids, id)
  {
    for i := 0 to |ids|
      invariant id !in ids[..i]
    {
      if ids[i] == id {
        return Some(i);
      }
    }
    return None;
  }

  predicate IdsOk(ids: seq<u16>) {
    0 < |ids| <= MAX_IDS
  }

  // ---------------------------------------------------------------- sender

  /** Load E, commit E + 1 durably, then spend E + 1. */
  function TxBootSpec(tx: TxState, st: Store, d: nat, ids: seq<u16>, f: Fault): (TxState, Store, Rc) {
    if !IdsOk(ids) then (tx, st, Failed)
    else
      var next := (Load(st.ram, d).GetOr(0) + 1) % U16_MOD;
      var (st', rc) := CommitSpec(st, d, next, f);
      (if rc == Done then Tx(true, d, next, ids, Zeros(|ids|)) else tx, st', rc)
  }

  /** The next freshness value for an ID; past counter 0xFFFF the epoch is bumped first. */
  function TxNextSpec(tx: TxState, st: Store, id: u16, f: Fault): (r: (TxState, Store, Rc, u16, u16))
    ensures r.2 == Done ==> id in r.0.ids
  {
    match FindSlot(tx.ids, id)
    case None => (tx, st, Failed, 0, 0)
    case Some(i) =>
      if tx.counter[i] == 0xFFFF then
        var bumped := (tx.epoch + 1) % U16_MOD;
        var (st', rc) := CommitSpec(st, tx.domain, bumped, f);
        if rc != Done then (tx, st', rc, 0, 0)
        else (tx.(epoch := bumped, counter := Zeros(|tx.ids|)[i := 1]), st', Done, bumped, 1)
      else
        var next := tx.counter[i] + 1;
        (tx.(counter := tx.counter[i := next]), st, Done, tx.epoch, next)
  }

  /** Forward-only adoption of a floor. On a context that was never booted the code follows a
      null store pointer. */
  function TxAdoptSpec(tx: TxState, st: Store, floor: u16, f: Fault): (TxState, Store, Rc) {
    if floor <= tx.epoch then (tx, st, Failed)
    else if !tx.bound then (tx, st, Crash)
    else
      var (st', rc) := CommitSpec(st, tx.domain, floor, f);
      (if rc == Done then tx.(epoch := floor, counter := Zeros(|tx.ids|)) else tx, st', rc)
  }

  // ---------------------------------------------------------------- receiver

  function RxBootSpec(rx: RxState, ram: Ram, d: nat, ids: seq<u16>): RxState {
    if !IdsOk(ids) then rx
    else
      var h := Load(ram, d).GetOr(0);
      Rx(d, (h + 1) % U16_MOD, h, ids, Zeros(|ids|))
  }

  function RxCheckSpec(rx: RxState, id: u16, epoch: u16, counter: u16): Verdict {
    match FindSlot(rx.ids, id)
    case None => Unknown
    case Some(i) =>
      if epoch < rx.floor then Stale
      else if epoch > rx.current then Fresh
      else if epoch == rx.current && counter > rx.high[i] then Fresh
      else Stale
  }

  /** A newer epoch is made durable before it is adopted. */
  function RxAcceptSpec(rx: RxState, st: Store, id: u16, epoch: u16, counter: u16, f: Fault): (RxState, Store, Rc) {
    match FindSlot(rx.ids, id)
    case None => (rx, st, Failed)
    case Some(i) =>
      if epoch > rx.current then
        var (st', rc) := CommitSpec(st, rx.domain, epoch, f);
        if rc != Done then (rx, st', rc)
        else (rx.(current := epoch, high := Zeros(|rx.ids|)[i := counter]), st', Done)
      else (rx.(high := rx.high[i := counter]), st, Done)
  }

  // ---------------------------------------------------------------- the contexts

  method ResetAll(counters: seq<u16>) returns (c: seq<u16>)
    ensures c == Zeros(|counters|)
  {
    c := counters;
    for i := 0 to |c|
      invariant |c| == |counters|
      invariant forall k :: 0 <= k < i ==> c[k] == 0
    {
      c := c[i := 0];
    }
  }

  class TxContext {
    const store: FreshnessStore
    var bound: bool
    var domain: nat
    var epoch: u16
    var ids: seq<u16>
    var counter: seq<u16>

    predicate Valid()
      reads this
    {
      |ids| == |counter|
    }

    function Value(): TxState
      reads this
      requires Valid()
    {
      Tx(bound, domain, epoch, ids, counter)
    }

    /** Static storage: zeroed, no store bound. */
    constructor (store: FreshnessStore)
      ensures Valid() && Value() == UNBOOTED_TX && this.store == store
    {
      this.store := store;
      bound, domain, epoch, ids, counter := false, 0, 0, [], [];
    }

    method Boot(d: nat, ids: seq<u16>, f: Fault) returns (rc: Rc)
      requires Valid()
      modifies this, store, store.flash
      ensures Valid() && (Value(), store.State(), rc) == TxBootSpec(old(Value()), old(store.State()), d, ids, f)
    {
      hide CommitSpec, Load, Zeros;
      if |ids| == 0 || |ids| > MAX_IDS {
        return Failed;
      }
      var e := store.LoadEpoch(d);
      var next := (e.GetOr(0) + 1) % U16_MOD;
      rc := store.CommitEpoch(d, next, f);
      if rc != Done {
        return;
      }
      bound, domain, epoch, this.ids, counter := true, d, next, ids, Zeros(|ids|);
    }

    method Next(id: u16, f: Fault) returns (rc: Rc, e: u16, c: u16)
      requires Valid()
      modifies this, store, store.flash
      ensures Valid() && (Value(), store.State(), rc, e, c) == TxNextSpec(old(Value()), old(store.State()), id, f)
    {
      hide CommitSpec;
      var idx := FindSlotLoop(ids, id);
      if idx.None? {
        return Failed, 0, 0;
      }
      if counter[idx.value] == 0xFFFF {
        var bumped := (epoch + 1) % U16_MOD;
        rc := store.CommitEpoch(domain, bumped, f);
        if rc != Done {
          return rc, 0, 0;
        }
        epoch := bumped;
        counter := ResetAll(counter);
      }
      var next := counter[idx.value] + 1;
      counter := counter[idx.value := next];
      return Done, epoch, next;
    }

    method AdoptFloor(floor: u16, f: Fault) returns (rc: Rc)
      requires Valid()
      modifies this, store, store.flash
      ensures Valid() && (Value(), store.State(), rc) == TxAdoptSpec(old(Value()), old(store.State()), floor, f)
    {
      hide CommitSpec;
      if floor <= epoch {
        return Failed;
      }
      if !bound {
        return Crash;
      }
      rc := store.CommitEpoch(domain, floor, f);
      if rc != Done {
        return;
      }
      epoch := floor;
      counter := ResetAll(counter);
    }
  }

  class RxContext {
    const store: FreshnessStore
    var domain: nat
    var floor: u16
    var current: u16
    var ids: seq<u16>
    var high: seq<u16>

    predicate Valid()
      reads this
    {
      |ids| == |high|
    }

    function Value(): RxState
      reads this
      requires Valid()
    {
      Rx(domain, floor, current, ids, high)
    }

    constructor (store: FreshnessStore)
      ensures Valid() && Value() == UNBOOTED_RX && this.store == store
    {
      this.store := store;
      domain, floor, current, ids, high := 0, 0, 0, [], [];
    }

    method Boot(d: nat, ids: seq<u16>) returns (ok: bool)
      requires Valid()
      modifies this
      ensures Valid() && Value() == RxBootSpec(old(Value()), store.RamImage(), d, ids)
      ensures ok == IdsOk(ids)
    {
      if |ids| == 0 || |ids| > MAX_IDS {
        return false;
      }
      var h := store.LoadEpoch(d);
      domain, floor, current, this.ids, high := d, (h.GetOr(0) + 1) % U16_MOD, h.GetOr(0), ids, Zeros(|ids|);
      return true;
    }

    method Check(id: u16, epoch: u16, counter: u16) returns (v: Verdict)
      requires Valid()
      ensures v == RxCheckSpec(Value(), id, epoch, counter)
    {
      var idx := FindSlotLoop(ids, id);
      if idx.None? {
        return Unknown;
      }
      if epoch < floor {
        return Stale;
      }
      if epoch > current || (epoch == current && counter > high[idx.value]) {
        return Fresh;
      }
      return Stale;
    }

    method Accept(id: u16, epoch: u16, counter: u16, f: Fault) returns (rc: Rc)
      requires Valid()
      modifies this, store, store.flash
      ensures Valid()
      ensures (Value(), store.State(), rc) == RxAcceptSpec(old(Value()), old(store.State()), id, epoch, counter, f)
    {
      hide CommitSpec;
      var idx := FindSlotLoop(ids, id);
      if idx.None? {
        return Failed;
      }
      if epoch > current {
        rc := store.CommitEpoch(domain, epoch, f);
        if rc != Done {
          return;
        }
        current := epoch;
        high := ResetAll(high);
      }
      high := high[idx.value := counter];
      return Done;
    }
  }
}
