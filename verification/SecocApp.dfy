/** The application glue of one node: boot, build a secured frame, build the boot sync,
    handle a received frame. The gateway and the actuator run the same code with their
    sender and receiver IDs exchanged. */
module SecocApp {
  import opened Words
  import opened WorkFlash
  import opened SecocStore
  import opened SecocFreshness
  import opened SecocFrame
  import opened SecocRx

  const DOM_TX := 0
  const DOM_RX := 1

  /** Protected IDs of a node, and the two IDs that carry a boot floor. */
  datatype Config = Config(txIds: seq<u16>, rxIds: seq<u16>, syncTx: u16, syncRx: u16)

  const GATEWAY := Config([0x120, 0x121, 0x1F0], [0x200, 0x2F0], 0x1F0, 0x2F0)
  const ACTUATOR := Config([0x200, 0x2F0], [0x120, 0x121, 0x1F0], 0x2F0, 0x1F0)

  /** Authentic PDU length of each protected ID, 0 for any other. */
  function PduLen(id: u16): nat {
    if id == 0x120 || id == 0x121 then 1
    else if id == 0x200 then 3
    else if id == 0x2F0 || id == 0x1F0 then 2
    else 0
  }

  /** The secured frames: 13 bytes for a command, 15 for telemetry, 14 for a sync, each of which
      goes out padded to 16. */
  lemma SecuredLengths(id: u16)
    ensures PduLen(id) + TRAILER_LEN == (if id == 0x120 || id == 0x121 then 13 else if id == 0x200 then 15
      else if id == 0x2F0 || id == 0x1F0 then 14 else 12)
    ensures PduLen(id) != 0 ==> FdLen(PduLen(id) + TRAILER_LEN) == 16
    ensures PduLen(id) != 0 <==> id in GATEWAY.txIds || id in ACTUATOR.txIds
  {
  }

  /** The state the code reads and writes: the store and the two freshness contexts. */
  datatype Ecu = Ecu(st: Store, tx: TxState, rx: RxState)

  /** Power-on: mount, then boot the sender and the receiver unless the store is BROKEN. */
  function InitSpec(cfg: Config, slots: Slots, f: Fault): (Ecu, bool) {
    var st := MountStore(slots);
    if st.ram.status == Broken then (Ecu(st, UNBOOTED_TX, UNBOOTED_RX), false)
    else
      var (tx, st', rc) := TxBootSpec(UNBOOTED_TX, st, DOM_TX, cfg.txIds, f);
      if rc == Cut then (Ecu(st', tx, UNBOOTED_RX), true)
      else (Ecu(st', tx, RxBootSpec(UNBOOTED_RX, st'.ram, DOM_RX, cfg.rxIds)), false)
  }

  /** `drawn` is the freshness value spent on the frame, even if no frame came out. */
  datatype Built = Built(ecu: Ecu, cut: bool, drawn: Option<(u16, u16)>, frame: Option<seq<byte>>)

  function BuildSpec(mac: Mac, up: bool, e: Ecu, id: u16, pdu: seq<byte>, f: Fault): Built {
    var (tx, st, rc, epoch, counter) := TxNextSpec(e.tx, e.st, id, f);
    if rc != Done then Built(Ecu(st, tx, e.rx), rc == Cut, None, None)
    else Built(Ecu(st, tx, e.rx), false, Some((epoch, counter)), Secure(mac, up, id, epoch, counter, pdu, MAX_DLEN))
  }

  /** The boot sync announces this receiver's floor to the peer. */
  function SyncPdu(rx: RxState): seq<byte> {
    PutU16(rx.floor)
  }

  /** `got` is the accepted freshness and PDU, if any; `crash` says the processor faulted. */
  datatype Handled = Handled(ecu: Ecu, cut: bool, crash: bool, got: Option<(u16, u16, seq<byte>)>)

  /** A received frame: the verdict, and for the peer's sync the adoption of its floor. */
  function HandleSpec(mac: Mac, up: bool, cfg: Config, e: Ecu, id: u16, frame: seq<byte>, f: Fault, g: Fault): Handled {
    if id !in cfg.rxIds then Handled(e, false, false, None)
    else
      var r := ProcessSpec(mac, up, e.rx, e.st, id, frame, PduLen(id), f);
      var e' := Ecu(r.st, e.tx, r.rx);
      if r.verdict != Accept then Handled(e', r.cut, false, None)
      else if id != cfg.syncRx || |r.pdu| < 2 then Handled(e', false, false, Some((r.epoch, r.counter, r.pdu)))
      else
        var (tx, st, rc) := TxAdoptSpec(e.tx, r.st, GetU16(r.pdu), g);
        Handled(Ecu(st, tx, r.rx), rc == Cut, rc == Crash, Some((r.epoch, r.counter, r.pdu)))
  }

  class Node {
    const cfg: Config
    const mac: Mac
    const store: FreshnessStore
    const tx: TxContext
    const rx: RxContext
    const receiver: SecocReceiver

    predicate Valid()
      reads this, tx, rx
    {
      tx.Valid() && rx.Valid() && tx.store == store && rx.store == store && receiver.context == rx
    }

    ghost function Value(): Ecu
      requires Valid()
      reads this, store, store.flash, tx, rx
    {
      Ecu(store.State(), tx.Value(), rx.Value())
    }

    /** Power-on with zeroed RAM, up to the end of the initialisation. */
    constructor PowerOn(cfg: Config, mac: Mac, flash: Flash, f: Fault)
      modifies flash
      ensures Valid() && this.cfg == cfg && this.mac == mac && store.flash == flash
      ensures Value() == InitSpec(cfg, old(flash.slots), f).0
    {
      this.cfg := cfg;
      this.mac := mac;
      var s := new FreshnessStore(flash);
      var t := new TxContext(s);
      var r := new RxContext(s);
      var q := new SecocReceiver(r);
      store, tx, rx, receiver := s, t, r, q;
      new;
      hide CommitSpec, Mount;
      var status := s.MountSlots();
      if status != Broken {
        var rc := t.Boot(DOM_TX, cfg.txIds, f);
        if rc != Cut {
          var _ := r.Boot(DOM_RX, cfg.rxIds);
        }
      }
    }

    /** Draw a freshness value and fill `out` with the secured frame; length 0 on failure. */
    method BuildSecured(up: bool, id: u16, pdu: seq<byte>, out: array<byte>, f: Fault) returns (len: nat, cut: bool)
      requires Valid() && out.Length == MAX_DLEN
      modifies store, store.flash, tx, out
      ensures Valid()
      ensures var b := BuildSpec(mac, up, old(Value()), id, pdu, f);
              && Value() == b.ecu && cut == b.cut
              && (if b.frame.Some? then len == |b.frame.value| <= out.Length && out[..len] == b.frame.value
                    else len == 0)
    {
      hide CommitSpec, Secure;
      ghost var before := Value();
      var rc, epoch, counter := tx.Next(id, f);
      if rc != Done {
        return 0, rc == Cut;
      }
      len := SecureFrame(mac, up, id, epoch, counter, pdu, out);
      return len, false;
    }

    method BuildBootSync(up: bool, out: array<byte>, f: Fault) returns (len: nat, cut: bool)
      requires Valid() && out.Length == MAX_DLEN
      modifies store, store.flash, tx, out
      ensures Valid()
      ensures var b := BuildSpec(mac, up, old(Value()), cfg.syncTx, SyncPdu(old(rx.Value())), f);
              && Value() == b.ecu && cut == b.cut
              && (if b.frame.Some? then len == |b.frame.value| <= out.Length && out[..len] == b.frame.value
                    else len == 0)
    {
      len, cut := BuildSecured(up, cfg.syncTx, PutU16(rx.floor), out, f);
    }

    method Handle(up: bool, id: u16, frame: seq<byte>, f: Fault, g: Fault)
      returns (pdu: Option<seq<byte>>, cut: bool, crash: bool)
      requires Valid()
      modifies store, store.flash, tx, rx, receiver
      ensures Valid()
      ensures var h := HandleSpec(mac, up, cfg, old(Value()), id, frame, f, g);
              && Value() == h.ecu && cut == h.cut && crash == h.crash
              && (pdu.Some? <==> h.got.Some?) && (h.got.Some? ==> pdu.value == h.got.value.2)
    {
      hide CommitSpec, VerifySpec;
      if id !in cfg.rxIds {
        return None, false, false;
      }
      var out := new byte[MAX_DLEN];
      var verdict, n, lost := receiver.Process(mac, up, id, frame, PduLen(id), f, out);
      var p := out[..n];
      if verdict != Accept {
        return None, lost, false;
      }
      if id == cfg.syncRx && |p| >= 2 {
        var rc := tx.AdoptFloor(GetU16(p), g);
        return Some(p), rc == Cut, rc == Crash;
      }
      return Some(p), false, false;
    }
  }
}
