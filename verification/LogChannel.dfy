/** The target logging channel: events and text into the ring, the cyclic drain and the
    bounded flush out of it. `Log` is the channel's state with, as history, the units
    accepted, the items dropped and the bytes handed to the sink. */
module LogChannel {
  import opened Words
  import opened LogRecord
  import opened LogRing

  const TEXT_MAX := 64
  const MAX_STALL := 1000
  const CORE_APP: Core := 0

  /** What the wire carries: a record, or one character of a text run. */
  datatype Unit = Rec(r: Record) | Chr(c: byte)

  datatype Log = Log(core: Core, cap: nat, seqno: SeqNo, dropped: u32, pending: u32,
                     queue: seq<byte>, out: seq<byte>, units: seq<Unit>, drops: nat)

  datatype DrainStatus = IDLE | SENT | BLOCKED

  function UnitBytes(u: Unit): (b: seq<byte>)
    ensures |b| > 0
  {
    match u
    case Rec(r) => Encode(r)
    case Chr(c) => [c]
  }

  function Bytes(us: seq<Unit>): (b: seq<byte>)
    ensures |b| >= |us|
  {
    if us == [] then [] else UnitBytes(us[0]) + Bytes(us[1..])
  }

  function Chars(t: seq<byte>): (us: seq<Unit>)
    ensures |us| == |t|
  {
    seq(|t|, i requires 0 <= i < |t| => Chr(t[i]))
  }

  function Fresh(core: Core, cap: nat): Log {
    Log(core, cap, 0, 0, 0, [], [], [], 0)
  }

  function Drop(s: Log): Log {
    s.(dropped := (s.dropped as int + 1) % U32_MOD, pending := (s.pending as int + 1) % U32_MOD, drops := s.drops + 1)
  }

  /** Append all of `us`, or drop the item. */
  function Offer(s: Log, us: seq<Unit>): (t: Log) {
    if |s.queue| + |Bytes(us)| > s.cap then Drop(s)
    else s.(queue := s.queue + Bytes(us), units := s.units + us)
  }

  /** The records one event call wants to enqueue: an overflow report first if drops
      are pending. */
  function EventUnits(s: Log, now: u32, evt: u16, arg0: u32, arg1: u16): (us: seq<Unit>)
    ensures 0 < |us| <= 2
  {
    if s.pending == 0 then [Rec(Record(s.core, s.seqno, evt, now, arg0, arg1))]
    else [Rec(Record(s.core, s.seqno, EVT_OVERFLOW, now, s.pending, 0)),
          Rec(Record(s.core, (s.seqno as int + 1) % SEQ_MOD, evt, now, arg0, arg1))]
  }

  function EvtSpec(s: Log, now: u32, evt: u16, arg0: u32, arg1: u16): Log {
    var us := EventUnits(s, now, evt, arg0, arg1);
    if |s.queue| + |Bytes(us)| > s.cap then Drop(s)
    else Offer(s, us).(seqno := (s.seqno as int + |us|) % SEQ_MOD, pending := 0)
  }

  function Cut(t: seq<byte>): (r: seq<byte>)
    ensures |r| <= TEXT_MAX && r <= t
  {
    if |t| <= TEXT_MAX then t else t[..TEXT_MAX]
  }

  predicate Ascii(t: seq<byte>) {
    forall i :: 0 <= i < |t| ==> t[i] < 0x80
  }

  /** Only the part looked at decides whether the text is ASCII. */
  function TextSpec(s: Log, t: seq<byte>): Log {
    if Ascii(Cut(t)) then Offer(s, Chars(Cut(t))) else s
  }

  function DrainSpec(s: Log, n: nat): Log
    requires n <= |s.queue|
  {
    s.(queue := s.queue[n..], out := s.out + s.queue[..n])
  }

  function InitSpec(core: Core, cap: nat, banner: seq<byte>): Log {
    if core == CORE_APP then TextSpec(Fresh(core, cap), banner) else Fresh(core, cap)
  }

  lemma {:induction false} BytesOfChars(t: seq<byte>)
    ensures Bytes(Chars(t)) == t
  {
    if t != [] {
      assert Chars(t)[1..] == Chars(t[1..]);
      BytesOfChars(t[1..]);
    }
  }

  lemma BytesOfTwo(a: Unit, b: Unit)
    ensures Bytes([a]) == UnitBytes(a) && Bytes([a, b]) == UnitBytes(a) + UnitBytes(b)
  {
    hide UnitBytes;
    assert [a][1..] == [] && [a, b][1..] == [b];
    assert Bytes([a]) == UnitBytes(a) + [];
    assert [b][1..] == [];
    assert Bytes([b]) == UnitBytes(b) + [];
  }

  /** The UART behind the port: it may refuse, take part of the bytes, and be busy. `held` counts
      the times it did. */
  class Sink {
    ghost var sent: seq<byte>
    ghost var held: nat
    var idle: bool

    constructor ()
      ensures sent == []
    {
      sent, held := [], 0;
      idle := false;
    }

    method Ready() returns (b: bool)
      modifies this`held
      ensures held == old(held) + if b then 0 else 1
    {
      b := *;
      held := held + if b then 0 else 1;
    }

    method Tx(data: seq<byte>) returns (n: nat)
      modifies this`sent, this`held
      ensures n <= |data| && sent == old(sent) + data[..n] && held == old(held) + if n == |data| then 0 else 1
    {
      n :| n <= |data|;
      sent := sent + data[..n];
      held := held + if n == |data| then 0 else 1;
    }

    method Idle() returns (b: bool)
      modifies this`idle, this`held
      ensures b == idle && held == old(held) + if b then 0 else 1
    {
      b := *;
      idle := b;
      held := held + if b then 0 else 1;
    }
  }

  /** The millisecond counter, with every reading of it. */
  class Clock {
    ghost var readings: seq<u32>

    constructor () {
      readings := [];
    }

    method NowMs() returns (t: u32)
      modifies this
      ensures readings == old(readings) + [t]
    {
      t := *;
      readings := readings + [t];
    }
  }

  function Elapsed(now: u32, start: u32): u32 {
    (now as int - start as int) % U32_MOD
  }

  class Channel {
    const core: Core
    const ring: ByteRing
    const sink: Sink
    const clock: Clock
    var seqno: SeqNo
    var dropped: u32
    var pending: u32
    ghost var units: seq<Unit>
    ghost var drops: nat

    ghost predicate Valid()
      reads this, ring, ring.cells
    {
      ring.Valid()
    }

    ghost function State(): Log
      reads this, ring, ring.cells, sink`sent
      requires Valid()
    {
      Log(core, ring.cells.Length, seqno, dropped, pending, ring.Contents(), sink.sent, units, drops)
    }

    constructor (core: Core, bits: nat, banner: seq<byte>)
      requires bits <= 31
      ensures Valid() && State() == InitSpec(core, Pow2(bits), banner)
      ensures fresh(ring) && fresh(ring.cells) && fresh(sink) && fresh(clock)
    {
      this.core := core;
      ring := new ByteRing(bits, 0);
      sink := new Sink();
      clock := new Clock();
      seqno, dropped, pending := 0, 0, 0;
      units, drops := [], 0;
      new;
      ring.Clear();
      if core == CORE_APP {
        Text(banner);
      }
    }

    method NoteDrop()
      requires Valid()
      modifies this
      ensures Valid() && State() == Drop(old(State()))
    {
      dropped := (dropped as int + 1) % U32_MOD;
      pending := (pending as int + 1) % U32_MOD;
      drops := drops + 1;
    }

    method Evt(evt: u16, arg0: u32, arg1: u16) returns (now: u32)
      requires Valid()
      modifies this, ring, ring.cells, clock
      ensures Valid() && State() == EvtSpec(old(State()), now, evt, arg0, arg1)
      ensures clock.readings == old(clock.readings) + [now]
    {
      hide Encode, Window;
      now := clock.NowMs();
      ghost var us := EventUnits(State(), now, evt, arg0, arg1);
      var next, overflow := seqno, [];
      if pending != 0 {
        overflow := RecEncode(Record(core, next, EVT_OVERFLOW, now, pending, 0));
        next := (next as int + 1) % SEQ_MOD;
        BytesOfTwo(us[0], us[1]);
      } else {
        BytesOfTwo(us[0], us[0]);
      }
      var event := RecEncode(Record(core, next, evt, now, arg0, arg1));
      assert overflow + event == Bytes(us);
      var ok := ring.TryEnqueue(overflow, event);
      if !ok {
        NoteDrop();
        return;
      }
      if |overflow| != 0 {
        seqno := (seqno as int + 2) % SEQ_MOD;
        pending := 0;
      } else {
        seqno := (seqno as int + 1) % SEQ_MOD;
      }
      units := units + us;
    }

    /** `t` is the string up to its terminating NUL. */
    method Text(t: seq<byte>)
      requires Valid()
      modifies this, ring, ring.cells
      ensures Valid() && State() == TextSpec(old(State()), t)
    {
      hide Window, Bytes, Encode;
      var len := 0;
      while len < TEXT_MAX && len < |t|
        invariant len <= |Cut(t)| && Ascii(Cut(t)[..len])
      {
        if t[len] >= 0x80 {
          assert Cut(t)[len] == t[len];
          return;
        }
        len := len + 1;
      }
      assert t[..len] == Cut(t) == Cut(t)[..len];
      BytesOfChars(Cut(t));
      var ok := ring.TryEnqueue(t[..len], []);
      assert t[..len] + [] == Cut(t);
      if !ok {
        NoteDrop();
      } else {
        units := units + Chars(Cut(t));
      }
    }

    /** Offers the sink what lies in one piece, at most `max` bytes, and takes out what it took. */
    method Piece(max: nat) returns (offered: nat, sent: nat)
      requires Valid() && State().queue != [] && max > 0
      modifies ring`tail, sink`sent, sink`held
      ensures Valid() && sent <= offered <= max && 0 < offered && sent <= |old(State()).queue|
      ensures State() == DrainSpec(old(State()), sent)
      ensures sink.held == old(sink.held) + if sent < offered then 1 else 0
    {
      hide Window;
      ghost var was := State();
      var chunk := ring.Front(max);
      sent := sink.Tx(chunk);
      offered := |chunk|;
      assert was.queue[..sent] == chunk[..sent];
      if sent > 0 {
        ring.Consume(sent);
      }
    }

    /** Moves a prefix of the queue to the sink, at most `limit` bytes unless `limit` is 0. It is
        BLOCKED exactly when the sink refused, or took less than it was offered. */
    method Drain(limit: nat) returns (st: DrainStatus, ghost n: nat)
      requires Valid()
      modifies ring`tail, sink`sent, sink`held
      ensures Valid() && n <= |old(State()).queue| && State() == DrainSpec(old(State()), n)
      ensures limit != 0 ==> n <= limit
      ensures sink.held == old(sink.held) + if st == BLOCKED then 1 else 0
      ensures st == IDLE <==> old(State()).queue == []
      ensures st == IDLE ==> State().queue == []
      ensures st == SENT ==> n > 0 && (State().queue == [] || n == limit)
    {
      hide Window, DrainSpec;
      ghost var was := State();
      var remaining: nat, sentAny := limit, false;
      n := 0;
      DrainNothing(was);
      while true
        invariant Valid() && n <= |was.queue| && State() == DrainSpec(was, n)
        invariant limit != 0 ==> remaining == limit - n
        invariant sentAny == (n > 0) && sink.held == old(sink.held)
        decreases |was.queue| - n
      {
        var used := ring.Used();
        if used == 0 {
          break;
        }
        if limit != 0 && remaining == 0 {
          return if sentAny then SENT else IDLE, n;
        }
        var ready := sink.Ready();
        if !ready {
          return BLOCKED, n;
        }
        var offered, sent := Piece(if limit != 0 then remaining else used);
        DrainTwice(was, n, sent);
        n := n + sent;
        if sent == 0 {
          return BLOCKED, n;
        }
        sentAny := true;
        if limit != 0 {
          remaining := remaining - sent;
        }
        if sent < offered {
          return BLOCKED, n;
        }
      }
      st := if sentAny then SENT else IDLE;
    }

    /** Success means nothing is left in the ring and the sink reported idle. Failure means that
        the last reading is at least `timeout` after the first, and no other was, or that the sink
        refused, took too little or was busy at least 1000 times. The number of rounds is bounded
        whatever the clock and the sink do. */
    method Flush(timeout: u32) returns (ok: bool, ghost n: nat, ghost rounds: nat)
      requires Valid()
      modifies ring`tail, sink, clock
      ensures Valid() && n <= |old(State()).queue| && State() == DrainSpec(old(State()), n)
      ensures ok ==> State().queue == [] && sink.idle
      ensures old(clock.readings) < clock.readings
      ensures var r := clock.readings[|old(clock.readings)|..];
        && (forall i :: 1 <= i < |r| - 1 ==> Elapsed(r[i], r[0]) < timeout)
        && (ok ==> |r| == 1 || Elapsed(r[|r| - 1], r[0]) < timeout)
        && (!ok ==> (|r| > 1 && Elapsed(r[|r| - 1], r[0]) >= timeout) || sink.held >= old(sink.held) + MAX_STALL)
      ensures rounds <= 2 * MAX_STALL + 1
    {
      hide Window, DrainSpec, Elapsed;
      ghost var was := State();
      var start := clock.NowMs();
      ghost var from := |old(clock.readings)|;
      var stalled, drained := 0, false;
      n, rounds := 0, 0;
      DrainNothing(was);
      while true
        invariant Valid() && n <= |was.queue| && State() == DrainSpec(was, n)
        invariant stalled < MAX_STALL && sink.held >= old(sink.held) + stalled
        invariant old(clock.readings) + [start] <= clock.readings
        invariant forall i :: from < i < |clock.readings| ==> Elapsed(clock.readings[i], start) < timeout
        invariant drained || rounds != stalled ==> State().queue == []
        invariant drained ==> rounds <= MAX_STALL + 1 + stalled
        invariant drained || rounds == stalled || (stalled == 0 && rounds <= MAX_STALL)
        decreases 2 * MAX_STALL + 1 - rounds
      {
        rounds := rounds + 1;
        var progress := false;
        if !drained {
          var st;
          ghost var m;
          st, m := Drain(0);
          DrainTwice(was, n, m);
          n := n + m;
          if st == IDLE {
            drained, progress := true, true;
          } else if st == SENT {
            progress := true;
          }
        }
        if drained {
          var idle := sink.Idle();
          if idle {
            return true, n, rounds;
          }
        }
        stalled := if progress then 0 else stalled + 1;
        if stalled >= MAX_STALL {
          return false, n, rounds;
        }
        var now := clock.NowMs();
        if Elapsed(now, start) >= timeout {
          return false, n, rounds;
        }
      }
    }
  }

  lemma DrainNothing(s: Log)
    ensures DrainSpec(s, 0) == s
  {
  }

  lemma DrainTwice(s: Log, n: nat, m: nat)
    requires n <= |s.queue| && m <= |DrainSpec(s, n).queue|
    ensures n + m <= |s.queue|
    ensures DrainSpec(DrainSpec(s, n), m) == DrainSpec(s, n + m)
  {
    assert s.queue[n..][m..] == s.queue[n + m..];
    assert s.queue[..n] + s.queue[n..][..m] == s.queue[..n + m];
  }
}
