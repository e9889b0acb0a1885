/** The log stream end to end: what runs of the target channel put on the wire, and what
    the host decoder makes of it. */
module LogTheorems {
  import opened Words
  import opened LogRecord
  import opened LogChannel
  import D = LogDecoder

  // ---------------------------------------------------------------- streams of units

  /** Records of one core with consecutive sequence numbers from `next` on, and ASCII text. */
  predicate Consecutive(us: seq<Unit>, core: Core, next: SeqNo) {
    us == [] ||
    match us[0]
    case Chr(c) => c < 0x80 && Consecutive(us[1..], core, next)
    case Rec(r) => r.core == core && r.seqno == next && Consecutive(us[1..], core, (next as int + 1) % SEQ_MOD)
  }

  function Records(us: seq<Unit>): (n: nat)
    ensures n <= |us|
  {
    if us == [] then 0 else (if us[0].Rec? then 1 else 0) + Records(us[1..])
  }

  /** Sum of the counts the overflow reports carry. */
  function Reported(us: seq<Unit>): nat {
    if us == [] then 0
    else (if us[0].Rec? && us[0].r.evt == EVT_OVERFLOW then us[0].r.arg0 else 0) + Reported(us[1..])
  }

  function After(next: SeqNo, n: nat): SeqNo {
    (next as int + n) % SEQ_MOD
  }

  lemma {:induction false} BytesAppend(a: seq<Unit>, b: seq<Unit>)
    ensures Bytes(a + b) == Bytes(a) + Bytes(b)
  {
    hide UnitBytes;
    if a == [] {
      assert a + b == b;
    } else {
      assert (a + b)[1..] == a[1..] + b;
      BytesAppend(a[1..], b);
    }
  }

  lemma {:induction false} RecordsAppend(a: seq<Unit>, b: seq<Unit>)
    ensures Records(a + b) == Records(a) + Records(b) && Reported(a + b) == Reported(a) + Reported(b)
  {
    if a == [] {
      assert a + b == b;
    } else {
      assert (a + b)[1..] == a[1..] + b;
      RecordsAppend(a[1..], b);
    }
  }

  lemma {:induction false} ConsecutiveAppend(a: seq<Unit>, b: seq<Unit>, core: Core, next: SeqNo)
    ensures Consecutive(a + b, core, next)
      <==> Consecutive(a, core, next) && Consecutive(b, core, After(next, Records(a)))
  {
    if a == [] {
      assert a + b == b;
    } else {
      assert (a + b)[1..] == a[1..] + b && (a + b)[0] == a[0];
      ConsecutiveAppend(a[1..], b, core, if a[0].Rec? then (next as int + 1) % SEQ_MOD else next);
    }
  }

  lemma {:induction false} TextIsConsecutive(t: seq<byte>, core: Core, next: SeqNo)
    requires Ascii(t)
    ensures Consecutive(Chars(t), core, next) && Records(Chars(t)) == 0 && Reported(Chars(t)) == 0
  {
    if t != [] {
      assert Chars(t)[1..] == Chars(t[1..]);
      TextIsConsecutive(t[1..], core, next);
    }
  }

  // ---------------------------------------------------------------- runs of the target

  datatype Op = Evt(now: u32, evt: u16, arg0: u32, arg1: u16) | Text(t: seq<byte>) | Drained(n: nat)

  predicate Step(s: Log, op: Op, t: Log) {
    match op
    case Evt(now, evt, arg0, arg1) => t == EvtSpec(s, now, evt, arg0, arg1)
    case Text(x) => t == TextSpec(s, x)
    case Drained(n) => n <= |s.queue| && t == DrainSpec(s, n)
  }

  predicate Trace(states: seq<Log>, ops: seq<Op>) {
    |states| == |ops| + 1 && forall i {:trigger ops[i]} :: 0 <= i < |ops| ==> Step(states[i], ops[i], states[i + 1])
  }

  /** The application leaves the overflow event to the channel. */
  predicate NoForgedOverflow(ops: seq<Op>) {
    forall i :: 0 <= i < |ops| && ops[i].Evt? ==> ops[i].evt != EVT_OVERFLOW
  }

  /** Nothing is lost between the accepted units and the wire, and everything dropped is
      counted: the reports made plus the pending count are the drops, modulo 2^32. */
  ghost predicate Inv(s: Log, core: Core, honest: bool) {
    && s.core == core
    && s.out + s.queue == Bytes(s.units)
    && |s.queue| <= s.cap
    && Consecutive(s.units, core, 0)
    && s.seqno == After(0, Records(s.units))
    && s.dropped == s.drops % U32_MOD
    && (honest ==> (Reported(s.units) + s.pending as int) % U32_MOD == s.drops % U32_MOD)
  }

  lemma OfferInv(s: Log, us: seq<Unit>, core: Core, t: Log)
    requires Inv(s, core, false)
    requires |s.queue| + |Bytes(us)| <= s.cap && Consecutive(us, core, s.seqno)
    requires t == s.(queue := s.queue + Bytes(us), units := s.units + us, seqno := After(s.seqno, Records(us)),
      pending := t.pending)
    ensures Inv(t, core, false) && Reported(t.units) == Reported(s.units) + Reported(us)
  {
    hide Bytes, Consecutive, Records, Reported;
    AfterTwice(0, Records(s.units), Records(us));
    BytesAppend(s.units, us);
    RecordsAppend(s.units, us);
    ConsecutiveAppend(s.units, us, core, 0);
    assert s.out + (s.queue + Bytes(us)) == (s.out + s.queue) + Bytes(us);
  }

  lemma DropInv(s: Log, core: Core, honest: bool)
    requires Inv(s, core, honest)
    ensures Inv(Drop(s), core, honest)
  {
    hide Bytes, Consecutive, Records, Reported;
    CountOne(Reported(s.units), s.pending, s.drops);
    CountOne(0, s.dropped, s.drops);
  }

  lemma CountOne(reported: nat, counter: u32, drops: nat)
    ensures (reported + counter as int) % U32_MOD == drops % U32_MOD
      ==> (reported + (counter as int + 1) % U32_MOD) % U32_MOD == (drops + 1) % U32_MOD
  {
  }

  lemma EventUnitsShape(s: Log, now: u32, evt: u16, arg0: u32, arg1: u16)
    requires Inv(s, s.core, false)
    ensures var us := EventUnits(s, now, evt, arg0, arg1);
      Consecutive(us, s.core, s.seqno) && Records(us) == |us|
      && (evt != EVT_OVERFLOW ==> Reported(us) == s.pending)
  {
    var us := EventUnits(s, now, evt, arg0, arg1);
    hide Consecutive, Records, Reported;
    if |us| == 2 {
      OneRecord(us[0].r, s.core);
      OneRecord(us[1].r, s.core);
      assert us == [us[0]] + [us[1]];
      RecordsAppend([us[0]], [us[1]]);
      ConsecutiveAppend([us[0]], [us[1]], s.core, s.seqno);
    } else {
      OneRecord(us[0].r, s.core);
      assert us == [us[0]];
    }
  }

  lemma OneRecord(r: Record, core: Core)
    requires r.core == core
    ensures Consecutive([Rec(r)], core, r.seqno) && Records([Rec(r)]) == 1
    ensures Reported([Rec(r)]) == if r.evt == EVT_OVERFLOW then r.arg0 as int else 0
  {
    assert [Rec(r)][1..] == [];
  }

  lemma EvtInv(s: Log, now: u32, evt: u16, arg0: u32, arg1: u16, core: Core, honest: bool)
    requires Inv(s, core, honest) && (honest ==> evt != EVT_OVERFLOW)
    ensures Inv(EvtSpec(s, now, evt, arg0, arg1), core, honest)
  {
    hide Bytes, Consecutive, Records, Reported, EventUnits;
    var us := EventUnits(s, now, evt, arg0, arg1);
    if |s.queue| + |Bytes(us)| > s.cap {
      DropInv(s, core, honest);
    } else {
      EventUnitsShape(s, now, evt, arg0, arg1);
      OfferInv(s, us, core, EvtSpec(s, now, evt, arg0, arg1));
    }
  }

  lemma TextInv(s: Log, t: seq<byte>, core: Core, honest: bool)
    requires Inv(s, core, honest)
    ensures Inv(TextSpec(s, t), core, honest)
  {
    hide Bytes, Consecutive, Records, Reported, Ascii;
    var us := Chars(Cut(t));
    if Ascii(Cut(t)) {
      if |s.queue| + |Bytes(us)| > s.cap {
        DropInv(s, core, honest);
      } else {
        TextIsConsecutive(Cut(t), core, s.seqno);
        OfferInv(s, us, core, TextSpec(s, t));
      }
    }
  }

  lemma DrainInv(s: Log, n: nat, core: Core, honest: bool)
    requires Inv(s, core, honest) && n <= |s.queue|
    ensures Inv(DrainSpec(s, n), core, honest)
  {
    hide Bytes, Consecutive, Records, Reported;
    assert (s.out + s.queue[..n]) + s.queue[n..] == s.out + s.queue;
  }

  lemma FreshInv(core: Core, cap: nat, banner: seq<byte>, honest: bool)
    ensures Inv(InitSpec(core, cap, banner), core, honest)
  {
    hide TextSpec;
    assert Inv(Fresh(core, cap), core, honest);
    TextInv(Fresh(core, cap), banner, core, honest);
  }

  lemma StepInv(s: Log, op: Op, t: Log, core: Core, honest: bool)
    requires Inv(s, core, honest) && Step(s, op, t) && (honest && op.Evt? ==> op.evt != EVT_OVERFLOW)
    ensures Inv(t, core, honest)
  {
    hide Inv, EvtSpec, TextSpec, DrainSpec;
    match op
    case Evt(now, evt, arg0, arg1) => EvtInv(s, now, evt, arg0, arg1, core, honest);
    case Text(x) => TextInv(s, x, core, honest);
    case Drained(n) => DrainInv(s, n, core, honest);
  }

  lemma {:induction false} RunInv(states: seq<Log>, ops: seq<Op>, core: Core, honest: bool)
    requires Trace(states, ops) && Inv(states[0], core, honest)
    requires honest ==> NoForgedOverflow(ops)
    ensures Inv(states[|ops|], core, honest)
    decreases |ops|
  {
    hide Inv, Step;
    if ops != [] {
      var n := |ops| - 1;
      assert forall i {:trigger ops[..n][i]} :: 0 <= i < n ==>
        ops[..n][i] == ops[i] && Step(states[..n + 1][i], ops[..n][i], states[..n + 1][i + 1]);
      RunInv(states[..n + 1], ops[..n], core, honest);
      assert Step(states[n], ops[n], states[n + 1]);
      StepInv(states[n], ops[n], states[n + 1], core, honest);
    }
  }

  // ---------------------------------------------------------------- decoding

  /** The decoded items as units; reported gaps carry none. */
  function Units(items: seq<D.Item>): seq<Unit> {
    if items == [] then []
    else (match items[0]
          case Text(t) => Chars(t)
          case Gap(_, _) => []
          case Got(r) => [Rec(r)]) + Units(items[1..])
  }

  predicate NoGaps(items: seq<D.Item>) {
    forall i :: 0 <= i < |items| ==> !items[i].Gap?
  }

  lemma {:induction false} UnitsAppend(a: seq<D.Item>, b: seq<D.Item>)
    ensures Units(a + b) == Units(a) + Units(b)
  {
    if a == [] {
      assert a + b == b;
    } else {
      assert (a + b)[1..] == a[1..] + b;
      UnitsAppend(a[1..], b);
    }
  }

  lemma UnitsOfOne(i: D.Item)
    ensures Units([i]) == match i case Text(t) => Chars(t) case Gap(_, _) => [] case Got(r) => [Rec(r)]
  {
    assert [i][1..] == [];
  }

  /** The decoder's expectation: the last record seen was the one before `next`, or none. */
  predicate Knows(d: D.Dec, core: Core, next: SeqNo) {
    core in d.last ==> (d.last[core] as int + 1) % SEQ_MOD == next
  }

  /** Decoding `d.buf`, a prefix of the bytes of `us`, gave `items` and left `e`. */
  predicate Decoded(d: D.Dec, us: seq<Unit>, core: Core, next: SeqNo, e: D.Dec, items: seq<D.Item>) {
    var k := |Units(items)|;
    && k <= |us| && Units(items) == us[..k]
    && d.buf == Bytes(us[..k]) + e.buf && NoGaps(items)
    && e.resyncs == d.resyncs && e.lost == d.lost
    && Knows(e, core, After(next, Records(us[..k])))
    && (core in d.last || Records(us[..k]) > 0 ==> core in e.last)
    && (e.buf == [] || (k < |us| && us[k].Rec? && |e.buf| < REC_SIZE))
  }

  /** A run of bytes without SYNC at the front of a unit stream is text. */
  lemma {:induction false} TextPrefix(b: seq<byte>, us: seq<Unit>)
    requires b <= Bytes(us) && SYNC !in b
    ensures |b| <= |us| && us[..|b|] == Chars(b) && Bytes(us[..|b|]) == b
    ensures Bytes(us) == b + Bytes(us[|b|..])
  {
    if b == [] {
      assert us[0..] == us;
    } else {
      hide Bytes, Encode, Chars;
      TextHead(b, us);
      var rest, tail := us[1..], b[1..];
      TextPrefix(tail, rest);
      CharsStep(b);
      BytesOfChars(b);
      assert us[..|b|] == [us[0]] + rest[..|tail|];
      assert us[|b|..] == rest[|tail|..];
      Rejoin(b, Bytes(us), Bytes(us[|b|..]));
    }
  }

  lemma Rejoin(b: seq<byte>, all: seq<byte>, later: seq<byte>)
    requires b != [] && all == [b[0]] + (b[1..] + later)
    ensures all == b + later
  {
  }

  lemma TextHead(b: seq<byte>, us: seq<Unit>)
    requires b != [] && b <= Bytes(us) && SYNC !in b
    ensures us != [] && us[0] == Chr(b[0]) && Bytes(us) == [b[0]] + Bytes(us[1..])
    ensures b[1..] <= Bytes(us[1..]) && SYNC !in b[1..]
  {
    hide Bytes, Encode;
    if us == [] {
      BytesOfNone();
    } else {
      BytesStep(us);
      assert b[0] == UnitBytes(us[0])[0];
      assert Bytes(us)[1..] == Bytes(us[1..]);
    }
  }

  lemma BytesOfNone()
    ensures Bytes([]) == []
  {
  }

  lemma CharsStep(b: seq<byte>)
    requires b != []
    ensures Chars(b) == [Chr(b[0])] + Chars(b[1..])
  {
  }

  lemma BytesStep(us: seq<Unit>)
    requires us != []
    ensures Bytes(us) == UnitBytes(us[0]) + Bytes(us[1..])
  {
  }

  lemma SplitConsecutive(us: seq<Unit>, k: nat, core: Core, next: SeqNo)
    requires k <= |us| && Consecutive(us, core, next)
    ensures Consecutive(us[..k], core, next) && Consecutive(us[k..], core, After(next, Records(us[..k])))
  {
    assert us == us[..k] + us[k..];
    ConsecutiveAppend(us[..k], us[k..], core, next);
  }

  /** Decoding `us` in two steps, of which the first took the units `us[..k]`. */
  lemma Chain(d: D.Dec, us: seq<Unit>, k: nat, core: Core, next: SeqNo, first: seq<D.Item>,
              d2: D.Dec, e: D.Dec, more: seq<D.Item>)
    requires k <= |us| && Units(first) == us[..k] && NoGaps(first)
    requires d.buf == Bytes(us[..k]) + d2.buf && d2.resyncs == d.resyncs && d2.lost == d.lost
    requires core in d.last || Records(us[..k]) > 0 ==> core in d2.last
    requires Decoded(d2, us[k..], core, After(next, Records(us[..k])), e, more)
    ensures Decoded(d, us, core, next, e, first + more)
  {
    hide Bytes, Records, Units, Knows;
    UnitsAppend(first, more);
    var m, all := |Units(more)|, us[k..];
    assert us[..k] + all[..m] == us[..k + m];
    BytesAppend(us[..k], all[..m]);
    RecordsAppend(us[..k], all[..m]);
    AfterTwice(next, Records(us[..k]), Records(all[..m]));
    assert d.buf == Bytes(us[..k]) + (Bytes(all[..m]) + e.buf);
    if e.buf != [] {
      assert all[m] == us[k + m];
    }
  }

  lemma AfterTwice(next: SeqNo, a: nat, b: nat)
    ensures After(After(next, a), b) == After(next, a + b)
  {
  }

  /** The text step of the decoder's loop takes exactly the characters before the next record. */
  lemma TextStep(d: D.Dec, us: seq<Unit>, core: Core, next: SeqNo) returns (i: nat)
    requires d.buf <= Bytes(us) && Consecutive(us, core, next)
    ensures i <= |us|
    ensures var (e, text) := D.TakeText(d);
      && Units(text) == us[..i] && NoGaps(text) && Records(us[..i]) == 0
      && d.buf == Bytes(us[..i]) + e.buf && e.buf <= Bytes(us[i..]) && Consecutive(us[i..], core, next)
      && e.last == d.last && e.resyncs == d.resyncs && e.lost == d.lost
      && (e.buf != [] ==> i < |us| && us[i].Rec?)
  {
    hide Bytes, Consecutive, Records, Units;
    i := D.Find(d.buf);
    var b, left := d.buf[..i], d.buf[i..];
    assert d.buf == b + left;
    assert b <= Bytes(us);
    TextPrefix(b, us);
    CharsHaveNoRecords(b);
    SplitConsecutive(us, i, core, next);
    AfterTwice(next, 0, 0);
    if i > 0 {
      UnitsOfOne(D.Text(b));
    } else {
      NoUnits();
      assert left == d.buf;
    }
    assert Bytes(us)[i..] == Bytes(us[i..]) && Bytes(us)[i..|d.buf|] == left;
    if i < |d.buf| {
      assert left[0] == SYNC;
      SyncStartsRecord(us, i, core, next, left);
    }
  }

  lemma NoUnits()
    ensures Units([]) == [] && Bytes([]) == []
  {
  }

  lemma SyncStartsRecord(us: seq<Unit>, i: nat, core: Core, next: SeqNo, b: seq<byte>)
    requires i <= |us| && Consecutive(us[i..], core, next) && b <= Bytes(us[i..]) && b != [] && b[0] == SYNC
    ensures i < |us| && us[i].Rec?
  {
    hide Encode;
    var rest := us[i..];
    assert Bytes(rest)[0] == UnitBytes(rest[0])[0];
  }

  lemma {:induction false} CharsHaveNoRecords(t: seq<byte>)
    ensures Records(Chars(t)) == 0
  {
    if t != [] {
      assert Chars(t)[1..] == Chars(t[1..]);
      CharsHaveNoRecords(t[1..]);
    }
  }

  /** A record in its turn is accepted without a resync or a gap. */
  lemma RecordStep(e: D.Dec, us: seq<Unit>, core: Core, next: SeqNo)
    requires us != [] && us[0].Rec? && Consecutive(us, core, next) && Knows(e, core, next)
    requires |e.buf| >= REC_SIZE && e.buf <= Bytes(us)
    ensures var frame, r := e.buf[..REC_SIZE], us[0].r;
      && CrcOk(frame) && Parse(frame) == r
      && D.Emit(e, r).1 == [D.Got(r)] && D.Emit(e, r).0.lost == e.lost && D.Emit(e, r).0.resyncs == e.resyncs
      && Knows(D.Emit(e, r).0, core, After(next, 1)) && core in D.Emit(e, r).0.last
      && Consecutive(us[1..], core, After(next, 1))
      && frame == Bytes(us[..1]) && e.buf[REC_SIZE..] <= Bytes(us[1..])
  {
    hide Encode, CrcOk, Parse;
    var r := us[0].r;
    assert Bytes(us)[..REC_SIZE] == Encode(r) && Bytes(us)[REC_SIZE..] == Bytes(us[1..]);
    assert e.buf[..REC_SIZE] == Bytes(us)[..REC_SIZE];
    RecordRoundTrip(r);
    BytesOfTwo(us[0], us[0]);
    assert us[..1] == [us[0]];
  }

  /** One drain of the decoder over a prefix of a clean stream yields its units in order,
      keeping back less than one record, with no resync and no gap. */
  lemma {:induction false} DrainDecodes(d: D.Dec, us: seq<Unit>, core: Core, next: SeqNo)
    requires d.buf <= Bytes(us) && Consecutive(us, core, next) && Knows(d, core, next)
    ensures Decoded(d, us, core, next, D.Drain(d).0, D.Drain(d).1)
    decreases |d.buf|
  {
    hide D.Drain, CrcOk, Parse, D.Emit, D.TakeText, Bytes, Consecutive, Records, Units, Decoded;
    var i := TextStep(d, us, core, next);
    var (e, text) := D.TakeText(d);
    var rest := us[i..];
    assert After(next, 0) == next;
    if |e.buf| < REC_SIZE {
      D.DrainStops(d);
      DecodedAtOnce(d, us, i, core, next, e, text);
    } else {
      assert rest[0] == us[i];
      RecordStep(e, rest, core, next);
      D.DrainEmits(d);
      var r := rest[0].r;
      var g := D.Emit(e, r).0.(buf := e.buf[REC_SIZE..]);
      DrainDecodes(g, rest[1..], core, After(next, 1));
      var (f, more) := D.Drain(g);
      UnitsOfOne(D.Got(r));
      assert rest[..1] == [rest[0]];
      OneRecord(r, r.core);
      Chain(e, rest, 1, core, next, [D.Got(r)], g, f, more);
      Chain(d, us, i, core, next, text, e, f, [D.Got(r)] + more);
      assert text + ([D.Got(r)] + more) == text + [D.Got(r)] + more;
    }
  }

  lemma DecodedAtOnce(d: D.Dec, us: seq<Unit>, k: nat, core: Core, next: SeqNo, e: D.Dec, items: seq<D.Item>)
    requires k <= |us| && Units(items) == us[..k] && NoGaps(items) && d.buf == Bytes(us[..k]) + e.buf
    requires e.resyncs == d.resyncs && e.lost == d.lost && Knows(e, core, After(next, Records(us[..k])))
    requires core in d.last || Records(us[..k]) > 0 ==> core in e.last
    requires e.buf == [] || (k < |us| && us[k].Rec? && |e.buf| < REC_SIZE)
    ensures Decoded(d, us, core, next, e, items)
  {
  }

  function Concat(chunks: seq<seq<byte>>): seq<byte> {
    if chunks == [] then [] else chunks[0] + Concat(chunks[1..])
  }

  /** However the bytes are cut into feeds, the decoder yields the units in order. */
  lemma {:induction false} FeedsDecode(d: D.Dec, chunks: seq<seq<byte>>, us: seq<Unit>, core: Core, next: SeqNo)
    requires d.buf + Concat(chunks) <= Bytes(us) && Consecutive(us, core, next) && Knows(d, core, next)
    requires d.buf == [] || (us != [] && us[0].Rec? && |d.buf| < REC_SIZE)
    ensures Decoded(d.(buf := d.buf + Concat(chunks)), us, core, next, D.FeedAll(d, chunks).0, D.FeedAll(d, chunks).1)
    decreases |chunks|
  {
    hide D.Drain, Bytes, Consecutive, Records, Units, Decoded;
    var whole := d.(buf := d.buf + Concat(chunks));
    if chunks == [] {
      assert whole.buf == d.buf;
      NothingDecoded(d, us, core, next);
    } else {
      var fed := d.(buf := d.buf + chunks[0]);
      assert whole.buf == fed.buf + Concat(chunks[1..]);
      DrainDecodes(fed, us, core, next);
      var (e, items) := D.Drain(fed);
      var k, rest := DecodedRest(fed, us, core, next, e, items, Concat(chunks[1..]));
      FeedsDecode(e, chunks[1..], rest, core, After(next, Records(us[..k])));
      var (f, more) := D.FeedAll(e, chunks[1..]);
      Chain(whole, us, k, core, next, items, e.(buf := e.buf + Concat(chunks[1..])), f, more);
    }
  }

  lemma NothingDecoded(d: D.Dec, us: seq<Unit>, core: Core, next: SeqNo)
    requires Knows(d, core, next) && d.buf <= Bytes(us)
    requires d.buf == [] || (us != [] && us[0].Rec? && |d.buf| < REC_SIZE)
    ensures Decoded(d, us, core, next, d, [])
  {
    hide Knows, Decoded, UnitBytes;
    NoUnits();
    assert us[..0] == [] && [] + d.buf == d.buf;
    assert Records([]) == 0 && After(next, 0) == next;
    DecodedAtOnce(d, us, 0, core, next, d, []);
  }

  /** What a drain leaves is in step with the rest of the stream. */
  lemma DecodedRest(d: D.Dec, us: seq<Unit>, core: Core, next: SeqNo, e: D.Dec, items: seq<D.Item>, later: seq<byte>)
    returns (k: nat, rest: seq<Unit>)
    requires Consecutive(us, core, next) && Decoded(d, us, core, next, e, items) && d.buf + later <= Bytes(us)
    ensures k == |Units(items)| <= |us| && rest == us[k..] && Units(items) == us[..k] && NoGaps(items)
    ensures Consecutive(rest, core, After(next, Records(us[..k]))) && Knows(e, core, After(next, Records(us[..k])))
    ensures e.buf + later <= Bytes(rest) && d.buf + later == Bytes(us[..k]) + (e.buf + later)
    ensures e.resyncs == d.resyncs && e.lost == d.lost
    ensures core in d.last || Records(us[..k]) > 0 ==> core in e.last
    ensures e.buf == [] || (rest != [] && rest[0].Rec? && |e.buf| < REC_SIZE)
  {
    hide Bytes, Units, Consecutive, Records;
    k := |Units(items)|;
    rest := us[k..];
    SplitConsecutive(us, k, core, next);
    assert us == us[..k] + us[k..];
    BytesAppend(us[..k], us[k..]);
    assert d.buf + later == Bytes(us[..k]) + (e.buf + later);
    var all, head := Bytes(us), Bytes(us[..k]);
    assert all[|head|..] == Bytes(us[k..]);
    assert (head + (e.buf + later))[|head|..] == e.buf + later;
  }

  // ---------------------------------------------------------------- end to end

  /** For every run of the channel and every way of cutting the drained bytes into feeds:
      the decoder yields the accepted units in order, with no resync and no gap; what it has
      not yielded is still queued, or is the beginning of one record; and the counts of the
      overflow reports account for every drop. */
  lemma LogEndToEnd(states: seq<Log>, ops: seq<Op>, core: Core, cap: nat, banner: seq<byte>, chunks: seq<seq<byte>>)
    requires Trace(states, ops) && states[0] == InitSpec(core, cap, banner)
    requires Concat(chunks) == states[|ops|].out
    ensures var s, d, items := states[|ops|], D.FeedAll(D.START, chunks).0, D.FeedAll(D.START, chunks).1;
      && Units(items) <= s.units && NoGaps(items) && d.resyncs == 0 && d.lost == 0
      && |d.buf| < REC_SIZE && Bytes(s.units) == Bytes(Units(items)) + d.buf + s.queue
      && (s.queue == [] ==> Units(items) == s.units && d.buf == [])
  {
    hide Bytes, Units, Consecutive, D.FeedAll;
    var s := states[|ops|];
    FreshInv(core, cap, banner, false);
    RunInv(states, ops, core, false);
    assert [] + Concat(chunks) == s.out;
    assert s.out <= Bytes(s.units);
    FeedsDecode(D.START, chunks, s.units, core, 0);
    var (d, items) := D.FeedAll(D.START, chunks);
    var k := |Units(items)|;
    assert s.out == Bytes(s.units[..k]) + d.buf;
    if s.queue == [] {
      assert Bytes(s.units) == s.out;
      AllDecoded(s.units, k, d.buf);
      assert s.units[..|s.units|] == s.units;
    }
  }

  lemma RecordFits(us: seq<Unit>, k: nat)
    requires k < |us| && us[k].Rec?
    ensures |Bytes(us[k..])| >= REC_SIZE
  {
    hide Encode;
    assert Bytes(us[k..]) == UnitBytes(us[k]) + Bytes(us[k..][1..]);
  }

  lemma AllDecoded(us: seq<Unit>, k: nat, rest: seq<byte>)
    requires k <= |us| && Bytes(us) == Bytes(us[..k]) + rest
    requires rest == [] || (k < |us| && us[k].Rec? && |rest| < REC_SIZE)
    ensures rest == [] && k == |us|
  {
    hide Bytes;
    if k < |us| && us[k].Rec? {
      RecordFits(us, k);
    }
    assert us == us[..k] + us[k..];
    BytesAppend(us[..k], us[k..]);
  }

  /** Every dropped event or text is accounted for, modulo 2^32, by the reports accepted so
      far plus the report still owed. */
  lemma DropsAccounted(states: seq<Log>, ops: seq<Op>, core: Core, cap: nat, banner: seq<byte>)
    requires Trace(states, ops) && states[0] == InitSpec(core, cap, banner) && NoForgedOverflow(ops)
    ensures var s := states[|ops|];
      (Reported(s.units) + s.pending as int) % U32_MOD == s.drops % U32_MOD && s.dropped == s.drops % U32_MOD
  {
    hide Bytes, Consecutive, Reported, InitSpec;
    FreshInv(core, cap, banner, true);
    RunInv(states, ops, core, true);
  }

  // ---------------------------------------------------------------- what was logged

  /** An event as the application states it. */
  datatype Event = Event(core: Core, evt: u16, now: u32, arg0: u32, arg1: u16)

  /** A step took its item: nothing was counted as dropped. */
  predicate Taken(s: Log, t: Log) {
    t.drops == s.drops
  }

  /** The event that a step logged, if the channel took it. */
  function LoggedBy(s: Log, op: Op, t: Log): seq<Event> {
    match op
    case Evt(now, evt, arg0, arg1) => if Taken(s, t) then [Event(s.core, evt, now, arg0, arg1)] else []
    case _ => []
  }

  /** The characters that a step printed, if the channel took them. */
  function PrintedBy(s: Log, op: Op, t: Log): seq<byte> {
    if op.Text? && Taken(s, t) && Ascii(Cut(op.t)) then Cut(op.t) else []
  }

  /** Over a run, in the order of the calls. */
  function Logged(states: seq<Log>, ops: seq<Op>): seq<Event>
    requires |states| == |ops| + 1
  {
    if ops == [] then []
    else var n := |ops| - 1; Logged(states[..n + 1], ops[..n]) + LoggedBy(states[n], ops[n], states[n + 1])
  }

  function Printed(states: seq<Log>, ops: seq<Op>): seq<byte>
    requires |states| == |ops| + 1
  {
    if ops == [] then []
    else var n := |ops| - 1; Printed(states[..n + 1], ops[..n]) + PrintedBy(states[n], ops[n], states[n + 1])
  }

  function EventOf(r: Record): Event {
    Event(r.core, r.evt, r.ts, r.arg0, r.arg1)
  }

  /** The events among units, without the channel's own overflow reports. */
  function Events(us: seq<Unit>): seq<Event> {
    if us == [] then []
    else (match us[0]
          case Chr(_) => []
          case Rec(r) => if r.evt == EVT_OVERFLOW then [] else [EventOf(r)]) + Events(us[1..])
  }

  function TextIn(us: seq<Unit>): seq<byte> {
    if us == [] then [] else (match us[0] case Chr(c) => [c] case Rec(_) => []) + TextIn(us[1..])
  }

  lemma {:induction false} EventsAppend(a: seq<Unit>, b: seq<Unit>)
    ensures Events(a + b) == Events(a) + Events(b) && TextIn(a + b) == TextIn(a) + TextIn(b)
  {
    if a == [] {
      assert a + b == b;
    } else {
      assert (a + b)[1..] == a[1..] + b;
      EventsAppend(a[1..], b);
    }
  }

  lemma {:induction false} CharsAreText(t: seq<byte>)
    ensures Events(Chars(t)) == [] && TextIn(Chars(t)) == t
  {
    if t != [] {
      assert Chars(t)[1..] == Chars(t[1..]);
      CharsAreText(t[1..]);
    }
  }

  /** Of a longer text the first 64 characters count. */
  lemma TextCut(t: seq<byte>)
    ensures |t| <= 64 ==> Cut(t) == t
    ensures |t| > 64 ==> |Cut(t)| == 64 && Cut(t) <= t
  {
  }

  /** An accepted event call appends exactly one record with exactly its arguments, the clock's
      reading and the channel's core, behind an overflow report that carries the pending count
      exactly when drops are pending. A call is accepted exactly when all of that fits. */
  lemma EvtAppends(s: Log, now: u32, evt: u16, arg0: u32, arg1: u16)
    ensures var t := EvtSpec(s, now, evt, arg0, arg1);
      && (Taken(s, t) <==> |s.queue| + (if s.pending > 0 then 2 else 1) * REC_SIZE <= s.cap)
      && (!Taken(s, t) ==>
            t.units == s.units && t.queue == s.queue && t.pending as int == (s.pending as int + 1) % U32_MOD)
      && (Taken(s, t) ==>
            && t.pending == 0 && |t.units| == |s.units| + (if s.pending > 0 then 2 else 1) && s.units <= t.units
            && (s.pending > 0 ==> t.units[|s.units|] == Rec(Record(s.core, s.seqno, EVT_OVERFLOW, now, s.pending, 0)))
            && var last := t.units[|t.units| - 1];
               last.Rec? && EventOf(last.r) == Event(s.core, evt, now, arg0, arg1))
  {
    hide Encode, Bytes;
    var us := EventUnits(s, now, evt, arg0, arg1);
    if s.pending > 0 {
      BytesOfTwo(us[0], us[1]);
      assert us == [us[0], us[1]];
    } else {
      BytesOfTwo(us[0], us[0]);
      assert us == [us[0]];
    }
  }

  lemma EvtLogs(s: Log, now: u32, evt: u16, arg0: u32, arg1: u16)
    requires evt != EVT_OVERFLOW
    ensures var t := EvtSpec(s, now, evt, arg0, arg1);
      && Events(t.units) == Events(s.units) + (if Taken(s, t) then [Event(s.core, evt, now, arg0, arg1)] else [])
      && TextIn(t.units) == TextIn(s.units) && t.core == s.core
  {
    hide Encode, Bytes, Events, TextIn;
    var us := EventUnits(s, now, evt, arg0, arg1);
    EventsAppend(s.units, us);
    EventsOfFew(us);
  }

  lemma EventsOfOne(r: Record)
    ensures Events([Rec(r)]) == (if r.evt == EVT_OVERFLOW then [] else [EventOf(r)])
    ensures TextIn([Rec(r)]) == []
  {
    assert [Rec(r)][1..] == [];
    NothingLogged();
  }

  lemma EventsOfFew(us: seq<Unit>)
    requires 0 < |us| <= 2 && us[|us| - 1].Rec? && us[|us| - 1].r.evt != EVT_OVERFLOW
    requires |us| == 2 ==> us[0].Rec? && us[0].r.evt == EVT_OVERFLOW
    ensures var r := us[|us| - 1].r; Events(us) == [EventOf(r)] && TextIn(us) == []
  {
    hide Events, TextIn;
    EventsOfOne(us[|us| - 1].r);
    if |us| == 2 {
      EventsOfOne(us[0].r);
      EventsAppend([us[0]], [us[1]]);
      assert us == [us[0]] + [us[1]];
    } else {
      assert us == [us[0]];
    }
  }

  lemma TextLogs(s: Log, x: seq<byte>)
    ensures var t := TextSpec(s, x);
      && Events(t.units) == Events(s.units) && t.core == s.core
      && TextIn(t.units) == TextIn(s.units) + (if Taken(s, t) && Ascii(Cut(x)) then Cut(x) else [])
      && (Ascii(Cut(x)) ==> (Taken(s, t) <==> |s.queue| + |Cut(x)| <= s.cap))
  {
    hide Bytes, Events, TextIn, Ascii;
    EventsAppend(s.units, Chars(Cut(x)));
    CharsAreText(Cut(x));
    BytesOfChars(Cut(x));
  }

  lemma StepLogs(s: Log, op: Op, t: Log)
    requires Step(s, op, t) && (op.Evt? ==> op.evt != EVT_OVERFLOW)
    ensures Events(t.units) == Events(s.units) + LoggedBy(s, op, t)
    ensures TextIn(t.units) == TextIn(s.units) + PrintedBy(s, op, t) && t.core == s.core
  {
    hide EvtSpec, TextSpec, Events, TextIn, Ascii, Cut;
    match op
    case Evt(now, evt, arg0, arg1) => EvtLogs(s, now, evt, arg0, arg1);
    case Text(x) => TextLogs(s, x);
    case Drained(k) =>
  }

  /** On every run, the units hold exactly the events and the text that were taken. */
  lemma {:induction false} UnitsAreLogged(states: seq<Log>, ops: seq<Op>)
    requires Trace(states, ops) && NoForgedOverflow(ops)
    ensures var s, s0 := states[|ops|], states[0];
      && Events(s.units) == Events(s0.units) + Logged(states, ops)
      && TextIn(s.units) == TextIn(s0.units) + Printed(states, ops)
      && s.core == s0.core
    decreases |ops|
  {
    hide Step, Events, TextIn, LoggedBy, PrintedBy;
    if ops != [] {
      var n := |ops| - 1;
      assert forall i {:trigger ops[..n][i]} :: 0 <= i < n ==>
        ops[..n][i] == ops[i] && Step(states[..n + 1][i], ops[..n][i], states[..n + 1][i + 1]);
      UnitsAreLogged(states[..n + 1], ops[..n]);
      assert Step(states[n], ops[n], states[n + 1]);
      StepLogs(states[n], ops[n], states[n + 1]);
    }
  }

  /** The part of the banner that the application core prints, if it fits. */
  function BannerText(core: Core, cap: nat, banner: seq<byte>): seq<byte> {
    if core == CORE_APP && Ascii(Cut(banner)) && |Cut(banner)| <= cap then Cut(banner) else []
  }

  /** From the calls to the host: once a run of the channel is drained, however the bytes are cut
      into feeds, the decoder has yielded exactly the events that the application logged and the
      channel took, with their arguments and times and in the order of the calls, and exactly the
      text it printed, behind the banner. */
  lemma LoggedIsDecoded(states: seq<Log>, ops: seq<Op>, core: Core, cap: nat, banner: seq<byte>, chunks: seq<seq<byte>>)
    requires Trace(states, ops) && states[0] == InitSpec(core, cap, banner) && NoForgedOverflow(ops)
    requires Concat(chunks) == states[|ops|].out && states[|ops|].queue == []
    ensures var us := Units(D.FeedAll(D.START, chunks).1);
      && Events(us) == Logged(states, ops)
      && TextIn(us) == BannerText(core, cap, banner) + Printed(states, ops)
  {
    hide D.FeedAll, Units, Events, TextIn, Logged, Printed, Ascii, Bytes, Step, InitSpec, Trace;
    LogEndToEnd(states, ops, core, cap, banner, chunks);
    assert |states| == |ops| + 1 by { StatesCount(states, ops); }
    UnitsAreLogged(states, ops);
    BannerLogged(core, cap, banner);
  }

  lemma StatesCount(states: seq<Log>, ops: seq<Op>)
    requires Trace(states, ops)
    ensures |states| == |ops| + 1
  {
    hide Step;
  }

  lemma BannerLogged(core: Core, cap: nat, banner: seq<byte>)
    ensures var us := InitSpec(core, cap, banner).units;
      && Events(us) == []
      && TextIn(us) == BannerText(core, cap, banner)
  {
    hide Events, TextIn, Ascii, Bytes;
    TextLogs(Fresh(core, cap), banner);
    NothingLogged();
  }

  lemma NothingLogged()
    ensures Events([]) == [] && TextIn([]) == []
  {
  }
}
