/** The host's incremental decoder: text runs, records, resynchronisation on a bad CRC and
    gap detection per core. */
module LogDecoder {
  import opened Words
  import opened LogRecord

  datatype Item = Text(t: seq<byte>) | Gap(core: Core, missing: nat) | Got(r: Record)

  datatype Dec = Dec(buf: seq<byte>, last: map<Core, SeqNo>, records: nat, textBytes: nat, resyncs: nat, lost: nat)

  const START := Dec([], map[], 0, 0, 0, 0)

  function Find(b: seq<byte>): (i: nat)
    ensures i <= |b| && SYNC !in b[..i] && (i < |b| ==> b[i] == SYNC)
  {
    if b == [] || b[0] == SYNC then 0
    else
      var i := Find(b[1..]);
      assert b[..i + 1] == [b[0]] + b[1..][..i];
      i + 1
  }

  /** The text before the next candidate record. */
  function TakeText(d: Dec): (p: (Dec, seq<Item>))
    ensures |p.0.buf| <= |d.buf| && (p.0.buf == [] || p.0.buf[0] == SYNC)
  {
    var i := Find(d.buf);
    if i == 0 then (d, [])
    else (d.(buf := d.buf[i..], textBytes := d.textBytes + i), [Text(d.buf[..i])])
  }

  /** Records lost between the last one seen from this core and `r`; a boot event restarts
      the count. */
  function Missing(d: Dec, r: Record): nat {
    if r.evt == EVT_BOOT || r.core !in d.last then 0
    else (r.seqno as int - d.last[r.core] as int - 1) % SEQ_MOD
  }

  function Emit(d: Dec, r: Record): (p: (Dec, seq<Item>))
    ensures p.0.buf == d.buf
  {
    var m := Missing(d, r);
    (d.(last := d.last[r.core := r.seqno], records := d.records + 1, lost := d.lost + m),
     (if m > 0 then [Gap(r.core, m)] else []) + [Got(r)])
  }

  function Drain(d: Dec): (Dec, seq<Item>)
    decreases |d.buf|
  {
    var (e, text) := TakeText(d);
    if |e.buf| < REC_SIZE then (e, text)
    else if !CrcOk(e.buf[..REC_SIZE]) then
      var (f, more) := Drain(e.(buf := e.buf[1..], resyncs := e.resyncs + 1));
      (f, text + more)
    else
      var (f, rec) := Emit(e, Parse(e.buf[..REC_SIZE]));
      var (g, more) := Drain(f.(buf := e.buf[REC_SIZE..]));
      (g, text + rec + more)
  }

  function Feed(d: Dec, data: seq<byte>): (Dec, seq<Item>) {
    Drain(d.(buf := d.buf + data))
  }

  /** Any number of calls of `feed`, one after the other. */
  function FeedAll(d: Dec, chunks: seq<seq<byte>>): (Dec, seq<Item>)
    decreases |chunks|
  {
    if chunks == [] then (d, [])
    else
      var (e, items) := Feed(d, chunks[0]);
      var (f, more) := FeedAll(e, chunks[1..]);
      (f, items + more)
  }

  class Decoder {
    var buf: seq<byte>
    var last: map<Core, SeqNo>
    var records: nat
    var textBytes: nat
    var resyncs: nat
    var lost: nat

    function State(): Dec
      reads this
    {
      Dec(buf, last, records, textBytes, resyncs, lost)
    }

    constructor ()
      ensures State() == START
    {
      buf, last, records, textBytes, resyncs, lost := [], map[], 0, 0, 0, 0;
    }

    method Push(data: seq<byte>) returns (out: seq<Item>)
      modifies this
      ensures (State(), out) == Feed(old(State()), data)
    {
      buf := buf + data;
      out := DrainAll();
    }

    /** Emits the text before the next candidate record; without a candidate, everything. */
    method PassText() returns (out: seq<Item>)
      modifies this
      ensures (State(), out) == TakeText(old(State()))
    {
      var idx := Find(buf);
      out := [];
      if idx > 0 {
        out := [Text(buf[..idx])];
        textBytes := textBytes + idx;
        buf := buf[idx..];
      }
    }

    method EmitRecord(frame: seq<byte>) returns (out: seq<Item>)
      requires |frame| == REC_SIZE
      modifies this
      ensures (State(), out) == Emit(old(State()), Parse(frame))
    {
      hide Parse;
      var r := Parse(frame);
      var missing := Missing(State(), r);
      out := [];
      if missing > 0 {
        lost := lost + missing;
        out := [Gap(r.core, missing)];
      }
      last := last[r.core := r.seqno];
      records := records + 1;
      out := out + [Got(r)];
    }

    method DrainAll() returns (out: seq<Item>)
      modifies this
      ensures (State(), out) == Drain(old(State()))
    {
      hide CrcOk, Parse, Emit, TakeText, Drain;
      ghost var was := State();
      out := [];
      Prefixed([], Drain(was).1);
      while true
        invariant Drain(was) == (Drain(State()).0, out + Drain(State()).1)
        decreases |buf|
      {
        ghost var d, before := State(), out;
        var text := PassText();
        out := out + text;
        if |buf| < REC_SIZE {
          DrainStops(d);
          return;
        }
        if !CrcOk(buf[..REC_SIZE]) {
          resyncs := resyncs + 1;
          buf := buf[1..];
          DrainSkips(d);
          assert before + (text + Drain(State()).1) == out + Drain(State()).1;
        } else {
          var rec := EmitRecord(buf[..REC_SIZE]);
          out := out + rec;
          buf := buf[REC_SIZE..];
          DrainEmits(d);
          assert before + (text + rec + Drain(State()).1) == out + Drain(State()).1;
        }
      }
    }
  }

  lemma Prefixed(e: seq<Item>, s: seq<Item>)
    requires e == []
    ensures e + s == s
  {
  }

  lemma DrainStops(d: Dec)
    requires |TakeText(d).0.buf| < REC_SIZE
    ensures Drain(d) == TakeText(d)
  {
    hide CrcOk, Parse, Emit, TakeText;
  }

  lemma DrainSkips(d: Dec)
    requires var e := TakeText(d).0; |e.buf| >= REC_SIZE && !CrcOk(e.buf[..REC_SIZE])
    ensures var (e, text) := TakeText(d);
      var f := e.(buf := e.buf[1..], resyncs := e.resyncs + 1);
      Drain(d) == (Drain(f).0, text + Drain(f).1)
  {
    hide CrcOk, Parse, Emit, TakeText;
  }

  lemma DrainEmits(d: Dec)
    requires var e := TakeText(d).0; |e.buf| >= REC_SIZE && CrcOk(e.buf[..REC_SIZE])
    ensures var (e, text) := TakeText(d);
      var (f, rec) := Emit(e, Parse(e.buf[..REC_SIZE]));
      var g := f.(buf := e.buf[REC_SIZE..]);
      Drain(d) == (Drain(g).0, text + rec + Drain(g).1)
  {
    hide CrcOk, Parse, Emit, TakeText;
  }
}
