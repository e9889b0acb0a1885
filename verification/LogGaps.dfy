/** The host decoder on streams with something missing or damaged: lost records are reported as
    exactly one gap, nothing is invented, and every byte is accounted for. */
module LogGaps {
  import opened Words
  import opened LogRecord
  import opened LogChannel
  import opened LogTheorems
  import D = LogDecoder

  // ---------------------------------------------------------------- joining streams

  lemma {:induction false} FindJoin(a: seq<byte>, b: seq<byte>)
    requires b == [] || b[0] == SYNC
    ensures D.Find(a + b) == D.Find(a)
  {
    if a == [] {
      assert a + b == b;
    } else if a[0] != SYNC {
      assert (a + b)[1..] == a[1..] + b;
      FindJoin(a[1..], b);
    }
  }

  /** Bytes that begin with a candidate record do not change how what precedes them is split. */
  lemma TakeTextJoin(d: D.Dec, b: seq<byte>)
    requires b == [] || b[0] == SYNC
    ensures var (e, text) := D.TakeText(d);
      D.TakeText(d.(buf := d.buf + b)) == (e.(buf := e.buf + b), text)
  {
    FindJoin(d.buf, b);
    var i := D.Find(d.buf);
    assert (d.buf + b)[i..] == d.buf[i..] + b && (d.buf + b)[..i] == d.buf[..i];
  }

  /** After text, the decoder goes on as if the text had not been there. */
  lemma AfterText(d: D.Dec, e: D.Dec, text: seq<D.Item>)
    requires D.TakeText(d) == (e, text) && D.TakeText(e) == (e, [])
    ensures D.Drain(d) == (D.Drain(e).0, text + D.Drain(e).1)
  {
    hide CrcOk, Parse, D.Emit, D.TakeText, D.Drain;
    if |e.buf| < REC_SIZE {
      D.DrainStops(d);
      D.DrainStops(e);
      assert text + [] == text;
    } else if CrcOk(e.buf[..REC_SIZE]) {
      D.DrainEmits(d);
      D.DrainEmits(e);
      var (f, rec) := D.Emit(e, Parse(e.buf[..REC_SIZE]));
      var more := D.Drain(f.(buf := e.buf[REC_SIZE..])).1;
      assert text + rec + more == text + ([] + rec + more);
    } else {
      D.DrainSkips(d);
      D.DrainSkips(e);
      var more := D.Drain(e.(buf := e.buf[1..], resyncs := e.resyncs + 1)).1;
      assert text + more == text + ([] + more);
    }
  }

  lemma NoTextAt(e: D.Dec)
    requires e.buf == [] || e.buf[0] == SYNC
    ensures D.TakeText(e) == (e, [])
  {
    assert D.Find(e.buf) == 0;
  }

  /** If a buffer is decoded completely, a candidate record behind it is decoded after it. */
  lemma {:induction false} DrainJoin(d: D.Dec, b: seq<byte>)
    requires D.Drain(d).0.buf == [] && (b == [] || b[0] == SYNC)
    ensures var (x, items) := D.Drain(d);
      var (y, more) := D.Drain(x.(buf := b));
      D.Drain(d.(buf := d.buf + b)) == (y, items + more)
    decreases |d.buf|
  {
    hide CrcOk, Parse, D.Emit, D.TakeText, D.Drain;
    var (e, text) := D.TakeText(d);
    var d' := d.(buf := d.buf + b);
    TakeTextJoin(d, b);
    if |e.buf| < REC_SIZE {
      D.DrainStops(d);
      assert e.buf + b == b;
      NoTextAt(e.(buf := b));
      AfterText(d', e.(buf := b), text);
    } else {
      assert (e.buf + b)[..REC_SIZE] == e.buf[..REC_SIZE];
      if CrcOk(e.buf[..REC_SIZE]) {
        assert (e.buf + b)[REC_SIZE..] == e.buf[REC_SIZE..] + b;
        D.DrainEmits(d);
        D.DrainEmits(d');
        var r := Parse(e.buf[..REC_SIZE]);
        EmitIgnoresBuffer(e, e.buf + b, r);
        var (f, rec) := D.Emit(e, r);
        var g := f.(buf := e.buf[REC_SIZE..]);
        DrainJoin(g, b);
        var (x, items) := D.Drain(g);
        var more := D.Drain(x.(buf := b)).1;
        assert text + rec + (items + more) == (text + rec + items) + more;
      } else {
        assert (e.buf + b)[1..] == e.buf[1..] + b;
        D.DrainSkips(d);
        D.DrainSkips(d');
        var g := e.(buf := e.buf[1..], resyncs := e.resyncs + 1);
        DrainJoin(g, b);
        var (x, items) := D.Drain(g);
        var more := D.Drain(x.(buf := b)).1;
        assert text + (items + more) == (text + items) + more;
      }
    }
  }

  lemma EmitIgnoresBuffer(e: D.Dec, buf: seq<byte>, r: Record)
    ensures D.Emit(e.(buf := buf), r) == (D.Emit(e, r).0.(buf := buf), D.Emit(e, r).1)
  {
  }

  // ---------------------------------------------------------------- lost records

  /** What the decoder makes of the first record behind the loss of `n`: one gap of that many,
      modulo 64, unless the record is a boot event. */
  function GapOf(core: Core, n: nat, r: Record): seq<D.Item> {
    if r.evt == EVT_BOOT || n % SEQ_MOD == 0 then [] else [D.Gap(core, n % SEQ_MOD)]
  }

  lemma FirstAfterLoss(e: D.Dec, core: Core, next: SeqNo, n: nat, r: Record)
    requires core in e.last && Knows(e, core, next) && r.core == core && r.seqno == After(next, n)
    ensures var (f, items) := D.Emit(e, r);
      && items == GapOf(core, n, r) + [D.Got(r)] && f.last == e.last[core := r.seqno] && f.resyncs == e.resyncs
      && f.lost == e.lost + if r.evt == EVT_BOOT then 0 else n % SEQ_MOD
  {
    assert (next as int + n) % SEQ_MOD == r.seqno as int;
    var q := (next as int + n) / SEQ_MOD;
    assert next as int + n == SEQ_MOD * q + r.seqno as int;
    assert (r.seqno as int - e.last[core] as int - 1) % SEQ_MOD == n % SEQ_MOD;
  }

  lemma {:induction false} NoGapsIn(d: D.Dec, us: seq<Unit>, core: Core, next: SeqNo)
    requires d.buf == Bytes(us) && Consecutive(us, core, next) && Knows(d, core, next)
    ensures var (e, items) := D.Drain(d);
      && e.buf == [] && Units(items) == us && NoGaps(items) && e.resyncs == d.resyncs && e.lost == d.lost
      && Knows(e, core, After(next, Records(us))) && (core in d.last || Records(us) > 0 ==> core in e.last)
  {
    hide D.Drain, Bytes, Consecutive, Records, Units, Knows;
    DrainDecodes(d, us, core, next);
    var (e, items) := D.Drain(d);
    var k := |Units(items)|;
    AllDecoded(us, k, e.buf);
    assert us[..k] == us;
  }

  /** Exactly what a loss looks like: when the records among `b` are missing from the stream, the
      decoder yields the units before and behind them, and between them one gap with the number
      lost, modulo 64; none for a multiple of 64 or in front of a boot event. There is no other
      gap and no resynchronisation. */
  lemma LossIsOneGap(a: seq<Unit>, b: seq<Unit>, t: seq<byte>, r: Record, c: seq<Unit>, core: Core)
    returns (x: seq<D.Item>, y: seq<D.Item>)
    requires Consecutive(a + b + Chars(t) + [Rec(r)] + c, core, 0) && Records(a) > 0
    ensures var d := D.START.(buf := Bytes(a + Chars(t) + [Rec(r)] + c));
      && D.Drain(d).1 == x + GapOf(core, Records(b), r) + [D.Got(r)] + y
      && NoGaps(x) && NoGaps(y) && Units(x) == a + Chars(t) && Units(y) == c
      && D.Drain(d).0.buf == [] && D.Drain(d).0.resyncs == 0
      && D.Drain(d).0.lost == if r.evt == EVT_BOOT then 0 else Records(b) % SEQ_MOD
  {
    hide D.Drain, Bytes, Consecutive, Records, Units, Knows, D.Emit, CrcOk, Parse;
    var front, n := a + Chars(t), Records(b);
    var next := After(0, Records(a));
    Split(a, b, t, r, c, core);
    var d1 := D.START.(buf := Bytes(front));
    KnowsNothing(d1, core);
    NoGapsIn(d1, front, core, 0);
    var (e, x0) := D.Drain(d1);
    x := x0;
    var tail := [Rec(r)] + c;
    var b2 := Bytes(tail);
    BytesStep(tail);
    assert tail[1..] == c;
    assert b2[0] == SYNC;
    DrainJoin(d1, b2);
    BytesAppend(front, tail);
    assert front + tail == a + Chars(t) + [Rec(r)] + c;
    var e2 := e.(buf := b2);
    NoTextAt(e2);
    assert b2[..REC_SIZE] == Encode(r) && b2[REC_SIZE..] == Bytes(c);
    RecordRoundTrip(r);
    KnowsSame(e, e2, core, next);
    FirstAfterLoss(e2, core, next, n, r);
    D.DrainEmits(e2);
    var g := D.Emit(e2, r).0.(buf := Bytes(c));
    KnowsAfter(g, core, r.seqno);
    NoGapsIn(g, c, core, After(r.seqno, 1));
    y := D.Drain(g).1;
    var m := GapOf(core, n, r) + [D.Got(r)];
    assert x + ([] + m + y) == x + GapOf(core, n, r) + [D.Got(r)] + y;
  }

  lemma KnowsNothing(d: D.Dec, core: Core)
    requires d.last == map[]
    ensures Knows(d, core, 0)
  {
  }

  lemma KnowsSame(e: D.Dec, f: D.Dec, core: Core, next: SeqNo)
    requires Knows(e, core, next) && f.last == e.last
    ensures Knows(f, core, next)
  {
  }

  lemma KnowsAfter(g: D.Dec, core: Core, s: SeqNo)
    requires core in g.last && g.last[core] == s
    ensures Knows(g, core, After(s, 1))
  {
  }

  /** The parts of the stream without the loss. */
  lemma Split(a: seq<Unit>, b: seq<Unit>, t: seq<byte>, r: Record, c: seq<Unit>, core: Core)
    requires Consecutive(a + b + Chars(t) + [Rec(r)] + c, core, 0)
    ensures Consecutive(a + Chars(t), core, 0) && Records(a + Chars(t)) == Records(a)
    ensures r.core == core && r.seqno == After(After(0, Records(a)), Records(b))
    ensures Consecutive(c, core, After(r.seqno, 1))
  {
    hide Consecutive, Records, Chars;
    var ab := a + b;
    var abt := ab + Chars(t);
    ConsecutiveAppend(abt + [Rec(r)], c, core, 0);
    ConsecutiveAppend(abt, [Rec(r)], core, 0);
    ConsecutiveAppend(ab, Chars(t), core, 0);
    ConsecutiveAppend(a, b, core, 0);
    RecordsAppend(abt, [Rec(r)]);
    RecordsAppend(ab, Chars(t));
    RecordsAppend(a, b);
    RecordsAppend(a, Chars(t));
    CharsHaveNoRecords(t);
    CharsAnywhere(t, core, After(0, Records(ab)), After(0, Records(a)));
    ConsecutiveAppend(a, Chars(t), core, 0);
    HeadRecord(r, core, After(0, Records(abt)));
    AfterTwice(0, Records(a), Records(b));
    AfterTwice(0, Records(abt), 1);
  }

  lemma HeadRecord(r: Record, core: Core, next: SeqNo)
    requires Consecutive([Rec(r)], core, next)
    ensures r.core == core && r.seqno == next && Records([Rec(r)]) == 1
  {
    assert [Rec(r)][1..] == [];
  }

  /** Text does not depend on the sequence numbers around it. */
  lemma {:induction false} CharsAnywhere(t: seq<byte>, core: Core, n: SeqNo, m: SeqNo)
    requires Consecutive(Chars(t), core, n)
    ensures Consecutive(Chars(t), core, m)
  {
    if t != [] {
      assert Chars(t)[1..] == Chars(t[1..]);
      CharsAnywhere(t[1..], core, n, m);
    }
  }

  // ---------------------------------------------------------------- any stream at all

  function TextBytes(items: seq<D.Item>): nat {
    if items == [] then 0 else (if items[0].Text? then |items[0].t| else 0) + TextBytes(items[1..])
  }

  function GotCount(items: seq<D.Item>): nat {
    if items == [] then 0 else (if items[0].Got? then 1 else 0) + GotCount(items[1..])
  }

  function GapSum(items: seq<D.Item>): nat {
    if items == [] then 0 else (if items[0].Gap? then items[0].missing else 0) + GapSum(items[1..])
  }

  lemma {:induction false} CountsAppend(a: seq<D.Item>, b: seq<D.Item>)
    ensures TextBytes(a + b) == TextBytes(a) + TextBytes(b)
    ensures GotCount(a + b) == GotCount(a) + GotCount(b) && GapSum(a + b) == GapSum(a) + GapSum(b)
  {
    if a == [] {
      assert a + b == b;
    } else {
      assert (a + b)[1..] == a[1..] + b;
      CountsAppend(a[1..], b);
    }
  }

  lemma CountsOfOne(i: D.Item)
    ensures TextBytes([i]) == (if i.Text? then |i.t| else 0)
    ensures GotCount([i]) == (if i.Got? then 1 else 0) && GapSum([i]) == (if i.Gap? then i.missing else 0)
    ensures TextBytes([]) == 0 && GotCount([]) == 0 && GapSum([]) == 0
  {
    assert [i][1..] == [];
  }

  lemma CountsOfEmit(e: D.Dec, r: Record)
    ensures var (f, items) := D.Emit(e, r);
      && TextBytes(items) == 0 && GotCount(items) == 1 && GapSum(items) == f.lost - e.lost
      && f.records == e.records + 1 && f.textBytes == e.textBytes && f.resyncs == e.resyncs
      && forall r' :: D.Got(r') in items ==> r' == r
  {
    hide TextBytes, GotCount, GapSum;
    var m := D.Missing(e, r);
    CountsOfOne(D.Got(r));
    CountsOfOne(D.Gap(r.core, m));
    CountsAppend(if m > 0 then [D.Gap(r.core, m)] else [], [D.Got(r)]);
  }

  lemma CountsOfText(d: D.Dec)
    ensures var (e, items) := D.TakeText(d);
      && TextBytes(items) == e.textBytes - d.textBytes == |d.buf| - |e.buf|
      && GotCount(items) == 0 && GapSum(items) == 0
      && e.records == d.records && e.lost == d.lost && e.resyncs == d.resyncs
      && (forall r :: D.Got(r) !in items) && e.buf == d.buf[D.Find(d.buf)..]
  {
    hide TextBytes, GotCount, GapSum;
    var i := D.Find(d.buf);
    CountsOfOne(D.Text(d.buf[..i]));
    assert d.buf[i..] == D.TakeText(d).0.buf;
  }

  predicate StandsAt(b: seq<byte>, i: nat, r: Record) {
    i + REC_SIZE <= |b| && b[i..i + REC_SIZE] == Encode(r)
  }

  /** The bytes of `r` stand somewhere in `b`. */
  ghost predicate Within(b: seq<byte>, r: Record) {
    exists i: nat :: StandsAt(b, i, r)
  }

  lemma WithinTail(b: seq<byte>, k: nat, r: Record)
    requires k <= |b| && Within(b[k..], r)
    ensures Within(b, r)
  {
    hide Encode;
    var i: nat :| StandsAt(b[k..], i, r);
    assert b[k + i..k + i + REC_SIZE] == b[k..][i..i + REC_SIZE];
    assert StandsAt(b, k + i, r);
  }

  /** For any bytes whatever: text, records of 16 bytes, single bytes skipped and what is kept
      back add up to all of them, and the counters say what was yielded. */
  lemma {:induction false} EveryByteCounted(d: D.Dec)
    ensures var (e, items) := D.Drain(d);
      && TextBytes(items) == e.textBytes - d.textBytes && GotCount(items) == e.records - d.records
      && GapSum(items) == e.lost - d.lost && e.resyncs >= d.resyncs
      && TextBytes(items) + REC_SIZE * GotCount(items) + (e.resyncs - d.resyncs) + |e.buf| == |d.buf|
    decreases |d.buf|
  {
    hide CrcOk, Parse, D.Emit, D.TakeText, D.Drain, TextBytes, GotCount, GapSum;
    var (e, text) := D.TakeText(d);
    CountsOfText(d);
    if |e.buf| < REC_SIZE {
      D.DrainStops(d);
    } else if CrcOk(e.buf[..REC_SIZE]) {
      D.DrainEmits(d);
      var r := Parse(e.buf[..REC_SIZE]);
      CountsOfEmit(e, r);
      var (f, rec) := D.Emit(e, r);
      var g := f.(buf := e.buf[REC_SIZE..]);
      EveryByteCounted(g);
      CountsAppend(text + rec, D.Drain(g).1);
      CountsAppend(text, rec);
    } else {
      D.DrainSkips(d);
      var g := e.(buf := e.buf[1..], resyncs := e.resyncs + 1);
      EveryByteCounted(g);
      CountsAppend(text, D.Drain(g).1);
    }
  }

  /** And every record the decoder yields stands in them, encoded. */
  lemma {:induction false} NothingInvented(d: D.Dec, r: Record)
    requires D.Got(r) in D.Drain(d).1
    ensures Within(d.buf, r)
    decreases |d.buf|
  {
    hide CrcOk, Parse, Encode, D.Emit, D.TakeText, D.Drain, Within, TextBytes, GotCount, GapSum;
    var (e, text) := D.TakeText(d);
    var i := D.Find(d.buf);
    CountsOfText(d);
    if |e.buf| < REC_SIZE {
      D.DrainStops(d);
    } else {
      if CrcOk(e.buf[..REC_SIZE]) {
        D.DrainEmits(d);
        var q := Parse(e.buf[..REC_SIZE]);
        NotText(d);
        AcceptedExactly(e.buf[..REC_SIZE]);
        CountsOfEmit(e, q);
        var (f, rec) := D.Emit(e, q);
        var g := f.(buf := e.buf[REC_SIZE..]);
        AtFront(e.buf, q);
        if D.Got(r) in D.Drain(g).1 {
          NothingInvented(g, r);
          WithinTail(e.buf, REC_SIZE, r);
        }
      } else {
        D.DrainSkips(d);
        var g := e.(buf := e.buf[1..], resyncs := e.resyncs + 1);
        NothingInvented(g, r);
        WithinTail(e.buf, 1, r);
      }
      WithinTail(d.buf, i, r);
    }
  }

  lemma NotText(d: D.Dec)
    ensures var e := D.TakeText(d).0; e.buf == [] || e.buf[0] == SYNC
  {
  }

  lemma AtFront(b: seq<byte>, r: Record)
    requires |b| >= REC_SIZE && b[..REC_SIZE] == Encode(r)
    ensures Within(b, r)
  {
    hide Encode;
    assert StandsAt(b, 0, r);
  }
}
