/** The ISO-TP transport of the target: one receiver and one sender over CAN FD frames,
    in the simplified frame layout the project uses. */
module IsoTp {
  import opened Words

  const MAX_PAYLOAD := 4096
  const SF_MAX := 62
  const FF_INITIAL := 59
  const CF_MAX := 63
  const BLOCK_SIZE: byte := 8
  const N_CR_MS := 1000

  const PCI_SF: byte := 0x00
  const PCI_FF: byte := 0x10
  const PCI_CF: byte := 0x20
  const PCI_FC: byte := 0x30

  const CTS := 0
  const OVERFLOW := 2

  type Nibble = x: int | 0 <= x < 16

  const FRAME_LEN := 64

  /** A received frame as the handlers see it: the driver's 64-byte data buffer, whatever the
      length on the wire, and the memory behind it, as far as a single frame can make the code
      read. */
  type Frame = f: seq<byte> | |f| == 257 witness seq(257, i => 0)

  datatype State = IDLE | RX_IN_PROGRESS | RX_COMPLETE | ERROR_TIMEOUT | ERROR_FLOW | ERROR_OVERFLOW

  /** `msg` is the received part of the receive buffer, `tx` the message being sent,
      `out` every frame handed to the bus. */
  datatype Tp = Tp(state: State, total: u32, msg: seq<byte>, nextRx: Nibble, last: u32, complete: bool,
                   tx: seq<byte>, done: nat, nextTx: Nibble, pending: bool, block: u16, out: seq<seq<byte>>)

  /** A frame and the time of the poll that read it. */
  datatype Rcv = Rcv(f: Frame, now: u32)

  datatype Poll = Poll(fs: seq<Frame>, now: u32)

  predicate Ok(t: Tp) {
    && |t.msg| <= MAX_PAYLOAD && |t.tx| <= MAX_PAYLOAD && t.done <= |t.tx|
    && (t.state == RX_IN_PROGRESS ==>
          |t.msg| <= t.total <= MAX_PAYLOAD || (|t.msg| == FF_INITIAL && t.total < FF_INITIAL))
  }

  function Kind(f: seq<byte>): byte
    requires f != []
  {
    f[0] as int / 0x10 * 0x10
  }

  function LowNibble(f: seq<byte>): Nibble
    requires f != []
  {
    f[0] as int % 0x10
  }

  function BigEndian(b: seq<byte>): nat {
    if b == [] then 0 else BigEndian(b[..|b| - 1]) * 0x100 + b[|b| - 1] as int
  }

  function Min(a: nat, b: nat): (m: nat)
    ensures m <= a && m <= b
  {
    if a < b then a else b
  }

  // ---------------------------------------------------------------- frames

  function SingleFrame(msg: seq<byte>): (f: seq<byte>)
    requires |msg| <= SF_MAX
    ensures |f| <= 64
  {
    [PCI_SF, |msg|] + msg
  }

  function FirstFrame(msg: seq<byte>): (f: seq<byte>)
    requires SF_MAX < |msg| < U32_MOD
    ensures |f| == 64
  {
    [PCI_FF, |msg| / 0x100_0000, |msg| / 0x1_0000 % 0x100, |msg| / 0x100 % 0x100, |msg| % 0x100] + msg[..FF_INITIAL]
  }

  function ConsecutiveFrame(no: Nibble, chunk: seq<byte>): (f: seq<byte>)
    requires |chunk| <= CF_MAX
    ensures |f| <= 64
  {
    [PCI_CF + no] + chunk
  }

  function FlowControl(status: Nibble, bs: byte, stmin: byte): (f: seq<byte>) {
    [PCI_FC + status, bs, stmin]
  }

  /** The consecutive frames that carry `rest`, numbered from `no` on, modulo 16. */
  function Tail(rest: seq<byte>, no: Nibble): (fs: seq<seq<byte>>)
    decreases |rest|
  {
    if rest == [] then []
    else [ConsecutiveFrame(no, rest[..Min(CF_MAX, |rest|)])] + Tail(rest[Min(CF_MAX, |rest|)..], (no + 1) % 16)
  }

  /** The canonical segmentation of a message. */
  function Segments(msg: seq<byte>): (fs: seq<seq<byte>>)
    requires |msg| < U32_MOD
  {
    if |msg| <= SF_MAX then [SingleFrame(msg)] else [FirstFrame(msg)] + Tail(msg[FF_INITIAL..], 1)
  }

  // ---------------------------------------------------------------- the receiver

  function HandleSf(t: Tp, f: Frame): Tp
  {
    t.(msg := f[2..2 + f[1] as int], complete := true, state := RX_COMPLETE)
  }

  function Declared(f: Frame): u32 {
    f[1] as int * 0x100_0000 + f[2] as int * 0x1_0000 + f[3] as int * 0x100 + f[4] as int
  }

  function HandleFf(t: Tp, f: Frame, now: u32): Tp {
    if Declared(f) > MAX_PAYLOAD then t.(state := ERROR_OVERFLOW)
    else t.(msg := f[5..5 + FF_INITIAL], total := Declared(f), nextRx := 1, last := now, state := RX_IN_PROGRESS,
            out := t.out + [FlowControl(CTS, BLOCK_SIZE, 0)])
  }

  /** Bytes one consecutive frame adds; the difference wraps when more than the declared
      total is already there. */
  function Take(t: Tp): (n: nat)
    ensures n <= CF_MAX
  {
    Min(CF_MAX, (t.total as int - |t.msg|) % U32_MOD)
  }

  function HandleCf(t: Tp, f: Frame, now: u32): Tp {
    if t.state != RX_IN_PROGRESS then t
    else if LowNibble(f) != t.nextRx then t.(state := ERROR_FLOW)
    else
      var u := t.(msg := t.msg + f[1..1 + Take(t)], nextRx := (t.nextRx + 1) % 16, last := now);
      if |u.msg| >= t.total then u.(complete := true, state := RX_COMPLETE) else u
  }

  // ---------------------------------------------------------------- the sender

  function SendOne(t: Tp): (u: Tp)
    requires t.done < |t.tx| && t.block > 0
    ensures t.done < u.done <= |u.tx| && u.tx == t.tx
  {
    var n := Min(CF_MAX, |t.tx| - t.done);
    t.(out := t.out + [ConsecutiveFrame(t.nextTx, t.tx[t.done..t.done + n])],
       done := t.done + n, nextTx := (t.nextTx + 1) % 16, block := t.block - 1)
  }

  function SendBlock(t: Tp): Tp
    decreases |t.tx| - t.done
  {
    if t.done < |t.tx| && t.block > 0 then SendBlock(SendOne(t))
    else t.(pending := t.pending && t.done < |t.tx|)
  }

  function HandleFc(t: Tp, f: Frame): Tp {
    if !t.pending then t
    else if LowNibble(f) == CTS then SendBlock(t.(block := if f[1] == 0 then 0xFFFF else f[1] as int))
    else if LowNibble(f) == OVERFLOW then t.(pending := false, state := ERROR_OVERFLOW)
    else t
  }

  function Handle(t: Tp, r: Rcv): Tp
  {
    var k := Kind(r.f);
    if k == PCI_SF then HandleSf(t, r.f)
    else if k == PCI_FF then HandleFf(t, r.f, r.now)
    else if k == PCI_CF then HandleCf(t, r.f, r.now)
    else if k == PCI_FC then HandleFc(t, r.f)
    else t
  }

  function HandleAll(t: Tp, rs: seq<Rcv>): Tp
    decreases |rs|
  {
    if rs == [] then t else HandleAll(Handle(t, rs[0]), rs[1..])
  }

  predicate Expires(t: Tp, now: u32) {
    t.state == RX_IN_PROGRESS && (now as int - t.last as int) % U32_MOD >= N_CR_MS
  }

  function At(fs: seq<Frame>, now: u32): (rs: seq<Rcv>)
    ensures |rs| == |fs|
  {
    seq(|fs|, i requires 0 <= i < |fs| => Rcv(fs[i], now))
  }

  function PollSpec(t: Tp, p: Poll): Tp
  {
    var u := HandleAll(t, At(p.fs, p.now));
    if Expires(u, p.now) then u.(state := ERROR_TIMEOUT) else u
  }

  function SendSpec(t: Tp, msg: seq<byte>): Option<Tp> {
    if |msg| > MAX_PAYLOAD || t.pending then None
    else if |msg| <= SF_MAX then Some(t.(out := t.out + [SingleFrame(msg)]))
    else Some(t.(tx := msg, done := FF_INITIAL, nextTx := 1, pending := true, block := 0,
      out := t.out + [FirstFrame(msg)]))
  }

  function TakeSpec(t: Tp, cap: nat): (p: (Option<seq<byte>>, Tp)) {
    if !t.complete || |t.msg| > cap then (None, t)
    else (Some(t.msg), t.(complete := false, state := IDLE))
  }

  /** No frame, of any kind and with any declared length, makes the receiver write past its
      buffer or the sender read past its message. */
  lemma HandleOk(t: Tp, r: Rcv)
    requires Ok(t)
    ensures Ok(Handle(t, r))
  {
    if Kind(r.f) == PCI_FC {
      BlockOk(t.(block := if r.f[1] == 0 then 0xFFFF else r.f[1] as int));
    }
  }

  lemma {:induction false} BlockOk(t: Tp)
    requires Ok(t)
    ensures Ok(SendBlock(t)) && |SendBlock(t).tx| == |t.tx|
    decreases |t.tx| - t.done
  {
    if t.done < |t.tx| && t.block > 0 {
      BlockOk(SendOne(t));
    }
  }

  lemma {:induction false} HandleAllOk(t: Tp, rs: seq<Rcv>)
    requires Ok(t)
    ensures Ok(HandleAll(t, rs))
    decreases |rs|
  {
    hide Handle, Ok;
    if rs != [] {
      HandleOk(t, rs[0]);
      HandleAllOk(Handle(t, rs[0]), rs[1..]);
    }
  }

  lemma {:induction false} HandleAllAppend(t: Tp, a: seq<Rcv>, b: seq<Rcv>)
    ensures HandleAll(t, a + b) == HandleAll(HandleAll(t, a), b)
    decreases |a|
  {
    hide Handle;
    if a == [] {
      assert a + b == b;
    } else {
      assert (a + b)[1..] == a[1..] + b;
      HandleAllAppend(Handle(t, a[0]), a[1..], b);
    }
  }

  // ---------------------------------------------------------------- the C module

  /** The bus driver: a queue of received frames and the frames sent. */
  class Can {
    var inbox: seq<Frame>
    var sent: seq<seq<byte>>

    constructor (inbox: seq<Frame>)
      ensures this.inbox == inbox && sent == []
    {
      this.inbox, sent := inbox, [];
    }

    method Send(f: seq<byte>)
      modifies this`sent
      ensures sent == old(sent) + [f]
    {
      sent := sent + [f];
    }

    method Recv() returns (f: Option<Frame>)
      modifies this`inbox
      ensures old(inbox) == [] ==> f == None && inbox == []
      ensures old(inbox) != [] ==> f == Some(old(inbox)[0]) && inbox == old(inbox)[1..]
    {
      if inbox == [] {
        return None;
      }
      f := Some(inbox[0]);
      inbox := inbox[1..];
    }
  }

  class Transport {
    const can: Can
    const rxBuf: array<byte>
    const txBuf: array<byte>
    var state: State
    var rxTotal: u32
    var received: nat
    var nextRx: Nibble
    var last: u32
    var complete: bool
    var txTotal: nat
    var done: nat
    var nextTx: Nibble
    var pending: bool
    var block: u16

    ghost predicate Valid()
      reads this, rxBuf, txBuf, can`sent
    {
      && rxBuf != txBuf && rxBuf.Length == txBuf.Length == MAX_PAYLOAD
      && received <= MAX_PAYLOAD && txTotal <= MAX_PAYLOAD && Ok(Value())
    }

    ghost function Value(): Tp
      reads this, rxBuf, txBuf, can`sent
      requires received <= rxBuf.Length && txTotal <= txBuf.Length
    {
      Tp(state, rxTotal, rxBuf[..received], nextRx, last, complete,
         txBuf[..txTotal], done, nextTx, pending, block, can.sent)
    }

    constructor (can: Can)
      ensures Valid() && this.can == can && fresh(rxBuf) && fresh(txBuf)
      ensures Value() == Tp(IDLE, 0, [], 0, 0, false, [], 0, 0, false, 0, can.sent)
    {
      this.can := can;
      rxBuf, txBuf := new byte[MAX_PAYLOAD], new byte[MAX_PAYLOAD];
      state, rxTotal, received, nextRx, last, complete := IDLE, 0, 0, 0, 0, false;
      txTotal, done, nextTx, pending, block := 0, 0, 0, false, 0;
    }

    method OnSf(f: Frame)
      requires Valid()
      modifies this, rxBuf
      ensures Valid() && Value() == HandleSf(old(Value()), f)
    {
      var len := f[1] as int;
      forall i | 0 <= i < len {
        rxBuf[i] := f[2 + i];
      }
      received := len;
      complete := true;
      state := RX_COMPLETE;
      assert rxBuf[..received] == f[2..2 + len];
    }

    method OnFf(f: Frame, now: u32)
      requires Valid()
      modifies this, rxBuf, can`sent
      ensures Valid() && Value() == HandleFf(old(Value()), f, now)
    {
      var totalLen := f[1] as int * 0x100_0000 + f[2] as int * 0x1_0000 + f[3] as int * 0x100 + f[4] as int;
      if totalLen > MAX_PAYLOAD {
        state := ERROR_OVERFLOW;
        return;
      }
      forall i | 0 <= i < FF_INITIAL {
        rxBuf[i] := f[5 + i];
      }
      received := FF_INITIAL;
      rxTotal := totalLen;
      nextRx := 1;
      last := now;
      state := RX_IN_PROGRESS;
      assert rxBuf[..received] == f[5..5 + FF_INITIAL];
      can.Send(FlowControl(CTS, BLOCK_SIZE, 0));
    }

    method Append(f: Frame, n: nat)
      requires n <= CF_MAX && received + n <= rxBuf.Length && rxBuf != txBuf
      modifies this`received, rxBuf
      ensures received == old(received) + n && rxBuf[..received] == old(rxBuf[..received]) + f[1..1 + n]
    {
      var r := received;
      forall i | 0 <= i < n {
        rxBuf[r + i] := f[1 + i];
      }
      received := r + n;
    }

    method Accept(f: Frame, now: u32)
      requires Valid() && state == RX_IN_PROGRESS && LowNibble(f) == nextRx
      modifies this, rxBuf
      ensures Valid() && Value() == HandleCf(old(Value()), f, now)
    {
      hide Ok, Take, HandleCf, LowNibble;
      CfOk(Value(), f, now);
      CfCases(Value(), f, now);
      TakeIs(Value());
      var needed := (rxTotal as int - received) % U32_MOD;
      Append(f, if needed > CF_MAX then CF_MAX else needed);
      nextRx := (nextRx + 1) % 16;
      last := now;
      if received >= rxTotal {
        complete := true;
        state := RX_COMPLETE;
      }
    }

    method OnCf(f: Frame, now: u32)
      requires Valid()
      modifies this, rxBuf
      ensures Valid() && Value() == HandleCf(old(Value()), f, now)
    {
      hide Ok, Take, HandleCf, LowNibble;
      CfOk(Value(), f, now);
      CfCases(Value(), f, now);
      if state != RX_IN_PROGRESS {
        return;
      }
      if LowNibble(f) != nextRx {
        state := ERROR_FLOW;
        return;
      }
      Accept(f, now);
    }

    method TxSendFrame()
      requires Valid() && done < txTotal && block > 0
      modifies this, can`sent
      ensures Valid() && Value() == SendOne(old(Value()))
    {
      var remaining := txTotal - done;
      var chunk := if remaining > CF_MAX then CF_MAX else remaining;
      var part := txBuf[done..done + chunk];
      SubSlice(txBuf[..], txTotal, done, done + chunk);
      can.Send(ConsecutiveFrame(nextTx, part));
      done := done + chunk;
      nextTx := (nextTx + 1) % 16;
      block := block - 1;
    }

    method TxSendBlock()
      requires Valid()
      modifies this, can`sent
      ensures Valid() && Value() == SendBlock(old(Value()))
    {
      hide SendOne;
      ghost var was := Value();
      while done < txTotal && block > 0
        invariant Valid() && SendBlock(Value()) == SendBlock(was)
        decreases txTotal - done
      {
        TxSendFrame();
      }
      if done >= txTotal {
        pending := false;
      }
    }

    method OnFc(f: Frame)
      requires Valid()
      modifies this, can`sent
      ensures Valid() && Value() == HandleFc(old(Value()), f)
    {
      if !pending {
        return;
      }
      var status := LowNibble(f);
      if status == CTS {
        block := if f[1] == 0 then 0xFFFF else f[1] as int;
        TxSendBlock();
      } else if status == OVERFLOW {
        pending := false;
        state := ERROR_OVERFLOW;
      }
    }

    method Dispatch(f: Frame, now: u32)
      requires Valid()
      modifies this, rxBuf, can`sent
      ensures Valid() && Value() == Handle(old(Value()), Rcv(f, now))
    {
      hide HandleSf, HandleFf, HandleCf, HandleFc, Ok;
      var kind := Kind(f);
      if kind == PCI_SF {
        OnSf(f);
      } else if kind == PCI_FF {
        OnFf(f, now);
      } else if kind == PCI_CF {
        OnCf(f, now);
      } else if kind == PCI_FC {
        OnFc(f);
      }
    }

    method PollBus(now: u32)
      requires Valid()
      modifies this, rxBuf, can
      ensures Valid() && can.inbox == [] && Value() == PollSpec(old(Value()), Poll(old(can.inbox), now))
    {
      hide Handle, Ok;
      ghost var was, fs := Value(), can.inbox;
      ghost var rs := At(fs, now);
      ghost var k := 0;
      assert rs[0..] == rs && fs[0..] == fs;
      while true
        invariant k <= |fs| && can.inbox == fs[k..] && Valid()
        invariant HandleAll(Value(), rs[k..]) == HandleAll(was, rs)
        decreases |fs| - k
      {
        var f := can.Recv();
        match f {
          case None =>
            break;
          case Some(frame) =>
            assert frame == fs[k] && rs[k..][0] == Rcv(frame, now) && rs[k..][1..] == rs[k + 1..];
            Dispatch(frame, now);
            k := k + 1;
        }
      }
      assert Value() == HandleAll(was, rs);
      if state == RX_IN_PROGRESS && (now as int - last as int) % U32_MOD >= N_CR_MS {
        state := ERROR_TIMEOUT;
        OkTimeout(HandleAll(was, rs));
      }
    }

    method SendMessage(msg: seq<byte>) returns (ok: bool)
      requires Valid()
      modifies this, txBuf, can`sent
      ensures Valid()
      ensures ok == SendSpec(old(Value()), msg).Some?
      ensures Value() == SendSpec(old(Value()), msg).GetOr(old(Value()))
    {
      if |msg| > MAX_PAYLOAD || pending {
        return false;
      }
      if |msg| <= SF_MAX {
        can.Send(SingleFrame(msg));
        return true;
      }
      forall i | 0 <= i < |msg| {
        txBuf[i] := msg[i];
      }
      txTotal := |msg|;
      assert txBuf[..txTotal] == msg;
      can.Send(FirstFrame(msg));
      done := FF_INITIAL;
      nextTx := 1;
      pending := true;
      block := 0;
      return true;
    }

    method TakeReceived(cap: nat) returns (msg: Option<seq<byte>>)
      requires Valid()
      modifies this
      ensures Valid() && (msg, Value()) == TakeSpec(old(Value()), cap)
    {
      if !complete || received > cap {
        return None;
      }
      msg := Some(rxBuf[..received]);
      complete := false;
      state := IDLE;
    }
  }

  lemma CfOk(t: Tp, f: Frame, now: u32)
    requires Ok(t)
    ensures Ok(HandleCf(t, f, now))
    ensures t.state == RX_IN_PROGRESS ==> |t.msg| + Take(t) <= MAX_PAYLOAD
  {
  }

  lemma CfCases(t: Tp, f: Frame, now: u32)
    ensures t.state != RX_IN_PROGRESS ==> HandleCf(t, f, now) == t
    ensures t.state == RX_IN_PROGRESS && LowNibble(f) != t.nextRx ==> HandleCf(t, f, now) == t.(state := ERROR_FLOW)
    ensures t.state == RX_IN_PROGRESS && LowNibble(f) == t.nextRx ==>
      var u := t.(msg := t.msg + f[1..1 + Take(t)], nextRx := (t.nextRx + 1) % 16, last := now);
      HandleCf(t, f, now) == if |t.msg| + Take(t) >= t.total then u.(complete := true, state := RX_COMPLETE) else u
  {
  }

  lemma TakeIs(t: Tp)
    ensures Take(t) == var needed := (t.total as int - |t.msg|) % U32_MOD; if needed > CF_MAX then CF_MAX else needed
  {
  }

  lemma SubSlice(b: seq<byte>, n: nat, lo: nat, hi: nat)
    requires lo <= hi <= n <= |b|
    ensures b[..n][lo..hi] == b[lo..hi]
  {
  }

  lemma OkTimeout(t: Tp)
    requires Ok(t)
    ensures Ok(t.(state := ERROR_TIMEOUT))
  {
  }
}
