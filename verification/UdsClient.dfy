/** The programming tool's end of the transport. */
module UdsClient {
  import opened Words
  import opened IsoTp

  /** What the waiting calls return or raise. */
  datatype Reply = Got(msg: seq<byte>) | Timeout | Malformed

  /** A slice that stops at the end of the bytes, as the tool's language defines it. */
  function Slice(b: seq<byte>, lo: nat, hi: nat): (s: seq<byte>)
    ensures lo <= hi ==> |s| <= hi - lo
  {
    if lo >= |b| || hi <= lo then [] else if hi > |b| then b[lo..] else b[lo..hi]
  }

  function Collect(buf: seq<byte>, total: nat, exp: nat, inbox: seq<seq<byte>>): Reply
    decreases |inbox|
  {
    if |buf| >= total then Got(buf[..total])
    else if inbox == [] then Timeout
    else
      var cf := inbox[0];
      if cf == [] || Kind(cf) != PCI_CF || LowNibble(cf) != exp % 16 then Malformed
      else Collect(buf + Slice(cf, 1, 1 + total - |buf|), total, exp + 1, inbox[1..])
  }

  /** `inbox` holds the frames that arrive before the deadline. */
  function ReceiveSpec(inbox: seq<seq<byte>>): Reply {
    if inbox == [] then Timeout
    else
      var f := inbox[0];
      if f == [] then Malformed
      else if Kind(f) == PCI_SF then (if |f| < 2 then Malformed else Got(Slice(f, 2, 2 + f[1] as int)))
      else if Kind(f) != PCI_FF then Malformed
      else Collect(Slice(f, 5, |f|), BigEndian(Slice(f, 1, 5)), 1, inbox[1..])
  }

  /** The payloads of consecutive frames, whatever their lengths. */
  function Carried(fs: seq<seq<byte>>): seq<byte> {
    if fs == [] then [] else (if fs[0] == [] then [] else fs[0][1..]) + Carried(fs[1..])
  }

  predicate IsNext(f: seq<byte>, no: nat) {
    f != [] && Kind(f) == PCI_CF && LowNibble(f) == no % 16
  }

  lemma CollectEnds(buf: seq<byte>, total: nat, exp: nat, inbox: seq<seq<byte>>)
    ensures |buf| >= total ==> Collect(buf, total, exp, inbox) == Got(buf[..total])
    ensures |buf| < total && inbox == [] ==> Collect(buf, total, exp, inbox) == Timeout
    ensures |buf| < total && inbox != [] && !IsNext(inbox[0], exp) ==> Collect(buf, total, exp, inbox) == Malformed
  {
    hide Kind, LowNibble;
  }

  lemma CollectGoes(buf: seq<byte>, total: nat, exp: nat, cf: seq<byte>, rest: seq<seq<byte>>)
    requires |buf| < total && IsNext(cf, exp)
    ensures cf != []
    ensures Collect(buf, total, exp, [cf] + rest)
      == Collect(buf + Slice(cf, 1, 1 + total - |buf|), total, exp + 1, rest)
  {
    hide Kind, LowNibble;
    assert ([cf] + rest)[1..] == rest;
  }

  /** The client's reception, exactly: as long as frames arrive in order and bytes are missing it
      goes on; the frame that is not the next one ends it as malformed, the last one missing
      bytes ends it with exactly the declared length of what came, and no frame as a timeout. */
  lemma {:induction false} CollectDecides(buf: seq<byte>, total: nat, exp: nat, inbox: seq<seq<byte>>, n: nat)
    requires n <= |inbox| && forall i :: 0 <= i < n ==> IsNext(inbox[i], exp + i)
    requires forall k :: 0 <= k < n ==> |buf + Carried(inbox[..k])| < total
    ensures var got := buf + Carried(inbox[..n]);
      if |got| >= total then Collect(buf, total, exp, inbox) == Got(got[..total])
      else if n == |inbox| then Collect(buf, total, exp, inbox) == Timeout
      else if !IsNext(inbox[n], exp + n) then Collect(buf, total, exp, inbox) == Malformed
      else true
    decreases n
  {
    hide IsNext, Collect;
    if n == 0 {
      assert inbox[..0] == [] && buf + [] == buf;
      CollectEnds(buf, total, exp, inbox);
    } else {
      assert inbox[..0] == [] && Carried([]) == [] && buf + [] == buf;
      var cf, rest := inbox[0], inbox[1..];
      assert inbox == [cf] + rest;
      assert IsNext(inbox[0], exp + 0);
      var taken := Slice(cf, 1, 1 + total - |buf|);
      CollectGoes(buf, total, exp, cf, rest);
      if |cf| - 1 <= total - |buf| {
        assert taken == cf[1..];
        var buf' := buf + cf[1..];
        forall k | 0 <= k < n
          ensures buf' + Carried(rest[..k]) == buf + Carried(inbox[..k + 1])
        {
          assert inbox[..k + 1][1..] == rest[..k];
          assert buf + cf[1..] + Carried(rest[..k]) == buf + (cf[1..] + Carried(rest[..k]));
        }
        CollectDecides(buf', total, exp + 1, rest, n - 1);
      } else {
        FullBefore(buf, total, cf, rest, n);
        CollectEnds(buf + taken, total, exp + 1, rest);
        assert inbox[..1] == [cf];
      }
    }
  }

  /** A frame that holds more than is missing is the last one looked at. */
  lemma FullBefore(buf: seq<byte>, total: nat, cf: seq<byte>, rest: seq<seq<byte>>, n: nat)
    requires |buf| < total && cf != [] && |cf| - 1 > total - |buf| && 0 < n <= 1 + |rest|
    requires forall k :: 0 <= k < n ==> |buf + Carried(([cf] + rest)[..k])| < total
    ensures n == 1 && (buf + Carried([cf]))[..total] == buf + Slice(cf, 1, 1 + total - |buf|)
    ensures |buf + Carried([cf])| >= total
  {
    assert Carried([cf]) == cf[1..] + Carried([cf][1..]);
    assert [cf][1..] == [];
    assert ([cf] + rest)[..1] == [cf];
  }

  predicate IsCts(f: seq<byte>) {
    f != [] && Kind(f) == PCI_FC && LowNibble(f) == CTS
  }

  /** Of all answers only a flow control with status 0 lets the client go on. */
  lemma CtsIsStatusZero(f: seq<byte>)
    requires f != []
    ensures IsCts(f) <==> f[0] == 0x30
  {
  }

  /** `answer` is the frame that arrives after the first frame, if one does. A length that does
      not fit the four bytes of a first frame raises before anything is sent. */
  method Send(payload: seq<byte>, answer: Option<seq<byte>>) returns (sent: seq<seq<byte>>, ok: bool)
    ensures ok == (|payload| <= SF_MAX || (|payload| < U32_MOD && answer.Some? && IsCts(answer.value)))
    ensures sent == if |payload| >= U32_MOD then [] else if ok then Segments(payload) else Segments(payload)[..1]
  {
    hide ConsecutiveFrame, FirstFrame, Tail;
    if |payload| <= SF_MAX {
      return [SingleFrame(payload)], true;
    }
    if |payload| >= U32_MOD {
      return [], false;
    }
    sent := [FirstFrame(payload)];
    if answer.None? || !IsCts(answer.value) {
      return sent, false;
    }
    var rest, no := payload[FF_INITIAL..], 1;
    while rest != []
      invariant sent + Tail(rest, no % 16) == Segments(payload)
      decreases |rest|
    {
      var n := Min(CF_MAX, |rest|);
      var cf := ConsecutiveFrame(no % 16, rest[..n]);
      OneMore(sent, rest, no);
      sent := sent + [cf];
      rest, no := rest[n..], no + 1;
    }
    NoTail(no % 16);
    assert sent + [] == sent;
    return sent, true;
  }

  lemma NoTail(no: Nibble)
    ensures Tail([], no) == []
  {
  }

  lemma OneMore(sent: seq<seq<byte>>, rest: seq<byte>, no: nat)
    requires rest != []
    ensures var n := Min(CF_MAX, |rest|);
      sent + Tail(rest, no % 16) == sent + [ConsecutiveFrame(no % 16, rest[..n])] + Tail(rest[n..], (no + 1) % 16)
  {
    hide ConsecutiveFrame;
    assert (no % 16 + 1) % 16 == (no + 1) % 16;
  }

  /** What the client sends while it receives: one flow control for a first frame. */
  function Answers(inbox: seq<seq<byte>>): seq<seq<byte>> {
    if inbox != [] && inbox[0] != [] && Kind(inbox[0]) == PCI_FF then [FlowControl(CTS, 8, 0)] else []
  }

  method Receive(inbox: seq<seq<byte>>) returns (r: Reply, sent: seq<seq<byte>>)
    ensures r == ReceiveSpec(inbox) && sent == Answers(inbox)
  {
    sent := [];
    if inbox == [] {
      return Timeout, sent;
    }
    var first := inbox[0];
    if first == [] {
      return Malformed, sent;
    }
    if Kind(first) == PCI_SF {
      return if |first| < 2 then Malformed else Got(Slice(first, 2, 2 + first[1] as int)), sent;
    }
    if Kind(first) != PCI_FF {
      return Malformed, sent;
    }
    var total := BigEndian(Slice(first, 1, 5));
    var buf := Slice(first, 5, |first|);
    sent := [FlowControl(CTS, 8, 0)];
    var exp, i := 1, 1;
    while |buf| < total
      invariant 1 <= i <= |inbox|
      invariant Collect(buf, total, exp, inbox[i..]) == ReceiveSpec(inbox)
      decreases |inbox| - i
    {
      if i == |inbox| {
        return Timeout, sent;
      }
      var cf := inbox[i];
      if cf == [] || Kind(cf) != PCI_CF || LowNibble(cf) != exp % 16 {
        return Malformed, sent;
      }
      assert inbox[i..][1..] == inbox[i + 1..];
      buf := buf + Slice(cf, 1, 1 + total - |buf|);
      exp, i := exp + 1, i + 1;
    }
    return Got(buf[..total]), sent;
  }
}
