/** The envelope of the cross-core crypto service, and the MAC request and replies in it. */
module CryptoMsg {
  import opened Words

  const MAX_PAYLOAD := 128
  const HDR_SIZE := 3
  const MAX_WIRE := 131
  const TAG_LEN := 16

  const OP_NONE: byte := 0
  const OP_MAC: byte := 3

  const VERDICT_ERROR: byte := 2

  /** `payload` is the part in use of the 128-byte array; the rest is kept zero. */
  datatype Msg = Msg(op: byte, payload: seq<byte>)

  function Encode(m: Msg, cap: nat): Option<seq<byte>> {
    if |m.payload| > MAX_PAYLOAD || cap < HDR_SIZE + |m.payload| then None
    else Some([m.op] + PutU16(|m.payload|) + m.payload)
  }

  function Decode(b: seq<byte>): Option<Msg> {
    if |b| < HDR_SIZE then None
    else
      var n := GetU16(b[1..]);
      if n > MAX_PAYLOAD || n as int > |b| - HDR_SIZE then None else Some(Msg(b[0], b[3..3 + n as int]))
  }

  /** An empty request stands for a message that does not fit. */
  function MacRequest(key: u32, msg: seq<byte>): Msg {
    if 6 + |msg| > MAX_PAYLOAD then Msg(OP_MAC, []) else Msg(OP_MAC, PutU32(key) + PutU16(|msg|) + msg)
  }

  function ParseMacRequest(m: Msg): Option<(u32, seq<byte>)> {
    if m.op != OP_MAC || |m.payload| < 6 then None
    else
      var n := GetU16(m.payload[4..]);
      if n as int > |m.payload| - 6 then None else Some((GetU32(m.payload), m.payload[6..6 + n as int]))
  }

  function MacResponse(tag: Tag): Msg {
    Msg(OP_MAC, tag)
  }

  function ParseMacResponse(m: Msg): Option<Tag> {
    if m.op != OP_MAC || |m.payload| < TAG_LEN then None else Some(m.payload[..TAG_LEN])
  }

  function Verdict(echo: byte, v: byte): Msg {
    Msg(echo, [v])
  }

  /** A message that fits the buffer survives the envelope, whatever bytes follow it. */
  lemma EnvelopeRoundTrip(m: Msg, cap: nat, junk: seq<byte>)
    requires |m.payload| <= MAX_PAYLOAD && HDR_SIZE + |m.payload| <= cap
    ensures Encode(m, cap).Some? && Decode(Encode(m, cap).value + junk) == Some(m)
  {
    hide PutU16, GetU16;
    U16RoundTrip(|m.payload|);
    var h := PutU16(|m.payload|);
    var b := [m.op] + h + m.payload + junk;
    U16Prefix(b[1..], h);
    assert b[3..3 + |m.payload|] == m.payload;
  }

  /** What the server parses is what the client asked, exactly when the message fits. */
  lemma MacRequestRoundTrip(key: u32, msg: seq<byte>)
    ensures ParseMacRequest(MacRequest(key, msg)) == if 6 + |msg| <= MAX_PAYLOAD then Some((key, msg)) else None
  {
    hide PutU16, GetU16, PutU32, GetU32;
    if 6 + |msg| <= MAX_PAYLOAD {
      U32RoundTrip(key);
      U16RoundTrip(|msg|);
      var p := PutU32(key) + PutU16(|msg|) + msg;
      U32Prefix(p, PutU32(key));
      U16Prefix(p[4..], PutU16(|msg|));
      assert p[6..6 + |msg|] == msg;
    }
  }

  method EncodeInto(m: Msg, buf: array<byte>) returns (total: nat)
    modifies buf
    ensures total <= buf.Length
    ensures Encode(m, buf.Length) == if total == 0 then None else Some(buf[..total])
    ensures total == 0 ==> buf[..] == old(buf[..])
  {
    hide PutU16;
    if |m.payload| > MAX_PAYLOAD {
      return 0;
    }
    total := HDR_SIZE + |m.payload|;
    if buf.Length < total {
      return 0;
    }
    buf[0] := m.op;
    buf[1], buf[2] := |m.payload| % 0x100, |m.payload| / 0x100 % 0x100;
    for i := 0 to |m.payload|
      invariant buf[0] == m.op && buf[1] == |m.payload| % 0x100 && buf[2] == |m.payload| / 0x100 % 0x100
      invariant forall j :: 0 <= j < i ==> buf[HDR_SIZE + j] == m.payload[j]
    {
      buf[HDR_SIZE + i] := m.payload[i];
    }
    TwoBytes(|m.payload|);
    assert buf[..total] == [m.op] + PutU16(|m.payload|) + m.payload;
  }

  lemma TwoBytes(v: u16)
    ensures PutU16(v) == [v as int % 0x100, v as int / 0x100 % 0x100]
  {
    LeUnfold(v, 2);
    LeUnfold(v / 0x100, 1);
  }

  /** Bytes decode to an envelope exactly if they begin with its encoding. */
  lemma DecodeExactly(b: seq<byte>, m: Msg)
    ensures Decode(b) == Some(m) <==> |m.payload| <= 128 && [m.op] + PutU16(|m.payload|) + m.payload <= b
  {
    hide PutU16, GetU16;
    if |m.payload| <= 128 {
      var w := [m.op] + PutU16(|m.payload|) + m.payload;
      if w <= b {
        EnvelopeRoundTrip(m, MAX_WIRE, b[|w|..]);
        assert w + b[|w|..] == b;
      }
    }
    if Decode(b) == Some(m) {
      assert b[1..][..2] == b[1..3];
      U16Prefix(b[1..], b[1..3]);
      PutGet16(b[1..3]);
      assert b[..3 + |m.payload|] == [m.op] + PutU16(|m.payload|) + m.payload;
    }
  }

  /** A payload is parsed as a MAC request exactly if it begins with key, length and message. */
  lemma ParseExactly(m: Msg, key: u32, msg: seq<byte>)
    ensures ParseMacRequest(m) == Some((key, msg))
      <==> m.op == 3 && |msg| < U16_MOD && PutU32(key) + PutU16(|msg|) + msg <= m.payload
  {
    hide PutU16, GetU16, PutU32, GetU32;
    var p := m.payload;
    if |p| >= 6 {
      assert p[..4] == p[0..4] && p[4..][..2] == p[4..6];
      U32Prefix(p, p[..4]);
      U16Prefix(p[4..], p[4..6]);
      PutGet32(p[..4]);
      PutGet16(p[4..6]);
      if |msg| < U16_MOD {
        var w := PutU32(key) + PutU16(|msg|) + msg;
        U32RoundTrip(key);
        U16RoundTrip(|msg|);
        if w <= p {
          assert p[..4] == w[..4] == PutU32(key) && p[4..6] == w[4..6] == PutU16(|msg|);
          assert p[6..6 + |msg|] == w[6..] == msg;
        }
      }
      if ParseMacRequest(m) == Some((key, msg)) {
        assert p[..6 + |msg|] == p[..4] + p[4..6] + p[6..6 + |msg|];
      }
    }
  }
}
