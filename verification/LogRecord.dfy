/** The 16-byte log record: the target's encoder and the host decoder's field extraction,
    with the CRC-16 as each side writes it. */
module LogRecord {
  import opened Words

  const REC_SIZE := 16
  const SYNC: byte := 0xA5
  const SEQ_MOD := 64
  const EVT_BOOT: u16 := 0x0001
  const EVT_OVERFLOW: u16 := 0x0004

  type Core = x: int | 0 <= x < 4
  type SeqNo = x: int | 0 <= x < 64

  datatype Record = Record(core: Core, seqno: SeqNo, evt: u16, ts: u32, arg0: u32, arg1: u16)

  // ---------------------------------------------------------------- CRC-16/CCITT-FALSE

  const CRC16_POLY: u16 := 0x1021

  /** One shift of the target's 16-bit register, which drops the carry. */
  function Shift(crc: u16): u16 {
    if crc >= 0x8000 then Xor16(crc as int * 2 % U16_MOD, CRC16_POLY) else crc as int * 2 % U16_MOD
  }

  function Absorb(crc: u16, b: byte): u16 {
    Xor16(crc, b as int * 0x100)
  }

  /** The register after `bits` more shifts of the current byte and then the bytes `p`. */
  function CrcRun(crc: u16, bits: nat, p: seq<byte>): u16
    decreases |p|, bits
  {
    if bits > 0 then CrcRun(Shift(crc), bits - 1, p)
    else if p == [] then crc
    else CrcRun(Absorb(crc, p[0]), 8, p[1..])
  }

  function Crc16(p: seq<byte>): u16 {
    CrcRun(0xFFFF, 0, p)
  }

  /** The decoder's register: unbounded integers, masked after each shift. */
  function HostShift(crc: nat): nat {
    if crc / 0x8000 % 2 == 1 then Xor(crc * 2, CRC16_POLY, 17) % U16_MOD else crc * 2 % U16_MOD
  }

  function HostAbsorb(crc: nat, b: nat): nat {
    Xor(crc, b * 0x100, 17)
  }

  function HostCrcRun(crc: nat, bits: nat, p: seq<byte>): nat
    decreases |p|, bits
  {
    if bits > 0 then HostCrcRun(HostShift(crc), bits - 1, p)
    else if p == [] then crc
    else HostCrcRun(HostAbsorb(crc, p[0]), 8, p[1..])
  }

  function HostCrc16(p: seq<byte>): nat {
    HostCrcRun(0xFFFF, 0, p)
  }

  lemma ShiftAgrees(crc: u16)
    ensures HostShift(crc) == Shift(crc)
  {
    hide Xor;
    Pow2Of16();
    XorLow(crc as int * 2, CRC16_POLY, 16);
    XorOfLow(crc as int * 2, CRC16_POLY, 16);
  }

  lemma AbsorbAgrees(crc: u16, b: byte)
    ensures HostAbsorb(crc, b) == Absorb(crc, b)
  {
    hide Xor;
    Pow2Of16();
    XorTop(crc, b as int * 0x100, 16);
  }

  /** Target and host compute the same CRC. */
  lemma {:induction false} CrcAgrees(crc: u16, bits: nat, p: seq<byte>)
    ensures HostCrcRun(crc, bits, p) == CrcRun(crc, bits, p)
    decreases |p|, bits
  {
    hide Shift, HostShift, Absorb, HostAbsorb;
    if bits > 0 {
      ShiftAgrees(crc);
      CrcAgrees(Shift(crc), bits - 1, p);
    } else if p != [] {
      AbsorbAgrees(crc, p[0]);
      CrcAgrees(Absorb(crc, p[0]), 8, p[1..]);
    }
  }

  // ---------------------------------------------------------------- the record

  function Head(r: Record): (b: seq<byte>)
    ensures |b| == 14
  {
    [SYNC, r.core as int * 0x40 + r.seqno as int] + PutU16(r.evt) + PutU32(r.ts) + PutU32(r.arg0) + PutU16(r.arg1)
  }

  function Encode(r: Record): (b: seq<byte>)
    ensures |b| == REC_SIZE && b[0] == SYNC
  {
    Head(r) + PutU16(Crc16(Head(r)))
  }

  predicate CrcOk(frame: seq<byte>)
    requires |frame| == REC_SIZE
  {
    HostCrc16(frame[..14]) == GetU16(frame[14..])
  }

  function Parse(frame: seq<byte>): Record
    requires |frame| == REC_SIZE
  {
    Record(frame[1] as int / 0x40, frame[1] as int % 0x40, GetU16(frame[2..]), GetU32(frame[4..]), GetU32(frame[8..]),
      GetU16(frame[12..]))
  }

  /** The host accepts every record the target encodes, and reads back its fields. */
  lemma RecordRoundTrip(r: Record)
    ensures CrcOk(Encode(r)) && Parse(Encode(r)) == r
  {
    var b, h := Encode(r), Head(r);
    assert b[..14] == h && b[14..] == PutU16(Crc16(h));
    U16RoundTrip(Crc16(h));
    CrcAgrees(0xFFFF, 0, h);
    FieldsRoundTrip(r);
  }

  lemma FieldsRoundTrip(r: Record)
    ensures Parse(Encode(r)) == r
  {
    hide PutU16, PutU32, GetU16, GetU32, Crc16;
    var b := Encode(r);
    U16RoundTrip(r.evt);
    U32RoundTrip(r.ts);
    U32RoundTrip(r.arg0);
    U16RoundTrip(r.arg1);
    U16Prefix(b[2..], PutU16(r.evt));
    U32Prefix(b[4..], PutU32(r.ts));
    U32Prefix(b[8..], PutU32(r.arg0));
    U16Prefix(b[12..], PutU16(r.arg1));
  }

  /** The record on the wire, byte by byte. */
  lemma RecordLayout(r: Record)
    ensures var b := Encode(r);
      && b[0] == 0xA5 && b[1] as int == r.core as int * 64 + r.seqno as int
      && b[2..4] == [r.evt % 0x100, r.evt / 0x100]
      && b[4..8] == [r.ts % 0x100, r.ts / 0x100 % 0x100, r.ts / 0x1_0000 % 0x100, r.ts / 0x100_0000]
      && b[8..12] == [r.arg0 % 0x100, r.arg0 / 0x100 % 0x100, r.arg0 / 0x1_0000 % 0x100, r.arg0 / 0x100_0000]
      && b[12..14] == [r.arg1 % 0x100, r.arg1 / 0x100]
      && b[14..] == [Crc16(b[..14]) % 0x100, Crc16(b[..14]) / 0x100]
  {
    hide PutU16, PutU32, Crc16;
    var b := Encode(r);
    assert b[..14] == Head(r);
    assert b[2..4] == PutU16(r.evt) && b[4..8] == PutU32(r.ts);
    assert b[8..12] == PutU32(r.arg0) && b[12..14] == PutU16(r.arg1);
    U16Bytes(r.evt);
    U32Bytes(r.ts);
    U32Bytes(r.arg0);
    U16Bytes(r.arg1);
    U16Bytes(Crc16(b[..14]));
  }

  /** The first fourteen bytes of a candidate are the head of the record it is read as. */
  lemma HeadOfParse(frame: seq<byte>)
    requires |frame| == REC_SIZE && frame[0] == SYNC
    ensures Head(Parse(frame)) == frame[..14]
  {
    hide PutU16, PutU32, GetU16, GetU32;
    assert frame[2..][..2] == frame[2..4] && frame[12..][..2] == frame[12..14];
    assert frame[4..][..4] == frame[4..8] && frame[8..][..4] == frame[8..12];
    U16Prefix(frame[2..], frame[2..4]);
    U16Prefix(frame[12..], frame[12..14]);
    U32Prefix(frame[4..], frame[4..8]);
    U32Prefix(frame[8..], frame[8..12]);
    PutGet16(frame[2..4]);
    PutGet16(frame[12..14]);
    PutGet32(frame[4..8]);
    PutGet32(frame[8..12]);
    assert frame[..14] == [SYNC, frame[1]] + frame[2..4] + frame[4..8] + frame[8..12] + frame[12..14];
  }

  /** A candidate record, which starts with the sync byte, is accepted exactly if it is the
      encoding of a record, namely of the one it is then read as. */
  lemma AcceptedExactly(frame: seq<byte>)
    requires |frame| == REC_SIZE && frame[0] == SYNC
    ensures CrcOk(frame) <==> frame == Encode(Parse(frame))
  {
    hide PutU16, GetU16, Crc16, HostCrc16, Parse, Head;
    HeadOfParse(frame);
    HostIsTarget(frame[..14]);
    PutGet16(frame[14..]);
    U16RoundTrip(Crc16(frame[..14]));
    assert frame == frame[..14] + frame[14..];
  }

  lemma HostIsTarget(p: seq<byte>)
    ensures HostCrc16(p) == Crc16(p)
  {
    CrcAgrees(0xFFFF, 0, p);
  }

  method ComputeCrc16(p: seq<byte>) returns (crc: u16)
    ensures crc == Crc16(p)
  {
    hide Xor16;
    crc := 0xFFFF;
    for i := 0 to |p|
      invariant CrcRun(crc, 0, p[i..]) == CrcRun(0xFFFF, 0, p)
    {
      crc := Xor16(crc, p[i] as int * 0x100);
      assert p[i..][1..] == p[i + 1..];
      for bit := 0 to 8
        invariant CrcRun(crc, 8 - bit, p[i + 1..]) == CrcRun(0xFFFF, 0, p)
      {
        if crc >= 0x8000 {
          crc := Xor16(crc as int * 2 % U16_MOD, CRC16_POLY);
        } else {
          crc := crc as int * 2 % U16_MOD;
        }
      }
    }
  }

  method RecEncode(r: Record) returns (b: seq<byte>)
    ensures b == Encode(r)
  {
    hide Crc16, PutU16, PutU32;
    var crc := ComputeCrc16(Head(r));
    b := Head(r) + PutU16(crc);
  }
}
