/** One secured CAN FD frame: PDU, freshness (4 bytes), truncated MAC (8 bytes), with the
    CAN ID bound into the MAC input but not transmitted. */
module SecocFrame {
  import opened Words

  const TRAILER_LEN := 12
  const MAX_PDU := 64
  const MAX_DLEN := 64

  /** The MAC under the one configured key: a fixed but arbitrary function of its input.
      Whether the oracle answers a given call is a separate flag `up`. */
  type Mac = seq<byte> -> Tag

  datatype VerifyResult = Verified(epoch: u16, counter: u16, pdu: seq<byte>) | BadMac | BadLength | MacError

  function Freshness(epoch: u16, counter: u16): (b: seq<byte>)
    ensures |b| == 4
  {
    PutU16(epoch) + PutU16(counter)
  }

  function MacInput(id: u16, fv: seq<byte>, pdu: seq<byte>): (b: seq<byte>)
    ensures |b| == 2 + |fv| + |pdu|
  {
    PutU16(id) + fv + pdu
  }

  function Secure(mac: Mac, up: bool, id: u16, epoch: u16, counter: u16, pdu: seq<byte>, cap: nat)
    : (f: Option<seq<byte>>)
    ensures f.Some? ==> |f.value| == |pdu| + TRAILER_LEN <= cap
  {
    if |pdu| > MAX_PDU || cap < |pdu| + TRAILER_LEN || !up then None
    else
      var fv := Freshness(epoch, counter);
      Some(pdu + fv + mac(MacInput(id, fv, pdu))[..8])
  }

  function VerifyCore(mac: Mac, up: bool, id: u16, frame: seq<byte>, plen: nat): (r: VerifyResult)
    requires plen + TRAILER_LEN <= |frame|
  {
    var pdu, fv := frame[..plen], frame[plen..plen + 4];
    if !up then MacError
    else if mac(MacInput(id, fv, pdu))[..8] != frame[plen + 4..plen + 12] then BadMac
    else Verified(GetU16(fv), GetU16(fv[2..]), pdu)
  }

  /** The PDU length inferred from the frame length. */
  function VerifyInferred(mac: Mac, up: bool, id: u16, frame: seq<byte>, cap: nat): VerifyResult {
    if |frame| < TRAILER_LEN || |frame| - TRAILER_LEN > MAX_PDU || |frame| - TRAILER_LEN > cap then BadLength
    else VerifyCore(mac, up, id, frame, |frame| - TRAILER_LEN)
  }

  /** Smallest CAN FD data-field length holding n bytes, 0 if none does. */
  function FdLen(n: nat): nat {
    if n <= 8 then n
    else if n <= 12 then 12
    else if n <= 16 then 16
    else if n <= 20 then 20
    else if n <= 24 then 24
    else if n <= 32 then 32
    else if n <= 48 then 48
    else if n <= 64 then 64
    else 0
  }

  /** The PDU length configured for the ID; padding up to the CAN FD length is accepted. */
  function VerifyLen(mac: Mac, up: bool, id: u16, frame: seq<byte>, plen: nat, cap: nat): VerifyResult {
    if plen > MAX_PDU || plen > cap then BadLength
    else if |frame| < plen + TRAILER_LEN || |frame| > FdLen(plen + TRAILER_LEN) then BadLength
    else VerifyCore(mac, up, id, frame, plen)
  }

  // ---------------------------------------------------------------- properties

  lemma FreshnessRoundTrip(epoch: u16, counter: u16)
    ensures GetU16(Freshness(epoch, counter)) == epoch
    ensures GetU16(Freshness(epoch, counter)[2..]) == counter
  {
    U16RoundTrip(epoch);
    U16RoundTrip(counter);
    assert Freshness(epoch, counter)[2..] == PutU16(counter);
  }

  /** Every part of a MAC input can be recovered from it, so no two frames share one. */
  lemma MacInputInjective(id: u16, e: u16, c: u16, pdu: seq<byte>, id': u16, e': u16, c': u16, pdu': seq<byte>)
    requires MacInput(id, Freshness(e, c), pdu) == MacInput(id', Freshness(e', c'), pdu')
    ensures id == id' && e == e' && c == c' && pdu == pdu'
  {
    hide PutU16;
    var m := MacInput(id, Freshness(e, c), pdu);
    assert m[..2] == PutU16(id) == PutU16(id');
    assert m[2..4] == PutU16(e) == PutU16(e');
    assert m[4..6] == PutU16(c) == PutU16(c');
    assert m[6..] == pdu == pdu';
    U16RoundTrip(id);
    U16RoundTrip(id');
    U16RoundTrip(e);
    U16RoundTrip(e');
    U16RoundTrip(c);
    U16RoundTrip(c');
  }

  /** The MAC input, byte by byte: Data-ID, freshness, PDU. */
  lemma MacInputLayout(id: u16, epoch: u16, counter: u16, pdu: seq<byte>)
    ensures MacInput(id, Freshness(epoch, counter), pdu)
      == [id % 0x100, id / 0x100, epoch % 0x100, epoch / 0x100, counter % 0x100, counter / 0x100] + pdu
  {
    U16Bytes(id);
    U16Bytes(epoch);
    U16Bytes(counter);
  }

  /** The secured frame, byte by byte: PDU, freshness, and the first eight bytes of the tag. */
  lemma FrameLayout(mac: Mac, up: bool, id: u16, epoch: u16, counter: u16, pdu: seq<byte>, cap: nat)
    ensures var f := Secure(mac, up, id, epoch, counter, pdu, cap);
      && (f.Some? <==> up && |pdu| <= MAX_PDU && |pdu| + 12 <= cap)
      && (f.Some? ==>
            && |f.value| == |pdu| + 12 && f.value[..|pdu|] == pdu
            && f.value[|pdu|..|pdu| + 4] == [epoch % 0x100, epoch / 0x100, counter % 0x100, counter / 0x100]
            && f.value[|pdu| + 4..] == mac(MacInput(id, Freshness(epoch, counter), pdu))[..8])
  {
    hide MacInput;
    U16Bytes(epoch);
    U16Bytes(counter);
    assert Freshness(epoch, counter) == [epoch % 0x100, epoch / 0x100, counter % 0x100, counter / 0x100];
  }

  /** What a controller may put after a secured frame: padding up to the CAN FD length. */
  ghost predicate PadsTo(secured: seq<byte>, wire: seq<byte>) {
    secured <= wire && |wire| <= FdLen(|secured|)
  }

  /** A secured frame, padded or not, verifies to exactly what was secured. */
  lemma SecureVerify(mac: Mac, id: u16, epoch: u16, counter: u16, pdu: seq<byte>, wire: seq<byte>, cap: nat)
    requires Secure(mac, true, id, epoch, counter, pdu, MAX_DLEN).Some? && |pdu| <= cap
    requires PadsTo(Secure(mac, true, id, epoch, counter, pdu, MAX_DLEN).value, wire)
    ensures VerifyLen(mac, true, id, wire, |pdu|, cap) == Verified(epoch, counter, pdu)
  {
    hide PutU16;
    var fv := Freshness(epoch, counter);
    var s := Secure(mac, true, id, epoch, counter, pdu, MAX_DLEN).value;
    assert wire[..|s|] == s;
    assert wire[..|pdu|] == s[..|pdu|] == pdu;
    assert wire[|pdu|..|pdu| + 4] == s[|pdu|..|pdu| + 4] == fv;
    assert wire[|pdu| + 4..|pdu| + 12] == s[|pdu| + 4..] == mac(MacInput(id, fv, pdu))[..8];
    FreshnessRoundTrip(epoch, counter);
  }

  /** The 8-byte tag at the end of a frame whose PDU has `plen` bytes. */
  function WireTag(frame: seq<byte>, plen: nat): seq<byte>
    requires plen + TRAILER_LEN <= |frame|
  {
    frame[plen + 4..plen + 12]
  }

  /** A frame verifies exactly when its length is the ID's and its tag is the MAC of the
      ID, the freshness and the PDU it is reported to carry. */
  lemma VerifiedMeans(mac: Mac, up: bool, id: u16, frame: seq<byte>, plen: nat, cap: nat, epoch: u16, counter: u16,
                      pdu: seq<byte>)
    ensures VerifyLen(mac, up, id, frame, plen, cap) == Verified(epoch, counter, pdu) <==>
            && up && plen <= MAX_PDU && plen <= cap && plen + TRAILER_LEN <= |frame| <= FdLen(plen + TRAILER_LEN)
            && pdu == frame[..plen]
            && Freshness(epoch, counter) == frame[plen..plen + 4]
            && WireTag(frame, plen) == mac(MacInput(id, Freshness(epoch, counter), pdu))[..8]
  {
    hide PutU16;
    if plen + TRAILER_LEN <= |frame| {
      var fv := frame[plen..plen + 4];
      FreshnessRoundTrip(epoch, counter);
      FreshnessRoundTrip(GetU16(fv), GetU16(fv[2..]));
      FreshnessOfBytes(fv);
    }
  }

  lemma FreshnessOfBytes(fv: seq<byte>)
    requires |fv| == 4
    ensures Freshness(GetU16(fv), GetU16(fv[2..])) == fv
  {
    U16RoundTrip(GetU16(fv));
    U16RoundTrip(GetU16(fv[2..]));
    U16Injective(PutU16(GetU16(fv)), fv[..2]);
    U16Injective(PutU16(GetU16(fv[2..])), fv[2..]);
  }

  predicate IsFdLen(n: nat) {
    n <= 8 || n in {12, 16, 20, 24, 32, 48, 64}
  }

  lemma FdLenLeast(n: nat, m: nat)
    requires IsFdLen(m) && n <= m
    ensures n <= FdLen(n) <= m && IsFdLen(FdLen(n))
  {
  }

  // ---------------------------------------------------------------- the byte loops

  /** Constant-time compare: accumulate the differences, decide once at the end. */
  method CtEqual(a: array<byte>, b: seq<byte>, n: nat) returns (same: bool)
    requires n <= a.Length && n <= |b|
    ensures same <==> a[..n] == b[..n]
  {
    assert Pow2(8) == 0x100;
    var diff: nat := 0;
    for i := 0 to n
      invariant diff < Pow2(8)
      invariant diff == 0 <==> a[..i] == b[..i]
    {
      var x := Xor(a[i], b[i], 8);
      XorZero(a[i], b[i], 8);
      OrZero(diff, x, 8);
      assert a[..i + 1] == a[..i] + [a[i]] && b[..i + 1] == b[..i] + [b[i]];
      diff := Or(diff, x, 8);
    }
    return diff == 0;
  }

  method BuildMacInput(id: u16, fv: seq<byte>, pdu: seq<byte>, buf: array<byte>) returns (len: nat)
    requires |fv| == 4 && buf.Length >= 6 + |pdu|
    modifies buf
    ensures len == 6 + |pdu| && buf[..len] == MacInput(id, fv, pdu)
  {
    hide PutU16;
    var head := PutU16(id);
    buf[0], buf[1] := head[0], head[1];
    buf[2], buf[3], buf[4], buf[5] := fv[0], fv[1], fv[2], fv[3];
    for i := 0 to |pdu|
      invariant buf[..6] == head + fv
      invariant buf[6..6 + i] == pdu[..i]
    {
      buf[6 + i] := pdu[i];
    }
    len := 6 + |pdu|;
    assert buf[..len] == buf[..6] + buf[6..len];
  }

  /** The byte loops that fill a frame. */
  method CopyInto(out: array<byte>, at: nat, src: seq<byte>)
    requires at + |src| <= out.Length
    modifies out
    ensures out[..at] == old(out[..at]) && out[at..at + |src|] == src && out[at + |src|..] == old(out[at + |src|..])
  {
    for i := 0 to |src|
      invariant out[..at] == old(out[..at]) && out[at..at + i] == src[..i] && out[at + i..] == old(out[at + i..])
    {
      out[at + i] := src[i];
    }
  }

  /** Fills `out` with the secured frame and returns its length, 0 when nothing is produced. */
  method SecureFrame(mac: Mac, up: bool, id: u16, epoch: u16, counter: u16, pdu: seq<byte>, out: array<byte>)
    returns (len: nat)
    modifies out
    ensures var f := Secure(mac, up, id, epoch, counter, pdu, out.Length);
            if f.Some? then len == |f.value| && out[..len] == f.value
            else len == 0 && out[..] == old(out[..])
  {
    hide Freshness, MacInput;
    if |pdu| > MAX_PDU || out.Length < |pdu| + TRAILER_LEN || !up {
      return 0;
    }
    var fv := Freshness(epoch, counter);
    var buf := new byte[6 + MAX_PDU];
    var n := BuildMacInput(id, fv, pdu, buf);
    var tag := mac(buf[..n]);
    var p := |pdu|;
    CopyInto(out, 0, pdu);
    CopyInto(out, p, fv);
    assert out[..p + 4] == out[..p] + out[p..p + 4];
    CopyInto(out, p + 4, tag[..8]);
    len := p + TRAILER_LEN;
    assert out[..len] == out[..p + 4] + out[p + 4..len];
  }

  /** What the caller's buffer holds after a verification: a verified PDU is copied to its front
      before the freshness is judged. */
  function Written(vr: VerifyResult, before: seq<byte>): seq<byte>
    requires vr.Verified? ==> |vr.pdu| <= |before|
  {
    if vr.Verified? then vr.pdu + before[|vr.pdu|..] else before
  }

  /** The verification proper: nothing is written unless the tag matches, and then the PDU
      goes to the front of `out`. */
  method VerifyFrame(mac: Mac, up: bool, id: u16, frame: seq<byte>, plen: nat, out: array<byte>)
    returns (r: VerifyResult)
    requires plen + TRAILER_LEN <= |frame| && plen <= MAX_PDU && plen <= out.Length
    modifies out
    ensures r == VerifyCore(mac, up, id, frame, plen)
    ensures (r.Verified? ==> |r.pdu| <= out.Length) && out[..] == Written(r, old(out[..]))
  {
    hide PutU16, GetU16;
    var pdu, fv := frame[..plen], frame[plen..plen + 4];
    var buf := new byte[6 + MAX_PDU];
    var n := BuildMacInput(id, fv, pdu, buf);
    if !up {
      return MacError;
    }
    var tag := mac(buf[..n]);
    var full := new byte[16](i requires 0 <= i < 16 => tag[i]);
    assert full[..8] == tag[..8];
    var same := CtEqual(full, frame[plen + 4..plen + 12], 8);
    assert frame[plen + 4..plen + 12][..8] == frame[plen + 4..plen + 12];
    if !same {
      return BadMac;
    }
    CopyInto(out, 0, pdu);
    assert out[..] == out[..plen] + out[plen..];
    return Verified(GetU16(fv), GetU16(fv[2..]), pdu);
  }

  /** The checked entry points: the length configured for the ID, or the inferred one. */
  method VerifyConfigured(mac: Mac, up: bool, id: u16, frame: seq<byte>, plen: nat, out: array<byte>)
    returns (r: VerifyResult)
    modifies out
    ensures r == VerifyLen(mac, up, id, frame, plen, out.Length)
    ensures (r.Verified? ==> |r.pdu| <= out.Length) && out[..] == Written(r, old(out[..]))
  {
    if plen > MAX_PDU || plen > out.Length {
      return BadLength;
    }
    var secured := plen + TRAILER_LEN;
    var padded := FdLen(secured);
    if |frame| < secured || |frame| > padded {
      return BadLength;
    }
    r := VerifyFrame(mac, up, id, frame, plen, out);
  }

  method VerifyUnconfigured(mac: Mac, up: bool, id: u16, frame: seq<byte>, out: array<byte>) returns (r: VerifyResult)
    modifies out
    ensures r == VerifyInferred(mac, up, id, frame, out.Length)
    ensures (r.Verified? ==> |r.pdu| <= out.Length) && out[..] == Written(r, old(out[..]))
  {
    if |frame| < TRAILER_LEN {
      return BadLength;
    }
    var plen := |frame| - TRAILER_LEN;
    if plen > MAX_PDU || plen > out.Length {
      return BadLength;
    }
    r := VerifyFrame(mac, up, id, frame, plen, out);
  }
}
