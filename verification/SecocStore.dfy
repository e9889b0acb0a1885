/** The two-slot freshness record in work flash: codec, slot read, mount, and the
    commit that erases the older slot, programs body then mark, and reads back. */
module SecocStore {
  import opened Words
  import opened WorkFlash

  const COMMIT_MARK: u32 := 0xA5C3_3C5A
  const NO_SLOT := 0xFF
  const CRC32_POLY: u32 := 0xEDB8_8320

  /** `no` is the save number; bit d of `written` says domain d was committed once. */
  datatype Rec = Rec(no: u32, e0: u16, e1: u16, written: u32)

  const ZERO_REC := Rec(0, 0, 0, 0)

  datatype SlotRead = Empty | TornSlot | Corrupt | Valid(rec: Rec)

  datatype Status = Ok | Factory | Broken

  /** The RAM half of the store: mount status, slot of the mirrored record, mirror. */
  datatype Ram = Ram(status: Status, newest: nat, mirror: Rec)

  const UNMOUNTED := Ram(Broken, NO_SLOT, ZERO_REC)

  /** One commit attempt: domain and value. */
  datatype Try = Try(d: nat, epoch: u16)

  /** Flash and RAM, with as history the attempts made since a record was last
      acknowledged or loaded. */
  datatype Store = Store(slots: Slots, ram: Ram, tries: set<Try>)

  // ---------------------------------------------------------------- codec

  /** The bitwise CRC register after `bits` more shifts of the current byte and then
      the bytes `p`. */
  function CrcRun(crc: u32, bits: nat, p: seq<byte>): u32
    decreases |p|, bits
  {
    if bits > 0 then CrcRun(if crc % 2 == 1 then Xor32(crc / 2, CRC32_POLY) else crc / 2, bits - 1, p)
    else if p == [] then crc
    else CrcRun(Xor32(crc, p[0]), 8, p[1..])
  }

  function Crc32(p: seq<byte>): u32 {
    0xFFFF_FFFF - CrcRun(0xFFFF_FFFF, 0, p)
  }

  function Epochs(r: Rec): u32 {
    r.e0 as int + U16_MOD * (r.e1 as int)
  }

  /** The bytes the CRC covers: words 0 to 2. */
  function Body(w0: u32, w1: u32, w2: u32): (b: seq<byte>)
    ensures |b| == 12
  {
    PutU32(w0) + PutU32(w1) + PutU32(w2)
  }

  /** The record as the five words the driver programs. */
  function RecordWords(r: Rec): (w: seq<u32>)
    ensures |w| == 5
  {
    [r.no, Epochs(r), r.written, Crc32(Body(r.no, Epochs(r), r.written)), COMMIT_MARK]
  }

  function Decode(w: seq<u32>): SlotRead
    requires |w| == 5
  {
    if w[4] != COMMIT_MARK then TornSlot
    else if w[3] != Crc32(Body(w[0], w[1], w[2])) then Corrupt
    else if w[2] >= 4 then Corrupt
    else Valid(Rec(w[0], w[1] % U16_MOD, w[1] / U16_MOD, w[2]))
  }

  function ReadSlot(s: Slot): SlotRead {
    var blank := BlankCheck(s[4]);
    if blank == 1 then Empty
    else if blank != 0 then TornSlot
    else match ReadChecked(s)
      case None => TornSlot
      case Some(w) => Decode(w)
  }

  function RecordCells(r: Rec): Slot {
    var w := RecordWords(r);
    [Data(w[0]), Data(w[1]), Data(w[2]), Data(w[3]), Data(w[4])]
  }

  lemma ReadRecord(r: Rec)
    requires r.written < 4
    ensures ReadSlot(RecordCells(r)) == Valid(r)
  {
  }

  // The 20-byte buffer of the C code, little-endian at explicit offsets.

  function Encode(r: Rec): (b: seq<byte>)
    ensures |b| == 20
  {
    var body := PutU32(r.no) + PutU32(Epochs(r)) + PutU32(r.written);
    body + PutU32(Crc32(body)) + PutU32(COMMIT_MARK)
  }

  function DecodeBytes(b: seq<byte>): SlotRead
    requires |b| == 20
  {
    if GetU32(b[16..]) != COMMIT_MARK then TornSlot
    else if GetU32(b[12..]) != Crc32(b[..12]) then Corrupt
    else
      var epochs := GetU32(b[4..]);
      if GetU32(b[8..]) >= 4 then Corrupt
      else Valid(Rec(GetU32(b[0..]), epochs % U16_MOD, epochs / U16_MOD, GetU32(b[8..])))
  }

  /** The driver's word assembly: word i is bytes 4i to 4i+3. */
  function DriverWords(b: seq<byte>): (w: seq<u32>)
    requires |b| == 20
    ensures |w| == 5
  {
    [GetU32(b[0..]), GetU32(b[4..]), GetU32(b[8..]), GetU32(b[12..]), GetU32(b[16..])]
  }

  /** What the driver programs for an encoded record is its word form. */
  lemma EncodedWords(r: Rec)
    ensures DriverWords(Encode(r)) == RecordWords(r)
  {
    hide PutU32, Crc32;
    var b, w := Encode(r), RecordWords(r);
    assert b[0..][..4] == PutU32(w[0]) && b[4..][..4] == PutU32(w[1]) && b[8..][..4] == PutU32(w[2]);
    assert b[12..][..4] == PutU32(w[3]) && b[16..][..4] == PutU32(w[4]);
    forall i | 0 <= i < 5
      ensures GetU32(PutU32(w[i])) == w[i]
    {
      U32RoundTrip(w[i]);
    }
  }

  /** Decoding a byte buffer is decoding its words. */
  lemma DecodedWords(b: seq<byte>)
    requires |b| == 20
    ensures DecodeBytes(b) == Decode(DriverWords(b))
  {
    hide PutU32, Crc32;
    var w := DriverWords(b);
    assert PutU32(w[0]) == b[0..4] by { PutGet32(b[0..4]); }
    assert PutU32(w[1]) == b[4..8] by { PutGet32(b[4..8]); }
    assert PutU32(w[2]) == b[8..12] by { PutGet32(b[8..12]); }
    assert b[..12] == Body(w[0], w[1], w[2]);
  }

  /** A slot's words are taken as a record exactly if they are the words of that record. */
  lemma DecodeExactly(w: seq<u32>, r: Rec)
    requires |w| == 5
    ensures Decode(w) == Valid(r) <==> r.written < 4 && w == RecordWords(r)
  {
    hide Crc32, Body;
    if Decode(w) == Valid(r) {
      assert w[1] == w[1] % U16_MOD + U16_MOD * (w[1] / U16_MOD);
    }
  }

  // ---------------------------------------------------------------- mount, load, commit

  function Mount(slots: Slots): Ram {
    MountReads(ReadSlot(slots[0]), ReadSlot(slots[1]))
  }

  /** A boot: the RAM half is what the mount makes of the flash. */
  function MountStore(slots: Slots): Store {
    Store(slots, Mount(slots), {})
  }

  function MountReads(r0: SlotRead, r1: SlotRead): Ram {
    if r0.Valid? && r1.Valid? then
      if r1.rec.no > r0.rec.no then Ram(Ok, 1, r1.rec) else Ram(Ok, 0, r0.rec)
    else if r0.Valid? then Ram(Ok, 0, r0.rec)
    else if r1.Valid? then Ram(Ok, 1, r1.rec)
    else if r0 == Empty && r1 == Empty then Ram(Factory, NO_SLOT, ZERO_REC)
    else Ram(Broken, NO_SLOT, ZERO_REC)
  }

  predicate Has(r: Rec, d: nat) {
    if d == 0 then r.written % 2 == 1 else r.written / 2 % 2 == 1
  }

  function Epoch(r: Rec, d: nat): u16 {
    if d == 0 then r.e0 else r.e1
  }

  function Load(ram: Ram, d: nat): Option<u16> {
    if ram.status == Broken || d >= 2 || !Has(ram.mirror, d) then None
    else Some(Epoch(ram.mirror, d))
  }

  /** The value a boot seeds a domain with: the loaded one, or 0 when cold. */
  function Val(r: Rec, d: nat): u16 {
    if Has(r, d) then Epoch(r, d) else 0
  }

  function SetBit(written: u32, d: nat): u32
    requires d < 2
  {
    if d == 0 then (if written % 2 == 1 then written else written + 1)
    else (if written / 2 % 2 == 1 then written else written + 2)
  }

  function NextRec(m: Rec, d: nat, epoch: u16): Rec
    requires d < 2
  {
    Rec((m.no + 1) % U32_MOD, if d == 0 then epoch else m.e0, if d == 0 then m.e1 else epoch, SetBit(m.written, d))
  }

  /** Erase, body, mark: the slot it leaves, and how far it got. */
  function SaveSpec(s: Slot, r: Rec, f: Fault): (Slot, FlashRc) {
    var (s1, rc1) := EraseSpec(s, f);
    if rc1 != Done then (s1, rc1)
    else
      var (s2, rc2) := WriteSpec(s1, 0, RecordWords(r)[..4], f);
      if rc2 != Done then (s2, rc2) else WriteSpec(s2, 4, RecordWords(r)[4..], f)
  }

  function Target(ram: Ram): nat {
    if ram.newest == 0 then 1 else 0
  }

  function CommitSpec(st: Store, d: nat, epoch: u16, f: Fault): (Store, FlashRc) {
    if st.ram.status == Broken || d >= 2 then (st, Failed)
    else
      var next := NextRec(st.ram.mirror, d, epoch);
      var target := Target(st.ram);
      var (s, rc) := SaveSpec(st.slots[target], next, f);
      var slots := st.slots[target := s];
      var missed := Store(slots, st.ram, st.tries + {Try(d, epoch)});
      if rc != Done then (missed, rc)
      else if f.ReadBackFault? then (missed, Ended(f.cut))
      else if ReadSlot(s) != Valid(next) then (missed, Failed)
      else (Store(slots, Ram(Ok, target, next), {}), Done)
  }

  // ---------------------------------------------------------------- what an interrupted save leaves

  lemma LeaveEraseReads(s: Slot, left: seq<Left>)
    ensures ReadSlot(LeaveErase(s, left)).Valid? ==> ReadSlot(LeaveErase(s, left)) == ReadSlot(s)
  {
    var t := LeaveErase(s, left);
    if ReadSlot(t).Valid? {
      assert forall i :: 0 <= i < 5 ==> t[i].Data?;
      assert t == s;
    }
  }

  /** Nothing readable ever appears in the target slot but the record being saved,
      or the one that was there before the erase bit. */
  lemma SaveReads(s: Slot, r: Rec, f: Fault)
    requires r.written < 4
    ensures var (t, rc) := SaveSpec(s, r, f);
            && (rc == Done ==> t == RecordCells(r) && ReadSlot(t) == Valid(r))
            && (ReadSlot(t).Valid? ==> ReadSlot(t) == Valid(r) || ReadSlot(t) == ReadSlot(s))
  {
    hide RecordWords, Decode, PutU32, WriteSpec;
    ReadRecord(r);
    if f.EraseFault? {
      LeaveEraseReads(s, f.left);
    } else {
      var w := RecordWords(r);
      var (t, rc) := SaveSpec(s, r, f);
      SaveCells(w, f);
      if ReadSlot(t).Valid? {
        assert forall i :: 0 <= i < 5 ==> t[i].Data?;
        assert t == RecordCells(r);
      }
    }
  }

  /** After a clean erase, every readable cell holds its own word of the record. */
  lemma SaveCells(w: seq<u32>, f: Fault)
    requires |w| == 5 && !f.EraseFault?
    ensures var (s2, rc2) := WriteSpec(EMPTY_SLOT, 0, w[..4], f);
            && (forall i :: 0 <= i < 5 && s2[i].Data? ==> i < 4 && s2[i].word == w[i])
            && (rc2 == Done ==> (forall i :: 0 <= i < 4 ==> s2[i].Data?) && s2[4] == Erased)
    ensures var (s2, rc2) := WriteSpec(EMPTY_SLOT, 0, w[..4], f);
            rc2 == Done ==>
              var (t, rc) := WriteSpec(s2, 4, w[4..], f);
              && (forall i :: 0 <= i < 5 && t[i].Data? ==> t[i].word == w[i])
              && (rc == Done ==> t == [Data(w[0]), Data(w[1]), Data(w[2]), Data(w[3]), Data(w[4])])
  {
    WritePrefix(EMPTY_SLOT, 0, w[..4], f);
    var (s2, rc2) := WriteSpec(EMPTY_SLOT, 0, w[..4], f);
    if rc2 == Done {
      WritePrefix(s2, 4, w[4..], f);
    }
  }

  lemma {:induction false} WritePrefix(s: Slot, at: nat, ws: seq<u32>, f: Fault)
    requires at + |ws| <= 5
    requires forall i :: at <= i < at + |ws| ==> s[i] == Erased
    ensures var (t, rc) := WriteSpec(s, at, ws, f);
            && (forall i :: 0 <= i < 5 && !(at <= i < at + |ws|) ==> t[i] == s[i])
            && (forall i :: at <= i < at + |ws| && t[i].Data? ==> t[i].word == ws[i - at])
            && (rc == Done ==> forall i :: at <= i < at + |ws| ==> t[i].Data?)
    decreases |ws|
  {
    if ws != [] {
      var (c, rc) := ProgramSpec(s[at], ws[0], at, f);
      if rc == Done {
        var s' := s[at := c];
        WritePrefix(s', at + 1, ws[1..], f);
        var (t, rc') := WriteSpec(s', at + 1, ws[1..], f);
        assert t[at] == c;
        forall i | at < i < at + |ws| && t[i].Data?
          ensures t[i].word == ws[i - at]
        {
          assert ws[1..][i - (at + 1)] == ws[i - at];
        }
      }
    }
  }

  // ---------------------------------------------------------------- the store invariant

  /** The slot the next save will overwrite reads as at most an older record, or one of
      the records attempted since the mirror became current. */
  ghost predicate Spare(read: SlotRead, m: Rec, tries: set<Try>) {
    read.Valid? ==>
      || read.rec.no < m.no
      || exists t :: t in tries && Attempt(m, t, read.rec)
  }

  /** `r` is the record that attempt `t` on mirror `m` tried to save. */
  ghost predicate Attempt(m: Rec, t: Try, r: Rec) {
    t.d < 2 && m.no + 1 < U32_MOD && r == NextRec(m, t.d, t.epoch)
  }

  /** Flash and RAM agree, given the attempts that failed since the last success. */
  ghost predicate Sound(st: Store) {
    SoundReads(ReadSlot(st.slots[0]), ReadSlot(st.slots[1]), st.ram, st.tries)
  }

  ghost predicate SoundReads(r0: SlotRead, r1: SlotRead, ram: Ram, tries: set<Try>) {
    && ram.mirror.written < 4
    && match ram.status
       case Ok =>
         || (ram.newest == 0 && r0 == Valid(ram.mirror) && Spare(r1, ram.mirror, tries))
         || (ram.newest == 1 && r1 == Valid(ram.mirror) && Spare(r0, ram.mirror, tries))
       case Factory =>
         ram.newest == NO_SLOT && ram.mirror == ZERO_REC && r1 == Empty && Spare(r0, ZERO_REC, tries)
       case Broken =>
         ram.newest == NO_SLOT && ram.mirror == ZERO_REC && MountReads(r0, r1).status == Broken
  }

  /** The record a mount finds: the mirror, or an attempt made since. */
  ghost predicate Successor(m: Rec, tries: set<Try>, r: Rec) {
    r == m || exists t :: t in tries && Attempt(m, t, r)
  }

  lemma ReadWritten(s: Slot)
    ensures ReadSlot(s).Valid? ==> ReadSlot(s).rec.written < 4
  {
  }

  lemma MountSound(st: Store)
    requires Sound(st)
    ensures Sound(MountStore(st.slots))
    ensures st.ram.status == Ok ==> Mount(st.slots).status == Ok
    ensures st.ram.status == Broken ==> Mount(st.slots).status == Broken
    ensures Mount(st.slots).status != Broken ==> Successor(st.ram.mirror, st.tries, Mount(st.slots).mirror)
  {
    ReadWritten(st.slots[0]);
    ReadWritten(st.slots[1]);
    MountSoundReads(ReadSlot(st.slots[0]), ReadSlot(st.slots[1]), st.ram, st.tries);
  }

  lemma MountSoundReads(r0: SlotRead, r1: SlotRead, ram: Ram, tries: set<Try>)
    requires SoundReads(r0, r1, ram, tries)
    requires (r0.Valid? ==> r0.rec.written < 4) && (r1.Valid? ==> r1.rec.written < 4)
    ensures SoundReads(r0, r1, MountReads(r0, r1), {})
    ensures ram.status == Ok ==> MountReads(r0, r1).status == Ok
    ensures ram.status == Broken ==> MountReads(r0, r1).status == Broken
    ensures MountReads(r0, r1).status != Broken ==> Successor(ram.mirror, tries, MountReads(r0, r1).mirror)
  {
  }

  lemma CommitSound(st: Store, d: nat, epoch: u16, f: Fault)
    requires Sound(st) && d < 2 && st.ram.mirror.no + 1 < U32_MOD
    ensures var (st', rc) := CommitSpec(st, d, epoch, f);
            && Sound(st')
            && (if rc == Done then
                  && st.ram.status != Broken && st'.ram.status == Ok
                  && st'.ram.mirror == NextRec(st.ram.mirror, d, epoch) && st'.tries == {}
                else
                  && st'.ram == st.ram
                  && st'.tries == if st.ram.status == Broken then st.tries else st.tries + {Try(d, epoch)})
    ensures f == NoFault && st.ram.status != Broken ==> CommitSpec(st, d, epoch, f).1 == Done
  {
    hide ReadSlot, SaveSpec, NextRec, Spare, Attempt;
    if st.ram.status != Broken {
      var m, target := st.ram.mirror, Target(st.ram);
      var next := NextRec(m, d, epoch);
      NextIsAttempt(m, d, epoch);
      SaveReads(st.slots[target], next, f);
      var (s, rc) := SaveSpec(st.slots[target], next, f);
      var tries' := st.tries + {Try(d, epoch)};
      SpareAfter(ReadSlot(st.slots[target]), ReadSlot(s), m, st.tries, tries', next);
      OlderIsSpare(m, next);
      if f == NoFault {
        CleanSave(st.slots[target], next);
      }
    }
  }

  lemma NextNumber(m: Rec, d: nat, epoch: u16)
    requires d < 2 && m.no + 1 < U32_MOD
    ensures NextRec(m, d, epoch).no == m.no + 1
  {
  }

  lemma NextIsAttempt(m: Rec, d: nat, epoch: u16)
    requires m.written < 4 && d < 2 && m.no + 1 < U32_MOD
    ensures NextRec(m, d, epoch).written < 4
    ensures Attempt(m, Try(d, epoch), NextRec(m, d, epoch))
  {
  }

  lemma OlderIsSpare(m: Rec, next: Rec)
    requires m.no + 1 < U32_MOD && exists d: nat, e :: d < 2 && next == NextRec(m, d, e)
    ensures Spare(Valid(m), next, {}) && Spare(Empty, next, {})
  {
  }

  lemma SpareAfter(before: SlotRead, now: SlotRead, m: Rec, tries: set<Try>, tries': set<Try>, next: Rec)
    requires tries <= tries' && Spare(before, m, tries)
    requires now.Valid? ==> now == Valid(next) || now == before
    requires exists t :: t in tries' && Attempt(m, t, next)
    ensures Spare(now, m, tries')
  {
  }

  /** With no fault the whole save goes through. */
  lemma CleanSave(s: Slot, r: Rec)
    ensures SaveSpec(s, r, NoFault).1 == Done
  {
    var w := RecordWords(r);
    CleanWrite(EMPTY_SLOT, 0, w[..4]);
    WritePrefix(EMPTY_SLOT, 0, w[..4], NoFault);
    CleanWrite(WriteSpec(EMPTY_SLOT, 0, w[..4], NoFault).0, 4, w[4..]);
  }

  lemma {:induction false} CleanWrite(s: Slot, at: nat, ws: seq<u32>)
    requires at + |ws| <= 5
    requires forall i :: at <= i < at + |ws| ==> s[i] == Erased
    ensures WriteSpec(s, at, ws, NoFault).1 == Done
    decreases |ws|
  {
    if ws != [] {
      CleanWrite(s[at := Data(ws[0])], at + 1, ws[1..]);
    }
  }

  /** What a commit does to the two domains: it sets its own and leaves the other. */
  lemma NextValues(m: Rec, d: nat, epoch: u16)
    requires m.written < 4 && d < 2
    ensures var n := NextRec(m, d, epoch);
            && n.written < 4
            && Has(n, d) && Val(n, d) == epoch
            && (Has(n, 1 - d) <==> Has(m, 1 - d)) && Val(n, 1 - d) == Val(m, 1 - d)
  {
  }

  // ---------------------------------------------------------------- the module

  class FreshnessStore {
    const flash: Flash
    var status: Status
    var newest: nat
    var mirror: Rec
    ghost var tries: set<Try>

    constructor (flash: Flash)
      ensures this.flash == flash && RamImage() == UNMOUNTED
    {
      this.flash := flash;
      status, newest, mirror, tries := Broken, NO_SLOT, ZERO_REC, {};
    }

    function RamImage(): Ram
      reads this
    {
      Ram(status, newest, mirror)
    }

    ghost function State(): Store
      reads this, flash
    {
      Store(flash.slots, RamImage(), tries)
    }

    /** Scan both slots, higher save number wins; no valid record and not blank is BROKEN. */
    method MountSlots() returns (result: Status)
      modifies this
      ensures State() == MountStore(old(flash.slots))
      ensures result == status
    {
      status, newest, mirror, tries := Broken, NO_SLOT, ZERO_REC, {};
      var found: seq<SlotRead> := [];
      for i := 0 to 2
        invariant |found| == i
        invariant forall k :: 0 <= k < i ==> found[k] == ReadSlot(flash.slots[k])
      {
        found := found + [ReadSlot(flash.slots[i])];
      }
      hide ReadSlot;
      if found[0].Valid? && found[1].Valid? {
        newest := if found[1].rec.no > found[0].rec.no then 1 else 0;
      } else if found[0].Valid? {
        newest := 0;
      } else if found[1].Valid? {
        newest := 1;
      }
      if newest != NO_SLOT {
        mirror := found[newest].rec;
        status := Ok;
      } else if found[0] == Empty && found[1] == Empty {
        status := Factory;
      } else {
        status := Broken;
      }
      return status;
    }

    method LoadEpoch(d: nat) returns (epoch: Option<u16>)
      ensures epoch == Load(RamImage(), d)
    {
      if status == Broken || d >= 2 || !Has(mirror, d) {
        return None;
      }
      return Some(Epoch(mirror, d));
    }

    /** Erase the other slot, body, mark, read back; RAM follows only then. */
    method CommitEpoch(d: nat, epoch: u16, f: Fault) returns (rc: FlashRc)
      modifies this, flash
      ensures (State(), rc) == CommitSpec(old(State()), d, epoch, f)
    {
      hide ReadSlot, RecordWords, WriteSpec, EraseSpec;
      if status == Broken || d >= 2 {
        return Failed;
      }
      tries := tries + {Try(d, epoch)};
      var next := NextRec(mirror, d, epoch);
      var target := if newest == 0 then 1 else 0;
      var words := RecordWords(next);
      ghost var s0 := flash.slots;
      rc := flash.EraseSector(target, f);
      if rc != Done {
        return;
      }
      ghost var s1 := flash.slots;
      assert s1[target] == EraseSpec(s0[target], f).0;
      rc := flash.Write(target, 0, words[..4], f);
      ghost var s2 := flash.slots;
      assert s2 == s0[target := s2[target]];
      if rc != Done {
        return;
      }
      rc := flash.Write(target, 4, words[4..], f);
      assert flash.slots == s0[target := flash.slots[target]];
      if rc != Done {
        return;
      }
      if f.ReadBackFault? {
        return Ended(f.cut);
      }
      var back := ReadSlot(flash.slots[target]);
      if back != Valid(next) {
        return Failed;
      }
      mirror, newest, status, tries := next, target, Ok, {};
      return Done;
    }
  }

  /** The bitwise CRC-32 loops compute the recursive definition used by the codec;
      the final exclusive or with all ones is the complement. */
  method ComputeCrc32(p: seq<byte>) returns (crc: u32)
    ensures crc == Crc32(p)
  {
    crc := 0xFFFF_FFFF;
    for i := 0 to |p|
      invariant CrcRun(crc, 0, p[i..]) == CrcRun(0xFFFF_FFFF, 0, p)
    {
      crc := Xor32(crc, p[i]);
      assert p[i..][1..] == p[i + 1..];
      for bit := 0 to 8
        invariant CrcRun(crc, 8 - bit, p[i + 1..]) == CrcRun(0xFFFF_FFFF, 0, p)
      {
        crc := if crc % 2 == 1 then Xor32(crc / 2, CRC32_POLY) else crc / 2;
      }
    }
    crc := 0xFFFF_FFFF - crc;
  }
}
