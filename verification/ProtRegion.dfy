/** Geometry of the protection-unit regions: the smallest aligned power-of-two region
    around a range, its size code and its disabled eighths. */
module ProtRegion {
  import opened Words
  import opened Bits

  const MIN_SIZE := 256
  const SIZE_INVALID: byte := 0xFF

  datatype Region = Region(base: u32, sizeCode: byte, disable: u32, exact: bool)

  /** `v` rounded down to a multiple of 2^n. */
  function Floor(v: nat, n: nat): (f: nat)
    ensures f <= v
  {
    LowBound(v, n);
    v - Low(v, n)
  }

  lemma LowBound(v: nat, n: nat)
    ensures Low(v, n) <= v && Low(v, n) < Pow2(n)
  {
    hide Pow2;
    NatQuotient(v, Pow2(n));
  }

  lemma NatQuotient(v: nat, p: nat)
    requires p > 0
    ensures v / p >= 0 && v % p <= v && v == p * (v / p) + v % p
  {
    var q := v / p;
    if q < 0 {
      MulGrows(p, q);
    } else if q > 0 {
      MulGrows(p, q);
    }
  }

  /** `v & ~(2^n - 1)` on words of `width` bits. */
  function MaskOff(v: nat, n: nat, width: nat): nat {
    And(v, HighMask(n, width), width)
  }

  function HighMask(n: nat, width: nat): nat {
    Xor(Pow2(n) - 1, Pow2(width) - 1, width)
  }

  lemma {:induction false} MaskIsFloor(v: nat, n: nat, width: nat)
    requires n <= width && v < Pow2(width)
    ensures MaskOff(v, n, width) == Floor(v, n)
    decreases width
  {
    if n == 0 {
      MaskNothing(v, width);
    } else {
      MaskStep(n, width);
      AndEven(v, HighMask(n - 1, width - 1), width);
      FloorStep(v, n);
      HalfBound(v, width);
      hide HighMask, Floor, And, Pow2;
      MaskIsFloor(v / 2, n - 1, width - 1);
    }
  }

  lemma HalfBound(v: nat, n: nat)
    requires n > 0 && v < Pow2(n)
    ensures v / 2 < Pow2(n - 1)
  {
  }

  lemma MaskStep(n: nat, width: nat)
    requires n > 0 && width > 0
    ensures HighMask(n, width) == 2 * HighMask(n - 1, width - 1)
  {
    HalfOnes(Pow2(n - 1));
    HalfOnes(Pow2(width - 1));
  }

  lemma AndEven(v: nat, m: nat, n: nat)
    requires n > 0
    ensures And(v, 2 * m, n) == 2 * And(v / 2, m, n - 1)
  {
    SplitBit(0, m);
  }

  lemma FloorStep(v: nat, n: nat)
    requires n > 0
    ensures Floor(v, n) == 2 * Floor(v / 2, n - 1)
  {
    LowBitOf(v, n);
    hide Low;
    assert v == v % 2 + 2 * (v / 2);
  }

  lemma MaskNothing(v: nat, width: nat)
    requires v < Pow2(width)
    ensures MaskOff(v, 0, width) == v
  {
    hide And, Xor;
    XorOnes(0, width);
    AndMask(v, width, width);
    QuotientUnique(v, Pow2(width), 0, v);
  }

  // ---------------------------------------------------------------- the size code

  function Log2(size: nat): nat
    requires size > 0
  {
    if size == 1 then 0 else Log2(size / 2) + 1
  }

  function EncodeSize(size: u32): byte {
    if size < MIN_SIZE || And(size, size - 1, 32) != 0 then SIZE_INVALID
    else
      LogSmall(size, 32);
      Log2(size) - 1
  }

  lemma {:induction false} LogSmall(size: nat, n: nat)
    requires size > 1 && (size < Pow2(n) || (size < U32_MOD && n == 32))
    ensures 0 < Log2(size) < n
    decreases n
  {
    Pow2Of32();
    if size > 3 {
      LogSmall(size / 2, n - 1);
    }
  }

  /** `v & (v - 1)` is zero exactly for powers of two. */
  lemma {:induction false} PowerTest(v: nat, n: nat)
    requires 0 < v < Pow2(n)
    ensures And(v, v - 1, n) == 0 <==> v == Pow2(Log2(v))
    decreases n
  {
    if v == 1 {
      AndNothing(1, n);
    } else if v % 2 == 0 {
      assert (v - 1) / 2 == v / 2 - 1;
      PowerTest(v / 2, n - 1);
    } else {
      assert (v - 1) / 2 == v / 2 && (v - 1) % 2 == 0;
      AndSelf(v / 2, n - 1);
    }
  }

  lemma {:induction false} AndSelf(v: nat, n: nat)
    requires v < Pow2(n)
    ensures And(v, v, n) == v
  {
    if n > 0 {
      AndSelf(v / 2, n - 1);
      assert v == v % 2 + 2 * (v / 2);
    }
  }

  lemma {:induction false} LogOfPower(n: nat)
    ensures Log2(Pow2(n)) == n
  {
    if n > 0 {
      LogOfPower(n - 1);
      SplitBit(0, Pow2(n - 1));
    }
  }

  lemma {:induction false} PowersGrow(m: nat, n: nat)
    requires m <= n
    ensures Pow2(m) <= Pow2(n) && (m < n ==> Pow2(m) < Pow2(n))
    decreases n
  {
    if m < n {
      PowersGrow(m, n - 1);
    }
  }

  /** The code of a size says exactly which power of two it is; nothing else has a code. */
  lemma EncodeSizeExact(size: u32, code: byte)
    requires code != SIZE_INVALID
    ensures EncodeSize(size) == code <==> size >= MIN_SIZE && size == Pow2(code as int + 1)
  {
    hide And;
    Pow2Of32();
    if size >= MIN_SIZE {
      PowerTest(size, 32);
      LogSmall(size, 32);
      if size == Pow2(code as int + 1) {
        LogOfPower(code as int + 1);
      }
    }
  }

  // ---------------------------------------------------------------- the cover

  /** Exponent of the first region, from 2^n on, that reaches the end of the range. */
  function Grow(base: u32, end: nat, n: nat): (k: nat)
    requires 8 <= n <= 33 && end <= U32_MOD
    ensures n <= k <= 33
    decreases 33 - n
  {
    if n > 32 || Floor(base, n) + Pow2(n) >= end then n else Grow(base, end, n + 1)
  }

  predicate Intersects(start: nat, size: nat, base: nat, end: nat) {
    start < end && start + size > base
  }

  /** Start of subregion `i`. */
  function SubStart(start: nat, sub: nat, i: nat): nat {
    start + i * sub
  }

  function Disabled(start: nat, sub: nat, base: nat, end: nat, n: nat): u32
    requires n <= 8
  {
    if n == 0 then 0
    else DisableIf(!Intersects(SubStart(start, sub, n - 1), sub, base, end), Disabled(start, sub, base, end, n - 1),
      n - 1)
  }

  function DisableIf(outside: bool, d: u32, i: nat): u32 {
    if outside then SetBit(d, i) else d
  }

  function CoverSpec(base: u32, len: u32): Option<Region> {
    var end := base as int + len as int;
    if len == 0 || end > U32_MOD then None
    else
      var n := Grow(base, end, 8);
      if n > 32 then None
      else
        var sub := Pow2(n - 3);
        var start := Floor(base, n);
        Some(Region(start, EncodeSize(Pow2(n) % U32_MOD), Disabled(start, sub, base, end, 8),
                    base % sub == 0 && end % sub == 0))
  }

  method EncodeRegionSize(size: u32) returns (code: byte)
    ensures code == EncodeSize(size)
  {
    hide And;
    if size < MIN_SIZE || And(size, size - 1, 32) != 0 {
      return SIZE_INVALID;
    }
    LogSmall(size, 32);
    var c, s: nat := 0, size;
    while s > 1
      invariant s > 0 && c + Log2(s) == Log2(size)
    {
      s := s / 2;
      c := c + 1;
    }
    code := c - 1;
  }

  method RegionCover(base: u32, len: u32) returns (out: Option<Region>)
    ensures out == CoverSpec(base, len)
  {
    hide Floor, Pow2, EncodeSize, Disabled, Grow;
    if len == 0 {
      return None;
    }
    var end := base as int + len as int;
    if end > U32_MOD {
      return None;
    }
    ghost var n;
    var r;
    r, n := FindRegion(base, end);
    if r > U32_MOD {
      return None;
    }
    var start := RegionBase(base, r, n);
    Eighth(n);
    var sub := r / 8;
    var disable := SubregionMask(start, sub, base, end);
    var exact := base as int % sub == 0 && end % sub == 0;
    var code := EncodeRegionSize(r % U32_MOD);
    return Some(Region(start, code, disable, exact));
  }

  method FindRegion(base: u32, end: nat) returns (r: nat, ghost n: nat)
    requires end <= U32_MOD
    ensures n == Grow(base, end, 8) && r == Pow2(n) && (r <= U32_MOD <==> n <= 32)
  {
    hide Floor, Pow2;
    Pow2Of32();
    Pow2Of8();
    r, n := MIN_SIZE, 8;
    while r <= U32_MOD
      invariant 8 <= n <= 33 && r == Pow2(n) && (r <= U32_MOD <==> n <= 32)
      invariant Grow(base, end, n) == Grow(base, end, 8)
      decreases 33 - n
    {
      var start := RegionBase(base, r, n);
      if start + r >= end {
        break;
      }
      Widths(n + 1);
      r := r * 2;
      n := n + 1;
    }
  }

  method SubregionMask(start: nat, sub: nat, base: nat, end: nat) returns (disable: u32)
    ensures disable == Disabled(start, sub, base, end, 8)
  {
    hide DisableIf, SubStart;
    disable := 0;
    for i := 0 to 8
      invariant disable == Disabled(start, sub, base, end, i)
    {
      var subStart := SubStart(start, sub, i);
      var subEnd := subStart + sub;
      var intersects := subStart < end && subEnd > base;
      disable := DisableIf(!intersects, disable, i);
    }
  }

  /** `base & ~(r - 1)` on 64-bit words. */
  method RegionBase(base: u32, r: nat, ghost n: nat) returns (start: nat)
    requires n <= 33 && r == Pow2(n)
    ensures start == Floor(base, n)
  {
    hide And, Xor, Pow2;
    MaskAt(base, r, n);
    start := And(base, Xor(r - 1, Pow2(64) - 1, 64), 64);
  }

  lemma Widths(n: nat)
    requires n <= 33
    ensures Pow2(n) <= U32_MOD <==> n <= 32
    ensures n > 0 ==> Pow2(n) == 2 * Pow2(n - 1)
  {
    Pow2Of32();
    PowersGrow(if n <= 32 then n else 32, if n <= 32 then 32 else n);
  }

  lemma Pow2Of8()
    ensures Pow2(8) == 256
  {
    assert Pow2(4) == 16;
  }

  lemma Eighth(n: nat)
    requires n >= 3
    ensures Pow2(n) == 8 * Pow2(n - 3)
  {
    Pow2Step(n);
    Pow2Step(n - 1);
    Pow2Step(n - 2);
  }

  lemma MaskAt(base: u32, r: nat, n: nat)
    requires n <= 33 && r == Pow2(n)
    ensures And(base, Xor(r - 1, Pow2(64) - 1, 64), 64) == Floor(base, n)
  {
    Pow2Of32();
    PowersGrow(32, 64);
    MaskIsFloor(base, n, 64);
  }

  // ---------------------------------------------------------------- what the cover is

  ghost predicate Aligned(start: nat, n: nat) {
    exists m: nat :: start == Pow2(n) * m
  }

  /** An aligned region of 2^n bytes from `start` holds the whole range. */
  ghost predicate Contains(start: nat, n: nat, base: nat, end: nat) {
    Aligned(start, n) && start <= base && end <= start + Pow2(n)
  }

  /** The only aligned start that can reach the base is the base rounded down. */
  lemma AlignedIsFloor(start: nat, n: nat, v: nat)
    requires start <= v < start + Pow2(n) && Aligned(start, n)
    ensures start == Floor(v, n)
  {
    hide Pow2;
    var p := Pow2(n);
    var m: nat :| start == p * m;
    QuotientUnique(v, p, m, v - start);
  }

  lemma FloorIsAligned(v: nat, n: nat)
    ensures Aligned(Floor(v, n), n) && v < Floor(v, n) + Pow2(n)
  {
    hide Pow2, Low;
    LowBound(v, n);
    FloorProduct(v, n);
    NatQuotient(v, Pow2(n));
    var m: nat := v / Pow2(n);
    assert Floor(v, n) == Pow2(n) * m;
  }

  lemma {:induction false} GrowIsLeast(base: u32, end: nat, n: nat, m: nat)
    requires 8 <= n <= 33 && base < end <= U32_MOD
    ensures n <= m < Grow(base, end, n) ==> Floor(base, m) + Pow2(m) < end
    ensures Grow(base, end, n) <= 32 ==> Floor(base, Grow(base, end, n)) + Pow2(Grow(base, end, n)) >= end
    decreases 33 - n
  {
    hide Floor, Pow2;
    if n <= 32 && Floor(base, n) + Pow2(n) < end {
      GrowIsLeast(base, end, n + 1, m);
    }
  }

  /** The whole 32-bit space always suffices, so a cover exists for every range in it. */
  lemma {:induction false} GrowEnds(base: u32, end: nat, n: nat)
    requires 8 <= n <= 32 && base < end <= U32_MOD
    ensures Grow(base, end, n) <= 32
    decreases 33 - n
  {
    hide Floor, Pow2;
    if n == 32 {
      Pow2Of32();
    } else if Floor(base, n) + Pow2(n) < end {
      GrowEnds(base, end, n + 1);
    }
  }

  /** The region found holds the range, and no aligned power-of-two region of at least
      256 bytes that does is smaller. */
  lemma SmallestRegion(base: u32, end: nat, start: nat, m: nat)
    requires base < end <= U32_MOD && m >= 8 && Contains(start, m, base, end)
    ensures var n := Grow(base, end, 8);
      n <= 32 && Contains(Floor(base, n), n, base, end) && Pow2(n) <= Pow2(m)
  {
    hide Floor, Pow2, Aligned;
    var n := Grow(base, end, 8);
    GrowEnds(base, end, 8);
    GrowIsLeast(base, end, 8, m);
    FloorIsAligned(base, n);
    AlignedIsFloor(start, m, base);
    if m < n {
      assert false;
    }
    PowersGrow(n, m);
  }

  /** The whole space is needed exactly for ranges that straddle its middle. */
  lemma WholeSpaceIff(base: u32, end: nat)
    requires base < end <= U32_MOD
    ensures Grow(base, end, 8) == 32 <==> base < 0x8000_0000 < end
  {
    hide Floor, Pow2;
    var n := Grow(base, end, 8);
    GrowEnds(base, end, 8);
    GrowIsLeast(base, end, 8, 31);
    HalfSpace(base);
    if n < 32 && base < 0x8000_0000 {
      GrowIsLeast(base, end, 8, n);
      InOneHalf(base, n);
    }
  }

  lemma HalfSpace(base: u32)
    ensures Pow2(31) == 0x8000_0000 && Floor(base, 31) == if base < 0x8000_0000 then 0 else 0x8000_0000
  {
    Pow2Of32();
    Pow2Step(32);
    if base < 0x8000_0000 {
      QuotientUnique(base, Pow2(31), 0, base);
    } else {
      QuotientUnique(base, Pow2(31), 1, base as int - 0x8000_0000);
    }
  }

  /** A smaller aligned region does not cross the middle. */
  lemma InOneHalf(base: u32, n: nat)
    requires n < 32 && base < 0x8000_0000
    ensures Floor(base, n) + Pow2(n) <= 0x8000_0000
  {
    hide Pow2;
    HalfSpace(base);
    Pow2Adds(n, 31 - n);
    FloorProduct(base, n);
    NextMultiple(Pow2(n), Pow2(31 - n), base as int / Pow2(n));
  }

  lemma FloorProduct(v: nat, n: nat)
    ensures Floor(v, n) == Pow2(n) * (v / Pow2(n))
  {
    hide Pow2;
    NatQuotient(v, Pow2(n));
  }

  lemma NextMultiple(p: nat, q: nat, a: nat)
    requires p > 0 && p * a < p * q
    ensures p * a + p <= p * q
  {
    assert p * (a - q) == p * a - p * q;
    MulGrows(p, a - q);
  }

  lemma {:induction false} DisabledBits(start: nat, sub: nat, base: nat, end: nat, n: nat, i: nat)
    requires n <= 8 && i < 8
    ensures Bit(Disabled(start, sub, base, end, n), i)
      <==> i < n && !Intersects(SubStart(start, sub, i), sub, base, end)
  {
    hide Bit, SetBit, SubStart, Intersects;
    if n == 0 {
      assert Disabled(start, sub, base, end, 0) == 0;
      NoBits(i);
    } else {
      DisabledBits(start, sub, base, end, n - 1, i);
      BitOfSet(Disabled(start, sub, base, end, n - 1), n - 1, i);
    }
  }

  /** Position `v` of the region lies in subregion `k` and so at or after the start of
      subregion `i` exactly when i <= k. */
  lemma BeforeIff(start: nat, sub: nat, v: nat, k: nat, i: nat)
    requires sub > 0 && SubStart(start, sub, k) <= v < SubStart(start, sub, k) + sub
    ensures SubStart(start, sub, i) <= v <==> i <= k
    ensures v < SubStart(start, sub, i) + sub <==> k <= i
  {
    assert sub * (i - k) == i * sub - k * sub;
    MulGrows(sub, i - k);
  }

  lemma SubregionOf(start: nat, sub: nat, v: nat) returns (k: nat)
    requires sub > 0 && start <= v < start + 8 * sub
    ensures k < 8 && SubStart(start, sub, k) <= v < SubStart(start, sub, k) + sub
    ensures v % sub == (start % sub + (v - SubStart(start, sub, k))) % sub
  {
    k := (v - start) / sub;
    var rem := (v - start) % sub;
    assert v - start == sub * k + rem;
    assert sub * (k - 8) == sub * k - 8 * sub;
    MulGrows(sub, k - 8);
    assert k * sub == sub * k;
    ModAdd(start, rem, sub);
    var q := (start + rem) / sub;
    QuotientUnique(v, sub, q + k, (start + rem) % sub);
  }

  /** The eight subregions of a region that starts on a multiple of the subregion size and
      holds the range: the enabled ones are one run, covering the range with less than one
      subregion of spill at each end, and without any exactly when both ends are multiples. */
  lemma EnabledRun(start: nat, sub: nat, base: nat, end: nat) returns (lo: nat, hi: nat)
    requires sub > 0 && start % sub == 0 && start <= base < end <= start + 8 * sub
    ensures lo <= hi < 8
    ensures forall i :: 0 <= i < 8 ==> (Bit(Disabled(start, sub, base, end, 8), i) <==> !(lo <= i <= hi))
    ensures var from, to := SubStart(start, sub, lo), SubStart(start, sub, hi) + sub;
      && from <= base < end <= to && base - from < sub && to - end < sub
      && (base % sub == 0 && end % sub == 0 <==> from == base && to == end)
  {
    hide Disabled, Bit;
    lo := SubregionOf(start, sub, base);
    hi := SubregionOf(start, sub, end - 1);
    BeforeIff(start, sub, end - 1, hi, lo);
    forall i | 0 <= i < 8
      ensures Bit(Disabled(start, sub, base, end, 8), i) <==> !(lo <= i <= hi)
    {
      DisabledBits(start, sub, base, end, 8, i);
      BeforeIff(start, sub, base, lo, i);
      BeforeIff(start, sub, end - 1, hi, i);
    }
    Remainders(sub, base - SubStart(start, sub, lo), base);
    LastByte(sub, end - 1 - SubStart(start, sub, hi), end);
  }

  lemma Remainders(sub: nat, rem: nat, v: nat)
    requires rem < sub && v % sub == (0 + rem) % sub
    ensures v % sub == 0 <==> rem == 0
  {
    QuotientUnique(rem, sub, 0, rem);
  }

  lemma LastByte(sub: nat, rem: nat, end: nat)
    requires rem < sub && end > 0 && (end - 1) % sub == (0 + rem) % sub
    ensures end % sub == 0 <==> rem == sub - 1
  {
    QuotientUnique(rem, sub, 0, rem);
    ModAdd(end - 1, 1, sub);
    if rem == sub - 1 {
      QuotientUnique(sub, sub, 1, 0);
    } else {
      QuotientUnique(rem + 1, sub, 0, rem + 1);
    }
  }

  lemma FloorOfEighth(v: nat, n: nat)
    requires n >= 3
    ensures Floor(v, n) % Pow2(n - 3) == 0
  {
    hide Pow2;
    Eighth(n);
    FloorProduct(v, n);
    var sub, k := Pow2(n - 3), v / Pow2(n);
    assert 8 * sub * k == sub * (8 * k);
    QuotientUnique(Floor(v, n), sub, 8 * k, 0);
  }

  /** No aligned power-of-two region of at least 256 bytes that holds the range is smaller. */
  ghost predicate Smallest(start: nat, n: nat, base: nat, end: nat) {
    && 8 <= n <= 32 && Contains(start, n, base, end)
    && forall m, other {:trigger Contains(other, m, base, end)} :: m >= 8 && Contains(other, m, base, end) ==>
      Pow2(n) <= Pow2(m)
  }

  /** The code means the size, unless the range straddles 2^31 and needs all 2^32 bytes. */
  predicate SizeOk(code: byte, n: nat, base: nat, end: nat) {
    if base < 0x8000_0000 < end then n == 32 && code == SIZE_INVALID
    else code != SIZE_INVALID && Pow2(code as int + 1) == Pow2(n)
  }

  /** Subregions `lo` to `hi` are the enabled ones; they cover the range, with less than one
      subregion of spill at each end and with none exactly when `exact` says so. */
  predicate RunOk(g: Region, sub: nat, lo: nat, hi: nat, base: nat, end: nat) {
    var from, to := SubStart(g.base, sub, lo), SubStart(g.base, sub, hi) + sub;
    && lo <= hi < 8 && (forall i :: 0 <= i < 8 ==> (Bit(g.disable, i) <==> !(lo <= i <= hi)))
    && from <= base < end <= to && base - from < sub && to - end < sub
    && (g.exact <==> from == base && to == end)
  }

  /** Every range that is not empty and stays inside the 32-bit space, and no other, gets a
      descriptor, and the descriptor is right. */
  lemma CoverIsRight(base: u32, len: u32) returns (n: nat, lo: nat, hi: nat)
    ensures CoverSpec(base, len).Some? <==> len > 0 && base as int + len as int <= U32_MOD
    ensures CoverSpec(base, len).Some? ==>
      var g, end := CoverSpec(base, len).value, base as int + len as int;
      && Smallest(g.base, n, base, end) && SizeOk(g.sizeCode, n, base, end) && RunOk(g, Pow2(n - 3), lo, hi, base, end)
  {
    hide Floor, Pow2, Disabled, EncodeSize, Smallest, SizeOk, RunOk;
    var end := base as int + len as int;
    n, lo, hi := 8, 0, 0;
    if len > 0 && end <= U32_MOD {
      n := Grow(base, end, 8);
      GrowEnds(base, end, 8);
      FoundIsSmallest(base, end, n);
      SizeCodeMeans(base, end, n);
      lo, hi := FoundRun(base, end, n, CoverSpec(base, len).value);
    }
  }

  lemma FoundIsSmallest(base: u32, end: nat, n: nat)
    requires base < end <= U32_MOD && n == Grow(base, end, 8)
    ensures Smallest(Floor(base, n), n, base, end)
  {
    hide Floor, Pow2, Contains;
    WholeSpace(base, end);
    SmallestRegion(base, end, 0, 32);
    forall m, other {:trigger Contains(other, m, base, end)} | m >= 8 && Contains(other, m, base, end)
      ensures Pow2(n) <= Pow2(m)
    {
      SmallestRegion(base, end, other, m);
    }
  }

  lemma FoundRun(base: u32, end: nat, n: nat, g: Region) returns (lo: nat, hi: nat)
    requires base < end <= U32_MOD && n == Grow(base, end, 8) && 8 <= n <= 32
    requires var sub := Pow2(n - 3);
      g.base == Floor(base, n) && g.disable == Disabled(g.base, sub, base, end, 8)
      && g.exact == (base % sub == 0 && end % sub == 0)
    ensures RunOk(g, Pow2(n - 3), lo, hi, base, end)
  {
    hide Floor, Pow2, Disabled, Bit, Contains;
    WholeSpace(base, end);
    SmallestRegion(base, end, 0, 32);
    ContainsBounds(Floor(base, n), n, base, end);
    FloorOfEighth(base, n);
    Eighth(n);
    lo, hi := EnabledRun(Floor(base, n), Pow2(n - 3), base, end);
  }

  lemma ContainsBounds(start: nat, n: nat, base: nat, end: nat)
    requires Contains(start, n, base, end)
    ensures start <= base && end <= start + Pow2(n)
  {
  }

  lemma WholeSpace(base: u32, end: nat)
    requires base < end <= U32_MOD
    ensures Contains(0, 32, base, end)
  {
    Pow2Of32();
    assert 0 == Pow2(32) * 0;
  }

  lemma SizeCodeMeans(base: u32, end: nat, n: nat)
    requires base < end <= U32_MOD && n == Grow(base, end, 8) <= 32
    ensures SizeOk(EncodeSize(Pow2(n) % U32_MOD), n, base, end)
  {
    hide Floor, Pow2, Grow, EncodeSize;
    WholeSpaceIff(base, end);
    Pow2Of32();
    if n == 32 {
      NoCodeForZero();
    } else {
      Widths(n);
      PowersGrow(n, 31);
      PowersGrow(8, n);
      Pow2Of8();
      Pow2Step(32);
      QuotientUnique(Pow2(n), U32_MOD, 0, Pow2(n));
      EncodeSizeExact(Pow2(n), n - 1);
    }
  }

  lemma NoCodeForZero()
    ensures EncodeSize(0) == SIZE_INVALID
  {
  }
}
