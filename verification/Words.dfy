/** Machine words as bounded integers, and the little-endian byte codecs that the
    C sources write out by shifts and masks. */
module Words {
  type byte = x: int | 0 <= x < 0x100
  type u16 = x: int | 0 <= x < 0x1_0000
  type u32 = x: int | 0 <= x < 0x1_0000_0000

  /** A full AES-CMAC tag. */
  type Tag = t: seq<byte> | |t| == 16 witness seq(16, _ => 0)

  const U16_MOD := 0x1_0000
  const U32_MOD := 0x1_0000_0000

  datatype Option<+T> = None | Some(value: T) {
    function GetOr(default: T): T {
      if Some? then value else default
    }
  }

  /** The low `n` bytes of `v`, least significant first. */
  function LeBytes(v: nat, n: nat): (b: seq<byte>)
    ensures |b| == n
  {
    if n == 0 then [] else [v % 0x100] + LeBytes(v / 0x100, n - 1)
  }

  function PutU16(v: u16): (b: seq<byte>)
    ensures |b| == 2
  {
    LeBytes(v, 2)
  }

  function GetU16(b: seq<byte>): u16
    requires |b| >= 2
  {
    b[0] as int + 0x100 * (b[1] as int)
  }

  function PutU32(v: u32): (b: seq<byte>)
    ensures |b| == 4
  {
    LeBytes(v, 4)
  }

  function GetU32(b: seq<byte>): u32
    requires |b| >= 4
  {
    b[0] as int + 0x100 * (b[1] as int + 0x100 * (b[2] as int + 0x100 * (b[3] as int)))
  }

  function Pow2(n: nat): (p: nat)
    ensures p > 0
  {
    if n == 0 then 1 else 2 * Pow2(n - 1)
  }

  /** Bitwise and of the low `n` bits. */
  function And(a: nat, b: nat, n: nat): (r: nat)
    ensures r < Pow2(n)
  {
    if n == 0 then 0 else (if a % 2 + b % 2 == 2 then 1 else 0) + 2 * And(a / 2, b / 2, n - 1)
  }

  /** Bitwise exclusive or of the low `n` bits. */
  function Xor(a: nat, b: nat, n: nat): (r: nat)
    ensures r < Pow2(n)
  {
    if n == 0 then 0 else (a % 2 + b % 2) % 2 + 2 * Xor(a / 2, b / 2, n - 1)
  }

  /** Bitwise or of the low `n` bits. */
  function Or(a: nat, b: nat, n: nat): (r: nat)
    ensures r < Pow2(n)
  {
    if n == 0 then 0 else (if a % 2 + b % 2 > 0 then 1 else 0) + 2 * Or(a / 2, b / 2, n - 1)
  }

  lemma {:induction false} XorZero(a: nat, b: nat, n: nat)
    ensures a < Pow2(n) && b < Pow2(n) ==> (Xor(a, b, n) == 0 <==> a == b)
  {
    if n > 0 {
      XorZero(a / 2, b / 2, n - 1);
    }
  }

  lemma {:induction false} OrZero(a: nat, b: nat, n: nat)
    ensures a < Pow2(n) && b < Pow2(n) ==> (Or(a, b, n) == 0 <==> a == 0 && b == 0)
  {
    if n > 0 {
      OrZero(a / 2, b / 2, n - 1);
    }
  }

  /** Exclusive or with all ones is the complement. */
  lemma {:induction false} XorOnes(a: nat, n: nat)
    requires a < Pow2(n)
    ensures Xor(a, Pow2(n) - 1, n) == Pow2(n) - 1 - a
  {
    if n > 0 {
      var h := Pow2(n - 1);
      XorOnes(a / 2, n - 1);
      assert Pow2(n) == 2 * h;
      HalfOnes(h);
      assert a == a % 2 + 2 * (a / 2);
    }
  }

  lemma MulGrows(m: int, d: int)
    requires m > 0
    ensures d >= 1 ==> m * d >= m
    ensures d <= -1 ==> m * d <= -m
  {
  }

  lemma QuotientUnique(v: int, m: int, q: int, r: int)
    requires 0 <= r < m && v == m * q + r
    ensures v % m == r && v / m == q
  {
    var d := v / m - q;
    assert m * d == r - v % m;
    MulGrows(m, d);
  }

  lemma ModAdd(a: int, b: int, m: int)
    requires m > 0
    ensures (a % m + b) % m == (a + b) % m
  {
    var q, p := a / m, (a % m + b) / m;
    assert a == m * q + a % m;
    assert a + b == m * (q + p) + (a % m + b) % m;
    QuotientUnique(a + b, m, q + p, (a % m + b) % m);
  }

  lemma {:induction false} Pow2Adds(a: nat, b: nat)
    ensures Pow2(a + b) == Pow2(a) * Pow2(b)
  {
    if a > 0 {
      Pow2Adds(a - 1, b);
      assert (2 * Pow2(a - 1)) * Pow2(b) == 2 * (Pow2(a - 1) * Pow2(b));
    }
  }

  /** The lowest bit and the rest of a remainder modulo an even number. */
  lemma LowPart(d: nat, x: nat, p: nat)
    requires d < 2 && p > 0
    ensures (d + 2 * x) % (2 * p) == d + 2 * (x % p)
  {
    var q, r := x / p, x % p;
    assert x == p * q + r;
    assert 2 * x == (2 * p) * q + 2 * r;
    QuotientUnique(d + 2 * x, 2 * p, q, d + 2 * r);
  }

  /** The low `n` bits. */
  function Low(a: nat, n: nat): nat {
    a % Pow2(n)
  }

  lemma Pow2Step(n: nat)
    requires n > 0
    ensures Pow2(n) == 2 * Pow2(n - 1)
  {
  }

  lemma LowBitOf(a: nat, n: nat)
    requires n > 0
    ensures Low(a, n) == a % 2 + 2 * Low(a / 2, n - 1)
  {
    LowPart(a % 2, a / 2, Pow2(n - 1));
    assert a == a % 2 + 2 * (a / 2);
  }

  lemma AndStep(a: nat, b: nat, n: nat)
    requires n > 0
    ensures And(a, b, n) == (if a % 2 + b % 2 == 2 then 1 else 0) + 2 * And(a / 2, b / 2, n - 1)
  {
  }

  /** Masking with 2^k - 1 keeps the low `k` bits. */
  lemma {:induction false} AndMask(a: nat, k: nat, n: nat)
    requires k <= n
    ensures And(a, Pow2(k) - 1, n) == Low(a, k)
    decreases n
  {
    hide Low, Pow2, And;
    if k > 0 {
      var h := Pow2(k - 1);
      Pow2Step(k);
      HalfOnes(h);
      AndStep(a, 2 * h - 1, n);
      AndMask(a / 2, k - 1, n - 1);
      LowBitOf(a, k);
    } else {
      AndNothing(a, n);
      LowNothing(a);
    }
  }

  lemma LowNothing(a: nat)
    ensures Pow2(0) == 1 && Low(a, 0) == 0
  {
  }

  lemma {:induction false} AndNothing(a: nat, n: nat)
    ensures And(a, 0, n) == 0
  {
    if n > 0 {
      AndNothing(a / 2, n - 1);
    }
  }

  /** Low bits of an exclusive or depend on low bits only. */
  lemma {:induction false} XorLow(a: nat, b: nat, n: nat)
    ensures Low(Xor(a, b, n + 1), n) == Xor(a, b, n)
  {
    if n > 0 {
      hide Low;
      XorLow(a / 2, b / 2, n - 1);
      var d, x := (a % 2 + b % 2) % 2, Xor(a / 2, b / 2, n);
      SplitBit(d, x);
      LowBitOf(d + 2 * x, n);
    }
  }

  lemma {:induction false} XorOfLow(a: nat, b: nat, n: nat)
    ensures Xor(Low(a, n), b, n) == Xor(a, b, n)
  {
    if n > 0 {
      hide Low, Xor;
      LowBitOf(a, n);
      XorOfLow(a / 2, b / 2, n - 1);
      XorSame(a % 2, Low(a / 2, n - 1), a / 2, b, n);
      assert a == a % 2 + 2 * (a / 2);
    }
  }

  lemma XorSame(d: nat, x: nat, y: nat, b: nat, n: nat)
    requires d < 2 && n > 0 && Xor(x, b / 2, n - 1) == Xor(y, b / 2, n - 1)
    ensures Xor(d + 2 * x, b, n) == Xor(d + 2 * y, b, n)
  {
    SplitBit(d, x);
    SplitBit(d, y);
  }

  lemma SplitBit(d: nat, x: nat)
    requires d < 2
    ensures (d + 2 * x) % 2 == d && (d + 2 * x) / 2 == x
  {
  }

  /** A bit above both operands contributes nothing. */
  lemma {:induction false} XorTop(a: nat, b: nat, n: nat)
    requires a < Pow2(n) && b < Pow2(n)
    ensures Xor(a, b, n + 1) == Xor(a, b, n)
  {
    if n > 0 {
      XorTop(a / 2, b / 2, n - 1);
    }
  }

  lemma HalfOnes(h: nat)
    requires h > 0
    ensures (2 * h - 1) % 2 == 1 && (2 * h - 1) / 2 == h - 1
  {
  }

  function Xor32(a: u32, b: u32): u32 {
    Pow2Of32();
    Xor(a, b, 32)
  }

  function Xor16(a: u16, b: u16): u16 {
    Pow2Of16();
    Xor(a, b, 16)
  }

  lemma Pow2Of16()
    ensures Pow2(16) == U16_MOD
  {
    assert Pow2(4) == 16;
    assert Pow2(8) == 256;
    assert Pow2(12) == 4096;
  }

  lemma Pow2Of32()
    ensures Pow2(32) == U32_MOD
  {
    Pow2Of16();
    assert Pow2(20) == 0x10_0000;
    assert Pow2(24) == 0x100_0000;
    assert Pow2(28) == 0x1000_0000;
  }

  lemma LeUnfold(v: nat, n: nat)
    requires n > 0
    ensures LeBytes(v, n)[0] == v % 0x100 && LeBytes(v, n)[1..] == LeBytes(v / 0x100, n - 1)
  {
  }

  lemma U16RoundTrip(v: u16)
    ensures GetU16(PutU16(v)) == v
  {
    LeUnfold(v, 2);
    LeUnfold(v / 0x100, 1);
  }

  lemma U32RoundTrip(v: u32)
    ensures GetU32(PutU32(v)) == v
  {
    LeUnfold(v, 4);
    LeUnfold(v / 0x100, 3);
    LeUnfold(v / 0x100 / 0x100, 2);
    LeUnfold(v / 0x100 / 0x100 / 0x100, 1);
    var b := PutU32(v);
    assert b[1..][0] == b[1] && b[1..][1..][0] == b[2] && b[1..][1..][1..][0] == b[3];
  }

  /** Little-endian: the least significant byte first. */
  lemma U16Bytes(v: u16)
    ensures PutU16(v) == [v % 0x100, v / 0x100]
  {
    LeUnfold(v, 2);
    LeUnfold(v / 0x100, 1);
  }

  lemma U32Bytes(v: u32)
    ensures PutU32(v) == [v % 0x100, v / 0x100 % 0x100, v / 0x1_0000 % 0x100, v / 0x100_0000]
  {
    LeUnfold(v, 4);
    LeUnfold(v / 0x100, 3);
    LeUnfold(v / 0x100 / 0x100, 2);
    LeUnfold(v / 0x100 / 0x100 / 0x100, 1);
    var b := PutU32(v);
    assert b[1..][0] == b[1] && b[1..][1..][0] == b[2] && b[1..][1..][1..][0] == b[3];
    assert v / 0x100 / 0x100 == v / 0x1_0000 && v / 0x1_0000 / 0x100 == v / 0x100_0000;
  }

  lemma PutGet16(q: seq<byte>)
    requires |q| == 2
    ensures PutU16(GetU16(q)) == q
  {
    U16RoundTrip(GetU16(q));
    U16Injective(PutU16(GetU16(q)), q);
  }

  lemma PutGet32(q: seq<byte>)
    requires |q| == 4
    ensures PutU32(GetU32(q)) == q
  {
    U32RoundTrip(GetU32(q));
    U32Injective(PutU32(GetU32(q)), q);
  }

  /** A field is read from its own bytes, whatever follows them. */
  lemma U16Prefix(b: seq<byte>, p: seq<byte>)
    requires |b| >= |p| == 2 && b[..2] == p
    ensures GetU16(b) == GetU16(p)
  {
    assert b[0] == b[..2][0] && b[1] == b[..2][1];
  }

  lemma U32Prefix(b: seq<byte>, p: seq<byte>)
    requires |b| >= |p| == 4 && b[..4] == p
    ensures GetU32(b) == GetU32(p)
  {
    assert b[0] == b[..4][0] && b[1] == b[..4][1] && b[2] == b[..4][2] && b[3] == b[..4][3];
  }

  lemma U16Injective(a: seq<byte>, b: seq<byte>)
    requires |a| == |b| == 2 && GetU16(a) == GetU16(b)
    ensures a == b
  {
  }

  /** The low digit of a base-256 number is determined by the number. */
  lemma LowDigit(x: byte, p: int, y: byte, q: int)
    requires x as int + 0x100 * p == y as int + 0x100 * q
    ensures x == y && p == q
  {
  }

  lemma U32Injective(a: seq<byte>, b: seq<byte>)
    requires |a| == |b| == 4 && GetU32(a) == GetU32(b)
    ensures a == b
  {
    var p2, q2 := a[2] as int + 0x100 * (a[3] as int), b[2] as int + 0x100 * (b[3] as int);
    var p1, q1 := a[1] as int + 0x100 * p2, b[1] as int + 0x100 * q2;
    LowDigit(a[0], p1, b[0], q1);
    LowDigit(a[1], p2, b[1], q2);
    LowDigit(a[2], a[3], b[2], b[3]);
  }
}
