/** Single bits of machine words, and how the bitwise operations act on them. */
module Bits {
  import opened Words

  predicate Bit(v: nat, i: nat) {
    if i == 0 then v % 2 == 1 else Bit(v / 2, i - 1)
  }

  /** `word |= 1 << i` and `word &= ~(1 << i)` on 32-bit words. */
  function SetBit(v: u32, i: nat): u32 {
    Pow2Of32();
    Or(v, Pow2(i), 32)
  }

  function ClearBit(v: u32, i: nat): u32 {
    Pow2Of32();
    And(v, Xor(Pow2(i), U32_MOD - 1, 32), 32)
  }

  /** Position of the lowest set bit. */
  function Ctz(v: nat): (i: nat)
    requires v > 0
  {
    if v % 2 == 1 then 0 else Ctz(v / 2) + 1
  }

  lemma {:induction false} BitOfOr(a: nat, b: nat, n: nat, i: nat)
    ensures Bit(Or(a, b, n), i) <==> i < n && (Bit(a, i) || Bit(b, i))
    decreases n
  {
    if n == 0 {
      NoBits(i);
    } else {
      var d := if a % 2 + b % 2 > 0 then 1 else 0;
      SplitBit(d, Or(a / 2, b / 2, n - 1));
      if i > 0 {
        BitOfOr(a / 2, b / 2, n - 1, i - 1);
      }
    }
  }

  lemma {:induction false} BitOfAnd(a: nat, b: nat, n: nat, i: nat)
    ensures Bit(And(a, b, n), i) <==> i < n && Bit(a, i) && Bit(b, i)
    decreases n
  {
    if n == 0 {
      NoBits(i);
    } else {
      var d := if a % 2 + b % 2 == 2 then 1 else 0;
      SplitBit(d, And(a / 2, b / 2, n - 1));
      if i > 0 {
        BitOfAnd(a / 2, b / 2, n - 1, i - 1);
      }
    }
  }

  lemma {:induction false} BitOfXor(a: nat, b: nat, n: nat, i: nat)
    ensures Bit(Xor(a, b, n), i) <==> i < n && Bit(a, i) != Bit(b, i)
    decreases n
  {
    if n == 0 {
      NoBits(i);
    } else {
      var d := (a % 2 + b % 2) % 2;
      SplitBit(d, Xor(a / 2, b / 2, n - 1));
      if i > 0 {
        BitOfXor(a / 2, b / 2, n - 1, i - 1);
      }
    }
  }

  lemma {:induction false} NoBits(i: nat)
    ensures !Bit(0, i)
  {
    if i > 0 {
      NoBits(i - 1);
    }
  }

  lemma {:induction false} BitOfPow2(k: nat, i: nat)
    ensures Bit(Pow2(k), i) <==> i == k
    decreases k
  {
    if k == 0 {
      if i > 0 {
        NoBits(i - 1);
      }
    } else {
      SplitBit(0, Pow2(k - 1));
      if i > 0 {
        BitOfPow2(k - 1, i - 1);
      }
    }
  }

  lemma {:induction false} BitOfOnes(n: nat, i: nat)
    ensures Bit(Pow2(n) - 1, i) <==> i < n
    decreases n
  {
    if n == 0 {
      NoBits(i);
    } else {
      HalfOnes(Pow2(n - 1));
      if i > 0 {
        BitOfOnes(n - 1, i - 1);
      }
    }
  }

  lemma BitOfSet(v: u32, k: nat, i: nat)
    requires k < 32 && i < 32
    ensures Bit(SetBit(v, k), i) <==> Bit(v, i) || i == k
  {
    hide Or, Bit, Pow2;
    BitOfOr(v, Pow2(k), 32, i);
    BitOfPow2(k, i);
  }

  lemma BitOfClear(v: u32, k: nat, i: nat)
    requires k < 32 && i < 32
    ensures Bit(ClearBit(v, k), i) <==> Bit(v, i) && i != k
  {
    hide And, Xor, Bit, Pow2;
    Pow2Of32();
    BitOfAnd(v, Xor(Pow2(k), U32_MOD - 1, 32), 32, i);
    BitOfXor(Pow2(k), U32_MOD - 1, 32, i);
    BitOfPow2(k, i);
    BitOfOnes(32, i);
  }

  lemma {:induction false} CtzIsLowest(v: nat, i: nat)
    requires v > 0
    ensures Bit(v, Ctz(v)) && (Bit(v, i) ==> Ctz(v) <= i)
    decreases v
  {
    if v % 2 == 0 {
      CtzIsLowest(v / 2, if i == 0 then 0 else i - 1);
    }
  }

  /** A nonzero word has a set bit below its width, and zero has none. */
  lemma {:induction false} CtzBelow(v: nat, n: nat)
    requires 0 < v < Pow2(n)
    ensures Ctz(v) < n
    decreases n
  {
    if v % 2 == 0 {
      CtzBelow(v / 2, n - 1);
    }
  }
}
