/** The log's byte ring: two free-running 32-bit indices over a power-of-two buffer. */
module LogRing {
  import opened Words

  /** `n` bytes of the buffer from index `start` on, wrapping at its end. */
  function Window(c: seq<byte>, start: nat, n: nat): (w: seq<byte>)
    requires |c| > 0
    ensures |w| == n
  {
    seq(n, k requires 0 <= k < n => c[(start + k) % |c|])
  }

  /** The buffer with `src` written from index `start` on, wrapping at its end. */
  function Spliced(c: seq<byte>, start: nat, src: seq<byte>): (d: seq<byte>)
    requires |c| > 0
    ensures |d| == |c|
  {
    seq(|c|, i requires 0 <= i < |c| => if (i - start) % |c| < |src| then src[(i - start) % |c|] else c[i])
  }

  lemma ModOfMod(x: nat, m: nat, n: nat)
    requires m > 0 && n > 0
    ensures m * n > 0 && x % (m * n) % m == x % m
  {
    MulGrows(m, n);
    var q, r := x / (m * n), x % (m * n);
    assert x == (m * n) * q + r;
    var p := r / m;
    assert r == m * p + r % m;
    assert (m * n) * q == m * (n * q);
    assert x == m * (n * q + p) + r % m;
    QuotientUnique(x, m, n * q + p, r % m);
  }

  /** A 32-bit index wraps at a multiple of the capacity. */
  lemma IndexWraps(x: nat, bits: nat)
    requires bits <= 31
    ensures x % U32_MOD % Pow2(bits) == x % Pow2(bits)
  {
    Pow2Of32();
    Pow2Adds(bits, 32 - bits);
    ModOfMod(x, Pow2(bits), Pow2(32 - bits));
  }

  lemma Pow2Small(bits: nat)
    requires bits <= 31
    ensures Pow2(bits) <= 0x8000_0000
  {
    Pow2Of32();
    Pow2Adds(bits, 31 - bits);
    MulGrows(Pow2(bits), Pow2(31 - bits));
    assert Pow2(32) == 2 * Pow2(31);
  }

  /** Offsets within one lap are told apart by the remainder. */
  lemma Offset(start: nat, k: nat, u: nat, m: nat)
    requires 0 <= k < m && u <= m && m > 0
    ensures ((start + k) % m - (start + u)) % m == if k >= u then (if k - u == m then 0 else k - u) else k - u + m
  {
    ModAdd(start + k, -(start + u), m);
    assert start + k - (start + u) == k - u;
    if k >= u {
      QuotientUnique(k - u, m, 0, k - u);
    } else if k - u + m < m {
      QuotientUnique(k - u, m, -1, k - u + m);
    }
  }

  /** Writing behind the window appends to it. */
  lemma SplicedAppends(c: seq<byte>, start: nat, u: nat, src: seq<byte>)
    requires |c| > 0 && u + |src| <= |c|
    ensures Window(Spliced(c, start + u, src), start, u + |src|) == Window(c, start, u) + src
  {
    var d := Spliced(c, start + u, src);
    forall k | 0 <= k < u + |src|
      ensures Window(d, start, u + |src|)[k] == (Window(c, start, u) + src)[k]
    {
      Offset(start, k, u, |c|);
    }
  }

  /** Only the position of the start modulo the capacity matters. */
  lemma SplicedModulo(c: seq<byte>, s: nat, t: nat, src: seq<byte>)
    requires |c| > 0 && s % |c| == t % |c|
    ensures Spliced(c, s, src) == Spliced(c, t, src)
  {
    var x, y := Spliced(c, s, src), Spliced(c, t, src);
    forall i | 0 <= i < |c|
      ensures x[i] == y[i]
    {
      SubModulo(i, s, t, |c|);
    }
  }

  lemma SubModulo(i: int, s: nat, t: nat, m: nat)
    requires m > 0 && s % m == t % m
    ensures (i - s) % m == (i - t) % m
  {
    var q := s / m - t / m;
    assert s == m * (s / m) + s % m && t == m * (t / m) + t % m;
    assert s - t == m * q;
    var p := (i - s) / m;
    assert i - t == m * (p + q) + (i - s) % m;
    QuotientUnique(i - t, m, p + q, (i - s) % m);
  }

  lemma WindowModulo(c: seq<byte>, s: nat, t: nat, n: nat)
    requires |c| > 0 && s % |c| == t % |c|
    ensures Window(c, s, n) == Window(c, t, n)
  {
    var x, y := Window(c, s, n), Window(c, t, n);
    forall k | 0 <= k < n
      ensures x[k] == y[k]
    {
      ModAdd(s, k, |c|);
      ModAdd(t, k, |c|);
    }
  }

  lemma WindowDrop(c: seq<byte>, start: nat, n: nat, u: nat)
    requires |c| > 0 && n <= u
    ensures Window(c, start, u)[n..] == Window(c, start + n, u - n)
  {
    forall k | 0 <= k < u - n
      ensures Window(c, start, u)[n..][k] == Window(c, start + n, u - n)[k]
    {
      assert start + (n + k) == start + n + k;
    }
  }

  /** Up to the end of the buffer the window is contiguous. */
  lemma WindowFlat(c: seq<byte>, start: nat, n: nat, u: nat)
    requires |c| > 0 && n <= u && start % |c| + n <= |c|
    ensures Window(c, start, u)[..n] == c[start % |c|..start % |c| + n]
  {
    var idx, w := start % |c|, Window(c, start, u);
    forall k | 0 <= k < n
      ensures w[..n][k] == c[idx..idx + n][k]
    {
      ModAdd(start, k, |c|);
      QuotientUnique(idx + k, |c|, 0, idx + k);
    }
  }

  lemma EndsAtWrap(tail: nat, length: nat, idx: nat, chunk: nat)
    requires length > 0 && idx == tail % length && idx + chunk == length
    ensures (tail + chunk) % length == 0
  {
    var q := tail / length;
    assert tail + chunk == length * (q + 1);
    QuotientUnique(tail + chunk, length, q + 1, 0);
  }

  class ByteRing {
    const bits: nat
    const cells: array<byte>
    var head: u32
    var tail: u32

    ghost predicate Valid()
      reads this, cells
    {
      bits <= 31 && cells.Length == Pow2(bits) && Used() <= cells.Length
    }

    function Used(): nat
      reads this
    {
      (head as int - tail as int) % U32_MOD
    }

    /** What has been enqueued and not yet drained. */
    ghost function Contents(): (s: seq<byte>)
      reads this, cells
      requires Valid()
      ensures |s| == Used()
    {
      Window(cells[..], tail, Used())
    }

    constructor (bits: nat, start: u32)
      requires bits <= 31
      ensures Valid() && fresh(cells) && this.bits == bits && Contents() == []
    {
      this.bits := bits;
      cells := new byte[Pow2(bits)];
      head, tail := start, start;
      new;
      hide Window, Pow2;
      assert Used() == 0;
    }

    method Clear()
      requires Valid()
      modifies this
      ensures Valid() && Contents() == []
    {
      head, tail := 0, 0;
    }

    method CopyIn(start: u32, src: seq<byte>)
      requires Valid() && |src| <= cells.Length
      modifies cells
      ensures cells[..] == Spliced(old(cells[..]), start, src)
    {
      hide And, Pow2;
      ghost var was := cells[..];
      var cap := cells.Length;
      var idx := And(start, cap - 1, 32);
      AndMask(start, bits, 32);
      var first := if |src| < cap - idx then |src| else cap - idx;
      forall i | 0 <= i < first {
        cells[idx + i] := src[i];
      }
      if |src| > first {
        forall i | 0 <= i < |src| - first {
          cells[i] := src[first + i];
        }
      }
      forall i | 0 <= i < cap
        ensures cells[i] == Spliced(was, start, src)[i]
      {
        FromIndex(i, start, cap);
      }
    }

    /** All or nothing: both pieces are appended in one step, or nothing changes. */
    method TryEnqueue(first: seq<byte>, second: seq<byte>) returns (ok: bool)
      requires Valid()
      modifies this`head, cells
      ensures Valid()
      ensures ok == (|old(Contents())| + |first| + |second| <= cells.Length)
      ensures Contents() == old(Contents()) + if ok then first + second else []
    {
      var cap := cells.Length;
      var need := |first| + |second|;
      if need == 0 {
        return true;
      }
      var start := head;
      var used := (start as int - tail as int) % U32_MOD;
      if need > cap || cap - used < need {
        return false;
      }
      ghost var was := cells[..];
      Pow2Small(bits);
      HeadIndex(tail, start);
      CopyIn(start, first);
      ghost var mid := cells[..];
      CopyIn((start as int + |first|) % U32_MOD, second);
      head := (start as int + need) % U32_MOD;
      assert Used() == used + need by {
        HeadMoves(tail, start, need);
      }
      TwoPieces(was, tail, start, bits, first, second);
      return true;
    }

    /** The consumer's half of one drain round: the bytes up to the wrap. */
    method Front(limit: nat) returns (data: seq<byte>)
      requires Valid() && limit > 0 && Used() > 0
      ensures 0 < |data| <= limit && data <= Contents()
      ensures |data| == limit || |data| == |Contents()| || (tail as int + |data|) % cells.Length == 0
    {
      var idx := And(tail, cells.Length - 1, 32);
      AndMask(tail, bits, 32);
      var used := Used();
      var chunk := if used < cells.Length - idx then used else cells.Length - idx;
      if chunk > limit {
        chunk := limit;
      }
      WindowFlat(cells[..], tail, chunk, used);
      data := cells[idx..idx + chunk];
      if idx + chunk == cells.Length {
        EndsAtWrap(tail, cells.Length, idx, chunk);
      }
    }

    method Consume(n: nat)
      requires Valid() && n <= Used()
      modifies this`tail
      ensures Valid() && Contents() == old(Contents())[n..]
    {
      ghost var was, used := tail, Used();
      Pow2Small(bits);
      tail := (tail as int + n) % U32_MOD;
      assert Used() == used - n by {
        TailMoves(was, head, n);
      }
      IndexWraps(was as int + n, bits);
      WindowModulo(cells[..], tail, was as int + n, used - n);
      WindowDrop(cells[..], was, n, used);
    }
  }

  /** Distance of a cell from the index of `start`. */
  lemma FromIndex(i: nat, start: nat, cap: nat)
    requires i < cap
    ensures (i - start) % cap == if i >= start % cap then i - start % cap else i - start % cap + cap
  {
    SubModulo(i, start, start % cap, cap);
    if i >= start % cap {
      QuotientUnique(i - start % cap, cap, 0, i - start % cap);
    } else {
      QuotientUnique(i - start % cap, cap, -1, i - start % cap + cap);
    }
  }

  lemma HeadIndex(tail: u32, head: u32)
    ensures (tail as int + (head as int - tail as int) % U32_MOD) % U32_MOD == head
  {
  }

  lemma HeadMoves(tail: u32, head: u32, n: nat)
    requires (head as int - tail as int) % U32_MOD + n < U32_MOD
    ensures ((head as int + n) % U32_MOD - tail as int) % U32_MOD == (head as int - tail as int) % U32_MOD + n
  {
  }

  lemma TailMoves(tail: u32, head: u32, n: nat)
    requires n <= (head as int - tail as int) % U32_MOD
    ensures (head as int - (tail as int + n) % U32_MOD) % U32_MOD == (head as int - tail as int) % U32_MOD - n
  {
  }

  /** The two copies of one enqueue, at wrapped 32-bit positions, append both pieces. */
  lemma TwoPieces(c: seq<byte>, tail: u32, head: u32, bits: nat, first: seq<byte>, second: seq<byte>)
    requires bits <= 31 && |c| == Pow2(bits)
    requires (head as int - tail as int) % U32_MOD + |first| + |second| <= |c|
    ensures var used := (head as int - tail as int) % U32_MOD;
      Window(Spliced(Spliced(c, head, first), (head as int + |first|) % U32_MOD, second), tail,
        used + |first| + |second|)
        == Window(c, tail, used) + (first + second)
  {
    hide Window, Spliced, Pow2;
    var used := (head as int - tail as int) % U32_MOD;
    HeadIndex(tail, head);
    OnePiece(c, tail, head, bits, used, first);
    var next := (head as int + |first|) % U32_MOD;
    assert next == (tail as int + (used + |first|)) % U32_MOD;
    OnePiece(Spliced(c, head, first), tail, next, bits, used + |first|, second);
    assert used + |first| + |second| == used + (|first| + |second|);
    assert (Window(c, tail, used) + first) + second == Window(c, tail, used) + (first + second);
  }

  lemma OnePiece(c: seq<byte>, tail: nat, at: u32, bits: nat, used: nat, src: seq<byte>)
    requires bits <= 31 && |c| == Pow2(bits) && used + |src| <= |c| && at == (tail + used) % U32_MOD
    ensures Window(Spliced(c, at, src), tail, used + |src|) == Window(c, tail, used) + src
  {
    hide Window, Spliced, Pow2;
    IndexWraps(tail + used, bits);
    SplicedModulo(c, at, tail + used, src);
    SplicedAppends(c, tail, used, src);
  }
}
