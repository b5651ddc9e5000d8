// Bits as naturals: shifts, masks, bit reversal, and a byte string read as an
// endless stream of bits, least significant bit of each byte first.
module Bits {

  type Byte = b: nat | b < 256

  function Pow2(n: nat): (p: nat)
    ensures p > 0
  {
    if n == 0 then 1 else 2 * Pow2(n - 1)
  }

  // n << w
  function Shl(n: nat, w: nat): nat {
    if w == 0 then n else 2 * Shl(n, w - 1)
  }

  // n >> w
  function Shr(n: nat, w: nat): nat {
    if w == 0 then n else Shr(n / 2, w - 1)
  }

  // n & ((1 << w) - 1)
  function Low(n: nat, w: nat): (r: nat)
    ensures r < Pow2(w)
  {
    if w == 0 then 0 else n % 2 + 2 * Low(n / 2, w - 1)
  }

  lemma ShiftsAreArithmetic(n: nat, w: nat)
    ensures Shl(n, w) == n * Pow2(w)
    ensures n == Shl(Shr(n, w), w) + Low(n, w)
  {
    ShlIsProduct(n, w);
    ShrAndLow(n, w);
  }

  lemma {:induction false} ShlIsProduct(n: nat, w: nat)
    ensures Shl(n, w) == n * Pow2(w)
  {
    if w > 0 {
      ShlIsProduct(n, w - 1);
      Twice(n, Pow2(w - 1));
    }
  }

  lemma Twice(n: nat, p: nat)
    ensures n * (2 * p) == 2 * (n * p)
  {
  }

  lemma {:induction false} ShrAndLow(n: nat, w: nat)
    ensures n == Shl(Shr(n, w), w) + Low(n, w)
  {
    if w > 0 {
      ShrAndLow(n / 2, w - 1);
      assert Shl(Shr(n, w), w) == 2 * Shl(Shr(n / 2, w - 1), w - 1);
    }
  }

  lemma {:induction false} Pow2Monotone(a: nat, b: nat)
    requires a <= b
    ensures Pow2(a) <= Pow2(b)
  {
    if a < b {
      Pow2Monotone(a, b - 1);
    }
  }

  lemma Pow2Small()
    ensures Pow2(1) == 2 && Pow2(2) == 4 && Pow2(3) == 8 && Pow2(4) == 16
    ensures Pow2(7) == 128 && Pow2(8) == 256 && Pow2(9) == 512
    ensures Pow2(15) == 0x8000 && Pow2(16) == 0x1_0000
  {
    assert Pow2(4) == 16;
    assert Pow2(8) == 256;
    assert Pow2(12) == 0x1000;
    assert Pow2(15) == 0x8000;
  }

  lemma {:induction false} Pow2Shl(a: nat, b: nat)
    ensures Shl(Pow2(a), b) == Pow2(a + b)
  {
    if b > 0 {
      Pow2Shl(a, b - 1);
    }
  }

  lemma {:induction false} ShlMonotone(a: nat, b: nat, w: nat)
    ensures a <= b <==> Shl(a, w) <= Shl(b, w)
  {
    if w > 0 {
      ShlMonotone(a, b, w - 1);
    }
  }

  // Comparing with a shifted bound is comparing the shifted-out number.
  lemma {:induction false} ShrBelow(y: nat, e: nat, w: nat)
    ensures y < Shl(e, w) <==> Shr(y, w) < e
  {
    if w > 0 {
      ShrBelow(y / 2, e, w - 1);
    }
  }

  lemma {:induction false} ShrShl(n: nat, w: nat)
    ensures Shr(Shl(n, w), w) == n && Low(Shl(n, w), w) == 0
  {
    if w > 0 {
      ShrShl(n, w - 1);
    }
  }

  lemma {:induction false} LowOfSmall(n: nat, w: nat)
    requires n < Pow2(w)
    ensures Low(n, w) == n && Shr(n, w) == 0
  {
    if w > 0 {
      LowOfSmall(n / 2, w - 1);
    }
  }

  lemma {:induction false} ShlZero(w: nat)
    ensures Shl(0, w) == 0
  {
    if w > 0 {
      ShlZero(w - 1);
    }
  }

  lemma {:induction false} ShrAdd(n: nat, a: nat, b: nat)
    ensures Shr(n, a + b) == Shr(Shr(n, a), b)
    decreases a
  {
    if a > 0 {
      ShrAdd(n / 2, a - 1, b);
    }
  }

  // Masking twice keeps the narrower mask.
  lemma {:induction false} LowLow(n: nat, a: nat, b: nat)
    requires a <= b
    ensures Low(Low(n, b), a) == Low(n, a)
  {
    if a > 0 {
      LowLow(n / 2, a - 1, b - 1);
    }
  }

  // Numbers with the same low `w` bits are multiples of 2^w apart.
  lemma {:induction false} SameLow(x: nat, y: nat, w: nat)
    requires Low(x, w) == Low(y, w) && x < y
    ensures y >= x + Pow2(w)
  {
    if w > 0 {
      SameLow(x / 2, y / 2, w - 1);
    }
  }

  lemma {:induction false} LowPeriod(x: nat, w: nat)
    ensures Low(x + Pow2(w), w) == Low(x, w)
  {
    if w > 0 {
      assert (x + Pow2(w)) / 2 == x / 2 + Pow2(w - 1);
      LowPeriod(x / 2, w - 1);
    }
  }

  // ---- bit reversal --------------------------------------------------------

  // The low `n` bits of `x`, read in the opposite order.
  function Rev(x: nat, n: nat): (r: nat)
    ensures r < Pow2(n)
  {
    if n == 0 then 0 else (if x % 2 == 1 then Pow2(n - 1) else 0) + Rev(x / 2, n - 1)
  }

  // Only the low `n` bits matter.
  lemma {:induction false} RevLow(x: nat, n: nat)
    ensures Rev(Low(x, n), n) == Rev(x, n)
  {
    if n != 0 {
      RevLow(x / 2, n - 1);
    }
  }

  // The other way to unfold a reversal: the last bit read is the lowest one.
  lemma {:induction false} RevLast(x: nat, n: nat)
    ensures Rev(x, n + 1) == 2 * Rev(x, n) + Shr(x, n) % 2
  {
    if n == 0 {
      assert Rev(x, 1) == (if x % 2 == 1 then Pow2(0) else 0) + Rev(x / 2, 0);
    } else {
      RevLast(x / 2, n - 1);
    }
  }

  // Reversing more bits and dropping the last ones is reversing fewer bits.
  lemma {:induction false} RevPrefix(x: nat, n: nat, s: nat)
    requires s <= n
    ensures Shr(Rev(x, n), n - s) == Rev(x, s)
    decreases n
  {
    if s < n {
      RevLast(x, n - 1);
      RevPrefix(x, n - 1, s);
    }
  }

  lemma {:induction false} LowLast(x: nat, n: nat)
    ensures Low(x, n + 1) == Low(x, n) + if Shr(x, n) % 2 == 1 then Pow2(n) else 0
  {
    if n != 0 {
      LowLast(x / 2, n - 1);
    }
  }

  // Reversing twice gives the low bits back.
  lemma {:induction false} RevRev(x: nat, n: nat)
    ensures Rev(Rev(x, n), n) == Low(x, n)
  {
    if n != 0 {
      RevLast(x, n - 1);
      RevRev(x, n - 1);
      LowLast(x, n - 1);
    }
  }

  // The inputs whose first `s` bits are the code `c` are those whose low bits
  // are the reversed code.
  lemma RevClass(x: nat, s: nat, c: nat)
    requires c < Pow2(s)
    ensures Rev(x, s) == c <==> Low(x, s) == Rev(c, s)
  {
    RevRev(x, s);
    RevRev(c, s);
    LowOfSmall(c, s);
    RevLow(x, s);
  }

  // ---- the bit stream ------------------------------------------------------

  type BitValue = b: nat | b < 2

  // An endless stream of bits by position.
  type Stream = nat -> BitValue

  // The number that a list of bits writes, lowest bit first.
  function ValueOf(bits: seq<BitValue>): nat {
    if bits == [] then 0 else bits[0] + 2 * ValueOf(bits[1..])
  }

  function Window(f: Stream, pos: nat, n: nat): seq<BitValue> {
    seq(n, i requires 0 <= i < n => f(pos + i))
  }

  // The next `n` bits at `pos` as a number, first bit lowest.
  function Peek(f: Stream, pos: nat, n: nat): nat {
    ValueOf(Window(f, pos, n))
  }

  lemma PeekStep(f: Stream, pos: nat, n: nat)
    requires n > 0
    ensures Peek(f, pos, n) == f(pos) + 2 * Peek(f, pos + 1, n - 1)
  {
    assert Window(f, pos, n)[1..] == Window(f, pos + 1, n - 1);
  }

  lemma {:induction false} PeekBound(f: Stream, pos: nat, n: nat)
    ensures Peek(f, pos, n) < Pow2(n)
    decreases n
  {
    if n != 0 {
      PeekStep(f, pos, n);
      PeekBound(f, pos + 1, n - 1);
    }
  }

  // A longer window is a shorter one with the rest above it.
  lemma {:induction false} PeekSplit(f: Stream, pos: nat, a: nat, b: nat)
    ensures Peek(f, pos, a + b) == Peek(f, pos, a) + Shl(Peek(f, pos + a, b), a)
    decreases a
  {
    if a != 0 {
      PeekStep(f, pos, a);
      PeekStep(f, pos, a + b);
      PeekSplit(f, pos + 1, a - 1, b);
    }
  }

  // Masking off `n` bits of a longer window, and shifting them out.
  lemma {:induction false} PeekDrop(f: Stream, pos: nat, m: nat, n: nat)
    requires n <= m
    ensures Low(Peek(f, pos, m), n) == Peek(f, pos, n)
    ensures Shr(Peek(f, pos, m), n) == Peek(f, pos + n, m - n)
    decreases n
  {
    assert Peek(f, pos, 0) == 0;
    hide Peek;
    if n != 0 {
      PeekStep(f, pos, m);
      PeekStep(f, pos, n);
      PeekDrop(f, pos + 1, m - 1, n - 1);
    }
  }

  // Bit `k` of a byte string; past its end all bits are zero.
  function Bit(data: seq<Byte>, k: nat): BitValue {
    if k / 8 < |data| then Shr(data[k / 8], k % 8) % 2 else 0
  }

  // `f` is the byte string read as a stream.
  ghost predicate StreamOf(f: Stream, data: seq<Byte>) {
    forall k: nat {:trigger Bit(data, k)} :: f(k) == Bit(data, k)
  }

  // Byte `k` of the data; past the end bytes are zero.
  function ByteAt(data: seq<Byte>, k: nat): Byte {
    if k < |data| then data[k] else 0
  }

  // Eight more bits, starting at a byte boundary, are the next byte on top.
  lemma PeekAppend(f: Stream, data: seq<Byte>, pos: nat, n: nat, k: nat)
    requires StreamOf(f, data)
    requires pos + n == 8 * k || (k >= |data| && pos + n >= 8 * |data|)
    ensures Peek(f, pos, n + 8) == Peek(f, pos, n) + Shl(ByteAt(data, k), n)
  {
    PeekAppendBits(f, data, pos, n, k, 0);
  }

  lemma PeekAppendBits(f: Stream, data: seq<Byte>, pos: nat, n: nat, k: nat, j: nat)
    requires StreamOf(f, data)
    requires j <= 8 && (pos + n == 8 * k + j || (k >= |data| && pos + n >= 8 * |data|))
    ensures Peek(f, pos, n + (8 - j)) == Peek(f, pos, n) + Shl(Shr(ByteAt(data, k), j), n)
  {
    PeekSplit(f, pos, n, 8 - j);
    assert Peek(f, pos + n, 8 - j) == Shr(ByteAt(data, k), j) by {
      RestOfByte(f, data, pos + n, k, j);
    }
  }

  lemma RestOfByte(f: Stream, data: seq<Byte>, pos: nat, k: nat, j: nat)
    requires StreamOf(f, data)
    requires j <= 8 && (pos == 8 * k + j || (k >= |data| && pos >= 8 * |data|))
    ensures Peek(f, pos, 8 - j) == Shr(ByteAt(data, k), j)
  {
    if k < |data| {
      BitsOfByte(f, data, k, j);
    } else {
      PeekZeros(f, data, pos, 8 - j);
      ShrZero(j);
    }
  }

  // Past the end of the data a window grows by zeros.
  lemma PeekPad(f: Stream, data: seq<Byte>, pos: nat, n: nat, m: nat)
    requires StreamOf(f, data) && pos + n >= 8 * |data|
    ensures Peek(f, pos, n + m) == Peek(f, pos, n)
  {
    PeekSplit(f, pos, n, m);
    PeekZeros(f, data, pos + n, m);
    ShlZero(n);
  }

  lemma {:induction false} ShrZero(w: nat)
    ensures Shr(0, w) == 0
  {
    if w > 0 {
      ShrZero(w - 1);
    }
  }

  lemma {:induction false} ShrStep(n: nat, w: nat)
    ensures Shr(n, w + 1) == Shr(n, w) / 2
  {
    if w > 0 {
      ShrStep(n / 2, w - 1);
    }
  }

  lemma BitOfByte(data: seq<Byte>, k: nat, j: nat)
    requires k < |data| && j < 8
    ensures Bit(data, 8 * k + j) == Shr(data[k], j) % 2
  {
    assert (8 * k + j) / 8 == k && (8 * k + j) % 8 == j;
  }

  lemma {:induction false} BitsOfByte(f: Stream, data: seq<Byte>, k: nat, j: nat)
    requires StreamOf(f, data) && k < |data| && j <= 8
    ensures Peek(f, 8 * k + j, 8 - j) == Shr(data[k], j)
    decreases 8 - j
  {
    if j == 8 {
      Pow2Small();
      LowOfSmall(data[k], 8);
    } else {
      BitsOfByte(f, data, k, j + 1);
      BitOfByte(data, k, j);
      ShrStep(data[k], j);
      PeekStep(f, 8 * k + j, 8 - j);
    }
  }

  lemma {:induction false} PeekZeros(f: Stream, data: seq<Byte>, pos: nat, n: nat)
    requires StreamOf(f, data) && pos >= 8 * |data|
    ensures Peek(f, pos, n) == 0
    decreases n
  {
    if n != 0 {
      assert Bit(data, pos) == 0;
      PeekStep(f, pos, n);
      PeekZeros(f, data, pos + 1, n - 1);
    }
  }
}
