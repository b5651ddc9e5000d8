// Bits read from the top: the entropy-coded bytes of a JPEG scan.
module JpegBits {
  import opened Bits

  // The next `n` bits at `pos` as a number, first bit highest.
  function V(f: Stream, pos: nat, n: nat): nat {
    if n == 0 then 0 else 2 * V(f, pos, n - 1) + f(pos + n - 1)
  }

  lemma {:induction false} VBound(f: Stream, pos: nat, n: nat)
    ensures V(f, pos, n) < Pow2(n)
  {
    if n > 0 {
      VBound(f, pos, n - 1);
    }
  }

  lemma {:induction false} ShlAdd(a: nat, b: nat, w: nat)
    ensures Shl(a + b, w) == Shl(a, w) + Shl(b, w)
  {
    if w > 0 {
      ShlAdd(a, b, w - 1);
    }
  }

  lemma {:induction false} ShlShl(a: nat, v: nat, w: nat)
    ensures Shl(Shl(a, v), w) == Shl(a, v + w)
  {
    if w > 0 {
      ShlShl(a, v, w - 1);
    }
  }

  // A longer number is a shorter one with the rest below it.
  lemma {:induction false} VSplit(f: Stream, pos: nat, a: nat, b: nat)
    ensures V(f, pos, a + b) == Shl(V(f, pos, a), b) + V(f, pos + a, b)
    decreases b
  {
    if b > 0 {
      VSplit(f, pos, a, b - 1);
    }
  }

  lemma {:induction false} SplitParts(x: nat, w: nat, y: nat)
    requires y < Pow2(w)
    ensures Shr(Shl(x, w) + y, w) == x && Low(Shl(x, w) + y, w) == y
    decreases w
  {
    if w > 0 {
      assert Shl(x, w) == 2 * Shl(x, w - 1);
      assert (Shl(x, w) + y) / 2 == Shl(x, w - 1) + y / 2 && (Shl(x, w) + y) % 2 == y % 2;
      SplitParts(x, w - 1, y / 2);
    }
  }

  lemma VParts(f: Stream, pos: nat, a: nat, b: nat)
    ensures Shr(V(f, pos, a + b), b) == V(f, pos, a)
    ensures Low(V(f, pos, a + b), b) == V(f, pos + a, b)
  {
    VSplit(f, pos, a, b);
    VBound(f, pos + a, b);
    SplitParts(V(f, pos, a), b, V(f, pos + a, b));
  }

  // ---- the entropy-coded bytes ---------------------------------------------

  // The first place from `q` on that does not hold 0xFF.
  function SkipFill(data: seq<Byte>, q: nat): (r: nat)
    ensures r >= q && ByteAt(data, r) != 255
    decreases |data| - q
  {
    if ByteAt(data, q) == 255 then SkipFill(data, q + 1) else q
  }

  // The bytes up to the next marker, each stuffed zero left out.
  function Entropy(data: seq<Byte>, at: nat): seq<Byte>
    decreases |data| - at
  {
    if at >= |data| then []
    else if data[at] != 255 then [data[at]] + Entropy(data, at + 1)
    else
      var q := SkipFill(data, at + 1);
      if ByteAt(data, q) == 0 then [255] + Entropy(data, q + 1) else []
  }

  // How bytes are written: a zero byte is put behind each 0xFF.
  function Stuffed(bytes: seq<Byte>): seq<Byte> {
    if bytes == [] then []
    else if bytes[0] == 255 then [255, 0] + Stuffed(bytes[1..])
    else [bytes[0]] + Stuffed(bytes[1..])
  }

  // Nothing, or a marker: 0xFF, maybe more of them, and a byte that is not zero.
  predicate IsMarker(rest: seq<Byte>) {
    rest == [] || (rest[0] == 255 && ByteAt(rest, SkipFill(rest, 1)) != 0)
  }

  // Stuffed bytes are read as they were, up to a marker or the end.
  lemma {:induction false} StuffedIsRead(before: seq<Byte>, bytes: seq<Byte>, rest: seq<Byte>)
    requires IsMarker(rest)
    ensures Entropy(before + Stuffed(bytes) + rest, |before|) == bytes
    decreases |bytes|
  {
    var data := before + Stuffed(bytes) + rest;
    if bytes == [] {
      assert data == before + rest;
      EndsAtMarker(before, rest);
    } else {
      hide Entropy, IsMarker;
      var first := if bytes[0] == 255 then [255, 0] else [bytes[0]];
      assert data == (before + first) + Stuffed(bytes[1..]) + rest;
      StuffedIsRead(before + first, bytes[1..], rest);
      assert data[|before|] == bytes[0] && (bytes[0] == 255 ==> data[|before| + 1] == 0);
      EntropyOfByte(data, |before|);
      assert bytes == [bytes[0]] + bytes[1..];
    }
  }

  lemma EntropyOfByte(data: seq<Byte>, at: nat)
    requires at < |data|
    ensures data[at] != 255 ==> Entropy(data, at) == [data[at]] + Entropy(data, at + 1)
    ensures data[at] == 255 && at + 1 < |data| && data[at + 1] == 0 ==>
      Entropy(data, at) == [255] + Entropy(data, at + 2)
  {
  }

  lemma EndsAtMarker(before: seq<Byte>, rest: seq<Byte>)
    requires IsMarker(rest)
    ensures Entropy(before + rest, |before|) == []
  {
    SkipFillLater(before, rest, 1);
  }

  lemma {:induction false} SkipFillLater(before: seq<Byte>, rest: seq<Byte>, q: nat)
    ensures SkipFill(before + rest, |before| + q) == |before| + SkipFill(rest, q)
    ensures ByteAt(before + rest, |before| + q) == ByteAt(rest, q)
    ensures ByteAt(before + rest, SkipFill(before + rest, |before| + q)) == ByteAt(rest, SkipFill(rest, q))
    decreases |rest| - q
  {
    if ByteAt(rest, q) == 255 {
      SkipFillLater(before, rest, q + 1);
    }
  }

  // The bits of the bytes, highest first, and zeros after them.
  function BitsOf(bytes: seq<Byte>): Stream {
    (k: nat) => if k / 8 < |bytes| then Shr(bytes[k / 8], 7 - k % 8) % 2 else 0
  }

  lemma ByteBits(bytes: seq<Byte>, k: nat, j: nat)
    requires j < 8
    ensures BitsOf(bytes)(8 * k + j) == Shr(ByteAt(bytes, k), 7 - j) % 2
  {
    assert (8 * k + j) / 8 == k && (8 * k + j) % 8 == j;
    ShrZero(7 - j);
  }

  lemma {:induction false} VOfByte(bytes: seq<Byte>, k: nat, j: nat)
    requires j <= 8
    ensures V(BitsOf(bytes), 8 * k, j) == Shr(ByteAt(bytes, k), 8 - j)
    decreases j
  {
    var b := ByteAt(bytes, k);
    if j == 0 {
      Pow2Small();
      LowOfSmall(b, 8);
    } else {
      VOfByte(bytes, k, j - 1);
      ByteBits(bytes, k, j - 1);
      ShrStep(b, 8 - j);
      hide Shr;
      assert Shr(b, 8 - j) == 2 * (Shr(b, 8 - j) / 2) + Shr(b, 8 - j) % 2;
    }
  }

  lemma WholeByte(bytes: seq<Byte>, k: nat)
    ensures V(BitsOf(bytes), 8 * k, 8) == ByteAt(bytes, k)
  {
    VOfByte(bytes, k, 8);
    hide V, BitsOf, ByteAt;
    assert Shr(ByteAt(bytes, k), 0) == ByteAt(bytes, k);
  }

  // One more byte, below the bits at hand.
  lemma AppendByte(bytes: seq<Byte>, pos: nat, n: nat, k: nat)
    requires pos + n == 8 * k && n <= 24
    ensures Shl(V(BitsOf(bytes), pos, n + 8), 24 - n) ==
            Shl(V(BitsOf(bytes), pos, n), 32 - n) + Shl(ByteAt(bytes, k), 24 - n)
  {
    var x, b := V(BitsOf(bytes), pos, n), ByteAt(bytes, k);
    hide V, Shl, Shr, BitsOf, ByteAt;
    VSplit(BitsOf(bytes), pos, n, 8);
    WholeByte(bytes, k);
    ShlAdd(Shl(x, 8), b, 24 - n);
    ShlShl(x, 8, 24 - n);
  }

  // Past the end there are only zeros.
  lemma {:induction false} ZerosAfter(bytes: seq<Byte>, pos: nat, n: nat)
    requires pos >= 8 * |bytes|
    ensures V(BitsOf(bytes), pos, n) == 0
  {
    if n > 0 {
      ZerosAfter(bytes, pos, n - 1);
    }
  }

  // The top bits of a buffer of `n` bits: of those there, or zeros after the end.
  lemma TopOfBuffer(bytes: seq<Byte>, pos: nat, n: nat, m: nat)
    requires n <= 32 && m <= 32 && (m <= n || pos + n >= 8 * |bytes|)
    ensures Shr(Shl(V(BitsOf(bytes), pos, n), 32 - n), 32 - m) == V(BitsOf(bytes), pos, m)
  {
    hide V, Shl, Shr, BitsOf;
    var f := BitsOf(bytes);
    var x := V(f, pos, n);
    if m <= n {
      ShrAdd(Shl(x, 32 - n), 32 - n, n - m);
      ShrShl(x, 32 - n);
      VParts(f, pos, m, n - m);
    } else {
      VSplit(f, pos, n, m - n);
      ZerosAfter(bytes, pos + n, m - n);
      ShlShl(x, m - n, 32 - m);
      ShrShl(Shl(x, m - n), 32 - m);
    }
  }

  // Shifting `m` bits out of the top.
  lemma ShiftOut(f: Stream, pos: nat, n: nat, m: nat)
    requires m <= n <= 32
    ensures Shl(Low(Shl(V(f, pos, n), 32 - n), 32 - m), m) == Shl(V(f, pos + m, n - m), 32 - (n - m))
  {
    hide V, Shl, Shr, Low;
    var x := V(f, pos, n);
    VParts(f, pos, m, n - m);
    LowOfShl(x, 32 - n, n - m);
    assert (32 - n) + (n - m) == 32 - m;
    ShlShl(V(f, pos + m, n - m), 32 - n, m);
  }

  lemma {:induction false} LowOfShl(x: nat, w: nat, k: nat)
    ensures Low(Shl(x, w), w + k) == Shl(Low(x, k), w)
    decreases w
  {
    if w > 0 {
      assert Shl(x, w) == 2 * Shl(x, w - 1);
      LowOfShl(x, w - 1, k);
    }
  }
}
