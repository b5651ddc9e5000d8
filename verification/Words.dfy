// Memory as bytes, read and written in little-endian 64-bit words.
module Words {
  import opened Bits

  const WORD_LIMIT := 0x1_0000_0000_0000_0000

  lemma PowerOf64()
    ensures Pow2(64) == WORD_LIMIT
  {
    hide Pow2;
    Pow2Small();
    SquarePower(16, 0x1_0000);
    SquarePower(32, 0x1_0000_0000);
  }

  lemma SquarePower(n: nat, p: nat)
    requires Pow2(n) == p
    ensures Pow2(2 * n) == p * p
  {
    hide Pow2, Shl;
    Pow2Shl(n, n);
    ShiftsAreArithmetic(p, n);
  }

  lemma SliceOfSlice(s: seq<Byte>, lo: nat, hi: nat, a: nat, n: nat)
    requires lo <= hi <= |s| && lo + a + n <= hi
    ensures s[lo..hi][a..a + n] == s[lo + a..lo + a + n]
  {
    var m := s[lo..hi][a..a + n];
    assert forall j :: 0 <= j < n ==> m[j] == s[lo..hi][a + j];
  }

  function FromLE(b: seq<Byte>): nat {
    if b == [] then 0 else b[0] + 256 * FromLE(b[1..])
  }

  lemma EightBits(n: nat)
    ensures Pow2(n + 8) == 256 * Pow2(n)
  {
    assert Pow2(n + 2) == 4 * Pow2(n);
    assert Pow2(n + 4) == 4 * Pow2(n + 2);
    assert Pow2(n + 6) == 4 * Pow2(n + 4);
  }

  lemma {:induction false} FromLEBound(b: seq<Byte>)
    ensures FromLE(b) < Pow2(8 * |b|)
    decreases |b|
  {
    if b != [] {
      FromLEBound(b[1..]);
      EightBits(8 * |b[1..]|);
    }
  }

  function ToLE(w: nat, n: nat): (b: seq<Byte>)
    ensures |b| == n
  {
    if n == 0 then [] else [w % 256] + ToLE(w / 256, n - 1)
  }

  function Zeros(n: nat): (b: seq<Byte>)
    ensures |b| == n && forall i :: 0 <= i < n ==> b[i] == 0
  {
    seq(n, _ => 0)
  }

  // `w` is below 256 to the power `n`.
  predicate FitsIn(w: nat, n: nat) {
    if n == 0 then w == 0 else FitsIn(w / 256, n - 1)
  }

  lemma WordFits(w: nat)
    requires w < WORD_LIMIT
    ensures FitsIn(w, 8)
  {
    var w1 := w / 256;
    var w2 := w1 / 256;
    var w3 := w2 / 256;
    var w4 := w3 / 256;
    var w5 := w4 / 256;
    var w6 := w5 / 256;
    var w7 := w6 / 256;
    assert w7 / 256 == 0;
    assert FitsIn(w7, 1);
    assert FitsIn(w6, 2);
    assert FitsIn(w5, 3);
    assert FitsIn(w4, 4);
    assert FitsIn(w3, 5);
    assert FitsIn(w2, 6);
    assert FitsIn(w1, 7);
  }

  lemma {:induction false} FromToLE(w: nat, n: nat)
    requires FitsIn(w, n)
    ensures FromLE(ToLE(w, n)) == w
  {
    if n > 0 {
      FromToLE(w / 256, n - 1);
      assert ToLE(w, n)[1..] == ToLE(w / 256, n - 1);
    }
  }

  lemma {:induction false} FromZeros(n: nat)
    ensures FromLE(Zeros(n)) == 0
  {
    if n > 0 {
      FromZeros(n - 1);
      assert Zeros(n)[1..] == Zeros(n - 1);
    }
  }

  // ---- words of a page -----------------------------------------------------

  function WordAt(p: seq<Byte>, i: nat): nat
    requires 8 * i + 8 <= |p|
  {
    FromLE(p[8 * i..8 * i + 8])
  }

  function StoreWord(p: seq<Byte>, i: nat, w: nat): (q: seq<Byte>)
    requires 8 * i + 8 <= |p|
    ensures |q| == |p|
  {
    p[..8 * i] + ToLE(w, 8) + p[8 * i + 8..]
  }

  lemma WordOfStore(p: seq<Byte>, i: nat, w: nat, j: nat)
    requires 8 * i + 8 <= |p| && 8 * j + 8 <= |p| && w < WORD_LIMIT
    ensures WordAt(StoreWord(p, i, w), j) == if i == j then w else WordAt(p, j)
  {
    hide FromLE, ToLE, FitsIn;
    var q := StoreWord(p, i, w);
    if i == j {
      assert q[8 * i..8 * i + 8] == ToLE(w, 8);
      WordFits(w);
      FromToLE(w, 8);
    } else if j < i {
      assert q[8 * j..8 * j + 8] == p[8 * j..8 * j + 8];
    } else {
      assert q[8 * j..8 * j + 8] == p[8 * j..8 * j + 8];
    }
  }

  lemma WordOfZeros(n: nat, i: nat)
    requires 8 * i + 8 <= n
    ensures WordAt(Zeros(n), i) == 0
  {
    hide FromLE;
    assert Zeros(n)[8 * i..8 * i + 8] == Zeros(8);
    FromZeros(8);
  }
}
