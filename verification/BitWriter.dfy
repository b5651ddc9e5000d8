// Lists of bits, and numbers written in them.
module BitWriter {
  import opened Bits

  type BitList = seq<BitValue>

  ghost predicate BitsAt(f: Stream, pos: nat, bits: BitList) {
    forall k :: 0 <= k < |bits| ==> f(pos + k) == bits[k]
  }

  lemma BitsAtSplit(f: Stream, pos: nat, a: BitList, b: BitList)
    requires BitsAt(f, pos, a + b)
    ensures BitsAt(f, pos, a) && BitsAt(f, pos + |a|, b)
  {
    forall k | 0 <= k < |a|
      ensures f(pos + k) == a[k]
    {
      assert (a + b)[k] == a[k];
    }
    forall k | 0 <= k < |b|
      ensures f(pos + |a| + k) == b[k]
    {
      assert (a + b)[|a| + k] == b[k];
      assert f(pos + (|a| + k)) == b[k];
    }
  }

  // A number of `n` bits, lowest bit first.
  function NumberBits(v: nat, n: nat): (r: BitList)
    ensures |r| == n
  {
    if n == 0 then [] else [v % 2] + NumberBits(v / 2, n - 1)
  }

  lemma {:induction false} PeekNumber(f: Stream, pos: nat, v: nat, n: nat)
    requires v < Pow2(n) && BitsAt(f, pos, NumberBits(v, n))
    ensures Peek(f, pos, n) == v
    decreases n
  {
    if n > 0 {
      BitsAtSplit(f, pos, [v % 2], NumberBits(v / 2, n - 1));
      assert [v % 2][0] == v % 2;
      PeekNumber(f, pos + 1, v / 2, n - 1);
      PeekStep(f, pos, n);
    }
  }
}
