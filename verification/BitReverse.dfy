// Reversing 16 bits by swapping neighbouring groups, and its meaning on numbers.
module BitReverse {
  import opened Bits

  // Swaps single bits, then pairs, nibbles and bytes.
  function SwapGroups(n: bv16): bv16 {
    var n1 := ((n & 0xAAAA) >> 1) | ((n & 0x5555) << 1);
    var n2 := ((n1 & 0xCCCC) >> 2) | ((n1 & 0x3333) << 2);
    var n3 := ((n2 & 0xF0F0) >> 4) | ((n2 & 0x0F0F) << 4);
    ((n3 & 0xFF00) >> 8) | ((n3 & 0x00FF) << 8)
  }

  // The low `w` bits of a number as a bit vector.
  function ToBits(n: nat, w: nat): bv16 {
    if w == 0 then 0 else (ToBits(n / 2, w - 1) << 1) | (if n % 2 == 1 then 1 else 0)
  }

  // The number that the top `w` bits write, highest bit first.
  function Value(v: bv16, w: nat): nat
    decreases w
  {
    if w == 0 then 0
    else (if v & 0x8000 != 0 then Pow2(w - 1) else 0) + Value(v << 1, w - 1)
  }

  function BitReverse16(n: nat): nat {
    Value(SwapGroups(ToBits(n, 16)), 16)
  }

  // Reversing `bits` bits: reverse 16 and shift the rest away.
  function Reverse(v: nat, bits: nat): nat
    requires bits <= 16
  {
    Shr(BitReverse16(v), 16 - bits)
  }

  // The low `w` bits of `u` are those of `n`.
  predicate Agree(u: bv16, n: nat, w: nat)
    decreases w
  {
    w == 0 || ((u & 1 == 1) == (n % 2 == 1) && Agree(u >> 1, n / 2, w - 1))
  }

  function HighMask(w: nat): bv16 {
    if w == 0 then 0xFFFF else HighMask(w - 1) << 1
  }

  lemma {:induction false} HighMaskShrinks(w: nat)
    ensures HighMask(w) & HighMask(w + 1) == HighMask(w + 1)
  {
    if w > 0 {
      HighMaskShrinks(w - 1);
    }
  }

  lemma {:induction false} HighMaskTop(w: nat, k: nat)
    requires w + k == 15
    ensures HighMask(w) & 0x8000 == 0x8000
    decreases k
  {
    if k > 0 {
      HighMaskTop(w + 1, k - 1);
      HighMaskShrinks(w);
    } else {
      assert HighMask(15) == 0x8000;
    }
  }

  lemma {:induction false} ToBitsIsShort(n: nat, w: nat)
    ensures ToBits(n, w) & HighMask(w) == 0
  {
    if w > 0 {
      ToBitsIsShort(n / 2, w - 1);
    }
  }

  lemma {:induction false} ToBitsAgrees(n: nat, w: nat)
    requires w <= 16
    ensures Agree(ToBits(n, w), n, w)
  {
    if w > 0 {
      ToBitsAgrees(n / 2, w - 1);
      ToBitsIsShort(n / 2, w - 1);
      HighMaskTop(w - 1, 16 - w);
      UndoShift(ToBits(n / 2, w - 1), HighMask(w - 1));
    }
  }

  lemma UndoShift(u: bv16, m: bv16)
    requires u & m == 0 && m & 0x8000 == 0x8000
    ensures (u << 1) >> 1 == u && ((u << 1) | 1) >> 1 == u
  {
  }

  // Swapping groups turns the order around: the first bit becomes the last, and
  // dropping it before or after the swap is the same.
  lemma SwapStep(u: bv16)
    ensures (SwapGroups(u) & 0x8000 != 0) == (u & 1 == 1)
    ensures SwapGroups(u) << 1 == SwapGroups(u >> 1)
  {
  }

  lemma {:induction false} SwapIsRev(u: bv16, n: nat, w: nat)
    requires Agree(u, n, w)
    ensures Value(SwapGroups(u), w) == Rev(n, w)
    decreases w
  {
    if w > 0 {
      SwapStep(u);
      SwapIsRev(u >> 1, n / 2, w - 1);
    }
  }

  // The mask-and-shift form reverses the low bits of any number.
  lemma ReverseIsRev(v: nat, bits: nat)
    requires bits <= 16
    ensures Reverse(v, bits) == Rev(v, bits)
  {
    ToBitsAgrees(v, 16);
    SwapIsRev(ToBits(v, 16), v, 16);
    RevPrefix(v, 16, bits);
  }
}
