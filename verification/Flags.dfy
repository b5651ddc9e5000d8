// Combining page-table bits with | on unsigned 64-bit numbers.
module Flags {
  import opened Bits
  import opened Words

  const FLAG_PRESENT := 1
  const FLAG_WRITE := 2
  const FLAG_USER := 4

  function Or(a: nat, b: nat): nat
    decreases a + b
  {
    if a == 0 && b == 0 then 0
    else (if a % 2 == 1 || b % 2 == 1 then 1 else 0) + 2 * Or(a / 2, b / 2)
  }

  lemma {:induction false} OrShr(a: nat, b: nat, w: nat)
    ensures Shr(Or(a, b), w) == Or(Shr(a, w), Shr(b, w))
    decreases w
  {
    if w > 0 {
      OrShr(a / 2, b / 2, w - 1);
    }
  }

  lemma {:induction false} OrZero(a: nat)
    ensures Or(a, 0) == a && Or(0, a) == a
  {
    if a > 0 {
      OrZero(a / 2);
    }
  }

  lemma ShrIsDivision(n: nat)
    ensures Shr(n, 7) == n / 128 && Shr(n, 12) == n / 4096
  {
    ShrNibble(n);
    ShrNibble(n / 16);
    ShrNibble(n / 256);
    ShrAdd(n, 4, 3);
    ShrAdd(n, 4, 4);
    ShrAdd(n, 8, 4);
    hide Shr;
  }

  lemma ShrNibble(n: nat)
    ensures Shr(n, 3) == n / 8 && Shr(n, 4) == n / 16
  {
    assert Shr(n, 1) == n / 2;
    assert Shr(n / 2, 1) == n / 4;
    assert Shr(n / 4, 1) == n / 8;
  }

  lemma OrParity(a: nat, b: nat)
    ensures a % 2 == 1 || b % 2 == 1 <==> Or(a, b) % 2 == 1
  {
    var rest := if a == 0 && b == 0 then 0 else Or(a / 2, b / 2);
    assert Or(a, b) == (if a % 2 == 1 || b % 2 == 1 then 1 else 0) + 2 * rest;
  }

  lemma OrDivided(a: nat, b: nat)
    ensures Or(a, b) / 4096 == Or(a / 4096, b / 4096)
    ensures Or(a, b) / 128 == Or(a / 128, b / 128)
    ensures a % 2 == 1 || b % 2 == 1 <==> Or(a, b) % 2 == 1
  {
    hide Or, Shr;
    OrParity(a, b);
    OrShr(a, b, 12);
    OrShr(a, b, 7);
    ShrIsDivision(a);
    ShrIsDivision(b);
    ShrIsDivision(Or(a, b));
  }

  lemma {:induction false} ShrAboveZero(n: nat, w: nat)
    requires Shr(n, w) == 0
    ensures n < Pow2(w)
  {
    if w > 0 {
      ShrAboveZero(n / 2, w - 1);
    }
  }

  lemma OrBound(a: nat, b: nat)
    requires a < WORD_LIMIT && b < WORD_LIMIT
    ensures Or(a, b) < WORD_LIMIT
  {
    hide Shr;
    PowerOf64();
    LowOfSmall(a, 64);
    LowOfSmall(b, 64);
    OrShr(a, b, 64);
    ShrAboveZero(Or(a, b), 64);
  }

  // ---- page-table entries --------------------------------------------------

  predicate Present(e: nat) {
    e % 2 == 1
  }

  predicate Huge(e: nat) {
    e / 128 % 2 == 1
  }

  // The entry that points to a table in frame `f`.
  function TableEntry(f: nat): nat {
    Or(Or(f * 4096, FLAG_PRESENT), FLAG_WRITE)
  }

  // The entry that maps the page of physical address `pa`.
  function PageEntry(pa: nat, flags: nat): nat {
    Or(Or(pa / 4096 * 4096, flags), FLAG_PRESENT)
  }

  // The frame that such an entry leads to: flag bits from bit 12 on end up in
  // the frame number.
  function MappedFrame(pa: nat, flags: nat): nat {
    Or(pa / 4096, flags / 4096)
  }

  lemma TableEntryMeaning(f: nat)
    requires f * 4096 < WORD_LIMIT
    ensures var e := TableEntry(f);
            e < WORD_LIMIT && Present(e) && !Huge(e) && e / 4096 == f
  {
    hide Or;
    var e1 := Or(f * 4096, 1);
    OrBound(f * 4096, 1);
    OrBound(e1, 2);
    OrDivided(f * 4096, 1);
    OrDivided(e1, 2);
    OrZero(f);
    OrZero(f * 32);
    assert f * 4096 / 128 == f * 32;
  }

  lemma PageEntryMeaning(pa: nat, flags: nat)
    requires pa < WORD_LIMIT && flags < WORD_LIMIT
    ensures var e := PageEntry(pa, flags);
            e < WORD_LIMIT && Present(e) && e / 4096 == MappedFrame(pa, flags)
  {
    hide Or;
    var p := pa / 4096 * 4096;
    OrBound(p, flags);
    OrBound(Or(p, flags), 1);
    OrDivided(p, flags);
    OrDivided(Or(p, flags), 1);
    OrZero(MappedFrame(pa, flags));
  }

  // Below a number with `w` low bits clear, a number of `w` bits is just added.
  lemma {:induction false} OrBelow(a: nat, b: nat, w: nat)
    requires b < Pow2(w)
    ensures Or(Shl(a, w), b) == Shl(a, w) + b
    decreases w
  {
    if w == 0 {
      OrZero(a);
    } else {
      OrBelow(a, b / 2, w - 1);
    }
  }

  // The bits of the entries: a table is present and writable; a page has the frame
  // and the flags asked for, and is present.
  lemma EntryBits(f: nat, pa: nat, flags: nat)
    ensures TableEntry(f) == 4096 * f + 3
    ensures flags < 4096 ==> PageEntry(pa, flags) == 4096 * (pa / 4096) + (if flags % 2 == 1 then flags else flags + 1)
  {
    hide Or;
    TableBits(f);
    if flags < 4096 {
      PageBits(pa / 4096, flags);
    }
  }

  lemma TableBits(f: nat)
    ensures Or(Or(f * 4096, 1), 2) == 4096 * f + 3
  {
    hide Or;
    TwelveBits(f, 1);
    SetSecond(4096 * f + 1);
    assert (4096 * f + 1) / 2 == 2 * (1024 * f);
  }

  lemma PageBits(p: nat, flags: nat)
    requires flags < 4096
    ensures Or(Or(p * 4096, flags), 1) == 4096 * p + (if flags % 2 == 1 then flags else flags + 1)
  {
    hide Or;
    TwelveBits(p, flags);
    SetFirst(4096 * p + flags);
    assert (4096 * p + flags) % 2 == flags % 2 by {
      assert 4096 * p + flags == 2 * (2048 * p) + flags;
    }
  }

  lemma TwelveBits(a: nat, b: nat)
    requires b < 4096
    ensures Or(4096 * a, b) == 4096 * a + b && Or(a * 4096, b) == a * 4096 + b
  {
    hide Shl;
    Pow2Small();
    assert Pow2(12) == 4096 by {
      assert Pow2(10) == 1024;
    }
    ShiftsAreArithmetic(a, 12);
    OrBelow(a, b, 12);
  }

  // Setting one of the two lowest bits.
  lemma SetFirst(a: nat)
    ensures Or(a, 1) == if a % 2 == 1 then a else a + 1
  {
    OrZero(a / 2);
  }

  lemma SetSecond(a: nat)
    ensures Or(a, 2) == if a / 2 % 2 == 1 then a else a + 2
  {
    SetFirst(a / 2);
  }

  // A page is mapped to its own frame exactly when the flags above bit 11 are
  // already set in the address; flags in the low twelve bits always are fine.
  lemma MappedFrameIsExact(pa: nat, flags: nat)
    ensures MappedFrame(pa, flags) == pa / 4096 <==> OrAbsorbs(pa / 4096, flags / 4096)
    ensures flags < 4096 ==> MappedFrame(pa, flags) == pa / 4096
  {
    OrAbsorbsIff(pa / 4096, flags / 4096);
    OrZero(pa / 4096);
  }

  // Every bit of `b` is a bit of `a`.
  predicate OrAbsorbs(a: nat, b: nat) {
    b == 0 || ((b % 2 == 1 ==> a % 2 == 1) && OrAbsorbs(a / 2, b / 2))
  }

  lemma {:induction false} OrAbsorbsIff(a: nat, b: nat)
    ensures Or(a, b) == a <==> OrAbsorbs(a, b)
    decreases b
  {
    if b == 0 {
      OrZero(a);
    } else {
      OrAbsorbsIff(a / 2, b / 2);
    }
  }
}
