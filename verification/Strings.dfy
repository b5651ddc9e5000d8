// Reading a number from text, and moving elements.
module Strings {
  import opened Numbers

  // The number at the start of a text, and where it ends. Sums are kept in 64
  // bits.
  method Strtol(s: string, base: nat) returns (v: int, end: nat)
    ensures (v, end) == Read(s, base)
  {
    hide DigitOf, ReadSigned, ReadUnsigned, DigitCount, Sum64, SkipBlanks, BaseOf, Wrap64;
    var i := PastBlanks(s);
    SignedIs(s[i..], base);
    var neg := false;
    var from := i;
    if from < |s| && s[from] == '-' {
      neg := true;
      from := from + 1;
    } else if from < |s| && s[from] == '+' {
      from := from + 1;
    }
    assert from == i + 1 ==> s[from..] == s[i..][1..];
    var b, start := PastPrefix(s, from, base);
    UnsignedIs(s[from..], base, b, start - from);
    assert s[start..] == s[from..][start - from..];
    v, end := SumDigits(s, start, b);
    if neg {
      v := Wrap64(-v);
    }
  }

  method PastBlanks(s: string) returns (i: nat)
    ensures i == SkipBlanks(s) <= |s|
  {
    i := 0;
    assert s[0..] == s;
    while i < |s| && (s[i] == ' ' || s[i] == '\t')
      invariant i <= |s| && SkipBlanks(s) == i + SkipBlanks(s[i..])
    {
      assert s[i..][1..] == s[i + 1..];
      i := i + 1;
    }
  }

  lemma SignedIs(s: string, base: nat)
    ensures ReadSigned(s, base) ==
      if s != "" && (s[0] == '-' || s[0] == '+') then
        var (v, n) := ReadUnsigned(s[1..], base); (if s[0] == '-' then Wrap64(-v) else v, 1 + n)
      else ReadUnsigned(s, base)
  {
    hide ReadUnsigned, Wrap64;
  }

  lemma UnsignedIs(s: string, base: nat, b: nat, prefix: nat)
    requires BaseOf(s, base) == (b, prefix) && prefix <= |s|
    ensures var digits := s[prefix..];
            ReadUnsigned(s, base) == (Sum64(digits[..DigitCount(digits, b)], b), prefix + DigitCount(digits, b))
  {
    hide DigitCount, Sum64, BaseOf;
  }

  // The base to read in, and where the digits start.
  method PastPrefix(s: string, from: nat, base: nat) returns (b: nat, i: nat)
    requires from <= |s|
    ensures from <= i <= |s| && BaseOf(s[from..], base) == (b, i - from)
  {
    b, i := base, from;
    if base == 0 {
      if HasHexPrefix(s[from..]) {
        b, i := 16, i + 2;
      } else if from < |s| && s[from] == '0' {
        b, i := 8, i + 1;
      } else {
        b := 10;
      }
    } else if base == 16 && HasHexPrefix(s[from..]) {
      i := i + 2;
    }
  }

  // Sums the digits from `start` on; `i` is where they end.
  method SumDigits(s: string, start: nat, b: nat) returns (v: int, i: nat)
    requires start <= |s|
    ensures var digits := s[start..];
            && i == start + DigitCount(digits, b) <= |s|
            && v == Sum64(digits[..DigitCount(digits, b)], b)
  {
    hide DigitOf, DigitCount, Sum64, Wrap64;
    ghost var digits := s[start..];
    v, i := 0, start;
    NoDigits(digits, b);
    while i < |s|
      invariant start <= i <= |s| && v == Sum64(digits[..i - start], b)
      invariant DigitCount(digits, b) == (i - start) + DigitCount(digits[i - start..], b)
    {
      var d := DigitOf(s[i]);
      CountStep(digits, b, i - start);
      if d == 16 || d >= b {
        return;
      }
      v := Wrap64(v * b + d);
      i := i + 1;
    }
    NoneAtEnd(digits, b);
  }

  lemma NoDigits(digits: string, b: nat)
    ensures Sum64(digits[..0], b) == 0 && digits[0..] == digits
  {
  }

  lemma NoneAtEnd(digits: string, b: nat)
    ensures DigitCount(digits[|digits|..], b) == 0
  {
  }

  lemma CountStep(digits: string, b: nat, k: nat)
    requires k < |digits|
    ensures DigitCount(digits[k..], b) ==
      if DigitOf(digits[k]) < 16 && DigitOf(digits[k]) < b then 1 + DigitCount(digits[k + 1..], b) else 0
    ensures DigitOf(digits[k]) <= 16
    ensures Sum64(digits[..k + 1], b) == Wrap64(Sum64(digits[..k], b) * b + DigitOf(digits[k]))
  {
    hide DigitOf, Wrap64;
    assert digits[k..][1..] == digits[k + 1..];
    assert digits[..k + 1][..k] == digits[..k];
  }

  // Copies `n` elements from `s` to `d` within an array; the ranges may overlap.
  method MemMove<T>(a: array<T>, d: nat, s: nat, n: nat)
    requires d + n <= a.Length && s + n <= a.Length
    modifies a
    ensures a[d..d + n] == old(a[s..s + n])
    ensures a[..d] == old(a[..d]) && a[d + n..] == old(a[d + n..])
  {
    ghost var was := a[..];
    if d < s {
      var i := 0;
      while i < n
        invariant 0 <= i <= n
        invariant forall k {:trigger a[k]} :: 0 <= k < a.Length ==>
          a[k] == if d <= k < d + i then was[k - d + s] else was[k]
      {
        a[d + i] := a[s + i];
        i := i + 1;
      }
    } else {
      var i := n;
      while i > 0
        invariant 0 <= i <= n
        invariant forall k {:trigger a[k]} :: 0 <= k < a.Length ==>
          a[k] == if d + i <= k < d + n then was[k - d + s] else was[k]
      {
        i := i - 1;
        a[d + i] := a[s + i];
      }
    }
  }
}
