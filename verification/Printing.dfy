// Formatting a number into a buffer.
module Printing {
  import opened Arith
  import opened Bits
  import opened Words
  import opened Numbers
  import opened Strings

  // A number below 2 to the power n has at most n digits.
  lemma {:induction false} DigitsBound(val: nat, base: nat, upper: bool, n: nat)
    requires IsBase(base) && n >= 1 && val < Pow2(n)
    ensures |Digits(val, base, upper)| <= n
    decreases n
  {
    if val >= base {
      assert Pow2(n) == 2 * Pow2(n - 1);
      assert Pow2(0) == 1;
      HalfAtMost(val, base);
      DigitsBound(val / base, base, upper, n - 1);
    }
  }

  lemma HalfAtMost(val: nat, base: nat)
    requires IsBase(base)
    ensures 2 * (val / base) <= val
  {
    var q := val / base;
    assert val == base * q + val % base;
    MulOrder(2, base, q);
  }

  // `now` is `was` with `w` written at `pos`.
  ghost predicate Wrote(was: string, now: string, pos: nat, w: string) {
    pos + |w| <= |was| && now == was[..pos] + w + was[pos + |w|..]
  }

  lemma WroteMore(s: string, t: string, u: string, pos: nat, v: string, w: string)
    requires Wrote(s, t, pos, v) && Wrote(t, u, pos + |v|, w) && pos + |v| + |w| <= |s|
    ensures Wrote(s, u, pos, v + w)
  {
    var end := pos + |v|;
    assert t[..end] == s[..pos] + v;
    assert t[end + |w|..] == s[end + |w|..];
  }

  // The digits of a number, last digit first, in a buffer of their own.
  method CollectDigits(val: nat, base: nat, upper: bool) returns (tmp: array<char>, len: nat)
    requires IsBase(base) && val < WORD_LIMIT
    ensures fresh(tmp) && tmp.Length == 66 && len <= 64 && len == |Digits(val, base, upper)|
    ensures forall i :: 0 <= i < len ==> tmp[i] == Digits(val, base, upper)[len - 1 - i]
  {
    hide DigitChar, Pow2, Digits;
    PowerOf64();
    DigitsBound(val, base, upper, 64);
    tmp := new char[66];
    len := 0;
    if val == 0 {
      tmp[0] := '0';
      len := 1;
      ZeroDigit(upper);
      return;
    }
    ghost var all := Digits(val, base, upper);
    var rest: nat := val;
    while rest != 0
      invariant len <= |all| <= 64
      invariant if rest == 0 then len == |all| else Digits(rest, base, upper) == all[..|all| - len]
      invariant forall i :: 0 <= i < len ==> tmp[i] == all[|all| - 1 - i]
      decreases rest
    {
      OneDigit(rest, base, upper);
      ghost var d := Digits(rest, base, upper);
      assert all[|all| - 1 - len] == d[|d| - 1];
      assert |d| > 1 ==> all[..|all| - len - 1] == d[..|d| - 1];
      tmp[len] := DigitChar(rest % base, upper);
      len := len + 1;
      rest := rest / base;
    }
  }

  lemma ZeroDigit(upper: bool)
    ensures forall base :: IsBase(base) ==> Digits(0, base, upper) == "0"
  {
  }

  lemma OneDigit(rest: nat, base: nat, upper: bool)
    requires IsBase(base) && rest > 0
    ensures var d := Digits(rest, base, upper);
            && d[|d| - 1] == DigitChar(rest % base, upper) && rest / base < rest
            && (rest / base == 0 <==> |d| == 1)
            && (rest / base > 0 ==> d[..|d| - 1] == Digits(rest / base, base, upper))
  {
    hide DigitChar;
    HalfAtMost(rest, base);
    if rest < base {
      DivModUnique(rest, base, 0, rest);
    } else {
      assert rest == base * (rest / base) + rest % base;
      MulOrder(rest / base, 0, base);
    }
  }

  // Writes a character `n` times.
  method PutFill(buf: array<char>, pos: nat, c: char, n: nat) returns (end: nat)
    requires pos + n <= buf.Length
    modifies buf
    ensures end == pos + n && Wrote(old(buf[..]), buf[..], pos, Fill(c, n))
  {
    end := pos;
    for i := 0 to n
      invariant end == pos + i
      invariant forall k :: 0 <= k < buf.Length ==> buf[k] == if pos <= k < pos + i then c else old(buf[k])
    {
      buf[end] := c;
      end := end + 1;
    }
    assert buf[..] == old(buf[..])[..pos] + Fill(c, n) + old(buf[..])[pos + n..];
  }

  method PutText(buf: array<char>, pos: nat, w: string) returns (end: nat)
    requires pos + |w| <= buf.Length
    modifies buf
    ensures end == pos + |w| && Wrote(old(buf[..]), buf[..], pos, w)
  {
    end := pos;
    for i := 0 to |w|
      invariant end == pos + i
      invariant forall k :: 0 <= k < buf.Length ==> buf[k] == if pos <= k < pos + i then w[k - pos] else old(buf[k])
    {
      buf[end] := w[i];
      end := end + 1;
    }
    assert buf[..] == old(buf[..])[..pos] + w + old(buf[..])[pos + |w|..];
  }

  // The collected digits, backwards.
  method PutDigits(buf: array<char>, pos: nat, tmp: array<char>, len: nat, ghost digits: string) returns (end: nat)
    requires pos + len <= buf.Length && len == |digits| && len <= tmp.Length && tmp != buf
    requires forall i :: 0 <= i < len ==> tmp[i] == digits[len - 1 - i]
    modifies buf
    ensures end == pos + len && Wrote(old(buf[..]), buf[..], pos, digits)
  {
    end := pos;
    var i := len - 1;
    while i >= 0
      invariant -1 <= i < len && end == pos + (len - 1 - i)
      invariant forall k {:trigger buf[k]} :: 0 <= k < buf.Length ==>
        buf[k] == if pos <= k < end then digits[k - pos] else old(buf[k])
    {
      assert tmp[i] == digits[len - 1 - i];
      buf[end] := tmp[i];
      end := end + 1;
      i := i - 1;
    }
    assert buf[..] == old(buf[..])[..pos] + digits + old(buf[..])[pos + len..];
  }

  // The five pieces of a number one after another.
  ghost predicate Pieces(val: nat, f: Format, negative: bool, blanks: nat, sign: string, zeros: nat, behind: nat)
    requires IsBase(f.base)
  {
    && sign == Sign(negative, f.plus)
    && Printed(val, f, negative) ==
         Fill(' ', blanks) + sign + Fill('0', zeros) + Digits(val, f.base, f.upper) + Fill(' ', behind)
  }

  // How much padding goes where.
  method PadAround(val: nat, f: Format, negative: bool, len: nat)
    returns (blanks: nat, sign: string, zeros: nat, behind: nat)
    requires IsBase(f.base) && len == |Digits(val, f.base, f.upper)|
    ensures Pieces(val, f, negative, blanks, sign, zeros, behind)
  {
    hide Digits, Fill;
    sign := if negative then "-" else if f.plus then "+" else "";
    var total := len + |sign|;
    var padding: nat := if f.width > total then f.width - total else 0;
    blanks := if !f.left && f.pad == ' ' then padding else 0;
    zeros := if !f.left && f.pad == '0' then padding else 0;
    behind := if f.left then padding else 0;
  }

  lemma WroteTwo(s: string, t: string, u: string, pos: nat, v: string, w: string, all: string)
    requires Wrote(s, t, pos, v) && Wrote(t, u, pos + |v|, w) && all == v + w && pos + |all| <= |s|
    ensures Wrote(s, u, pos, all)
  {
    WroteMore(s, t, u, pos, v, w);
  }

  method PutFillText(buf: array<char>, pos: nat, c: char, n: nat, w: string) returns (end: nat)
    requires pos + n + |w| <= buf.Length
    modifies buf
    ensures end == pos + n + |w| && Wrote(old(buf[..]), buf[..], pos, Fill(c, n) + w)
  {
    hide Wrote, Fill;
    ghost var was := buf[..];
    end := PutFill(buf, pos, c, n);
    ghost var mid := buf[..];
    end := PutText(buf, end, w);
    WroteMore(was, mid, buf[..], pos, Fill(c, n), w);
  }

  method PutDigitsFill(buf: array<char>, pos: nat, tmp: array<char>, len: nat, ghost digits: string, c: char, n: nat)
    returns (end: nat)
    requires pos + len + n <= buf.Length && len == |digits| && len <= tmp.Length && tmp != buf
    requires forall i :: 0 <= i < len ==> tmp[i] == digits[len - 1 - i]
    modifies buf
    ensures end == pos + len + n && Wrote(old(buf[..]), buf[..], pos, digits + Fill(c, n))
  {
    hide Wrote, Fill;
    ghost var was := buf[..];
    end := PutDigits(buf, pos, tmp, len, digits);
    ghost var mid := buf[..];
    end := PutFill(buf, end, c, n);
    WroteMore(was, mid, buf[..], pos, digits, Fill(c, n));
  }

  lemma Joined(a: string, b: string, c: string, d: string, e: string)
    ensures a + b + c + d + e == (a + b) + (c + (d + e))
  {
  }

  // Writes a number at `pos`; the buffer has room for all of it.
  method FmtUint(buf: array<char>, pos: nat, val: nat, f: Format, negative: bool) returns (end: nat)
    requires IsBase(f.base) && val < WORD_LIMIT && pos + |Printed(val, f, negative)| <= buf.Length
    modifies buf
    ensures end == pos + |Printed(val, f, negative)| && Wrote(old(buf[..]), buf[..], pos, Printed(val, f, negative))
  {
    hide Digits, Wrote, Fill, Printed;
    ghost var was := buf[..];
    ghost var digits := Digits(val, f.base, f.upper);
    var tmp, len := CollectDigits(val, f.base, f.upper);
    var blanks, sign, zeros, behind := PadAround(val, f, negative, len);
    Joined(Fill(' ', blanks), sign, Fill('0', zeros), digits, Fill(' ', behind));
    end := PutFillText(buf, pos, ' ', blanks, sign);
    ghost var mid := buf[..];
    end := PutRest(buf, end, zeros, tmp, len, digits, behind);
    WroteTwo(was, mid, buf[..], pos, Fill(' ', blanks) + sign, Fill('0', zeros) + (digits + Fill(' ', behind)),
             Printed(val, f, negative));
  }

  // Zeros, digits, and the blanks behind.
  method PutRest(buf: array<char>, pos: nat, zeros: nat, tmp: array<char>, len: nat, ghost digits: string, behind: nat)
    returns (end: nat)
    requires pos + zeros + len + behind <= buf.Length && len == |digits| && len <= tmp.Length && tmp != buf
    requires forall i :: 0 <= i < len ==> tmp[i] == digits[len - 1 - i]
    modifies buf
    ensures end == pos + zeros + len + behind
    ensures Wrote(old(buf[..]), buf[..], pos, Fill('0', zeros) + (digits + Fill(' ', behind)))
  {
    hide Wrote, Fill;
    ghost var was := buf[..];
    end := PutFill(buf, pos, '0', zeros);
    ghost var mid := buf[..];
    end := PutDigitsFill(buf, end, tmp, len, digits, ' ', behind);
    WroteMore(was, mid, buf[..], pos, Fill('0', zeros), digits + Fill(' ', behind));
  }

  // Printing and then reading: the number comes back exactly when 64 bits,
  // signed, can hold it.
  method PrintThenRead(buf: array<char>, pos: nat, val: nat, f: Format, negative: bool) returns (v: int, end: nat)
    requires IsBase(f.base) && (f.pad == ' ' || f.pad == '0') && val < WORD_LIMIT
    requires pos + |Printed(val, f, negative)| <= buf.Length
    modifies buf
    ensures v == Signed(val, negative) <==> val < HALF || (negative && val == HALF)
    ensures v == Wrap64(Signed(val, negative)) && end == |Printed(val, f, negative)| - PaddingBehind(val, f, negative)
  {
    hide Printed, Wrap64, PaddingBehind, Read;
    var stop := FmtUint(buf, pos, val, f, negative);
    WroteThere(old(buf[..]), buf[..], pos, Printed(val, f, negative));
    v, end := Strtol(buf[pos..stop], f.base);
    RoundTrip(val, f, negative, "");
    assert Printed(val, f, negative) + "" == Printed(val, f, negative);
  }

  lemma WroteThere(was: string, now: string, pos: nat, w: string)
    requires Wrote(was, now, pos, w)
    ensures pos + |w| <= |now| && now[pos..pos + |w|] == w
  {
  }
}
