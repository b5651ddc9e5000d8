// Printing numbers and reading them back.
module Numbers {
  import opened Words

  predicate IsBase(base: nat) {
    base == 2 || base == 8 || base == 10 || base == 16
  }

  const LOW := "0123456789abcdef"
  const UP := "0123456789ABCDEF"

  // No character with a meaning of its own around numbers.
  predicate Plain(c: char) {
    c != ' ' && c != '\t' && c != '-' && c != '+' && c != 'x' && c != 'X'
  }

  function DigitChar(d: nat, upper: bool): (c: char)
    requires d < 16
  {
    if upper then UP[d] else LOW[d]
  }

  // The value of a character as a digit; 16 for none.
  function DigitOf(c: char): (d: nat)
    ensures d <= 16
  {
    if '0' <= c <= '9' then c as nat - '0' as nat
    else if 'a' <= c <= 'f' then c as nat - 'a' as nat + 10
    else if 'A' <= c <= 'F' then c as nat - 'A' as nat + 10
    else 16
  }

  lemma DigitIs(d: nat, upper: bool)
    requires d < 16
    ensures DigitOf(DigitChar(d, upper)) == d && Plain(DigitChar(d, upper))
  {
  }

  // ---- what is printed -----------------------------------------------------

  function Digits(val: nat, base: nat, upper: bool): (s: string)
    requires IsBase(base)
    ensures s != ""
    decreases val
  {
    if val < base then [DigitChar(val, upper)]
    else Digits(val / base, base, upper) + [DigitChar(val % base, upper)]
  }

  function Fill(c: char, n: nat): (s: string)
    ensures |s| == n && forall k :: 0 <= k < n ==> s[k] == c
  {
    seq(n, _ => c)
  }

  datatype Format = Format(base: nat, upper: bool, width: int, pad: char, left: bool, plus: bool)

  function Sign(negative: bool, plus: bool): string {
    if negative then "-" else if plus then "+" else ""
  }

  function Padding(f: Format, len: nat): nat {
    if f.width > len then f.width - len else 0
  }

  function Printed(val: nat, f: Format, negative: bool): string
    requires IsBase(f.base)
  {
    var digits, sign := Digits(val, f.base, f.upper), Sign(negative, f.plus);
    var padding := Padding(f, |sign| + |digits|);
    Fill(' ', if !f.left && f.pad == ' ' then padding else 0)
    + sign
    + Fill('0', if !f.left && f.pad == '0' then padding else 0)
    + digits
    + Fill(' ', if f.left then padding else 0)
  }

  // No zero in front, and letters all of one case.
  lemma {:induction false} DigitsAreLeast(val: nat, base: nat, upper: bool)
    requires IsBase(base)
    ensures val == 0 ==> Digits(val, base, upper) == "0"
    ensures val > 0 ==> Digits(val, base, upper)[0] != '0'
    ensures forall c :: c in Digits(val, base, upper) ==>
      '0' <= c <= '9' || (if upper then 'A' <= c <= 'F' else 'a' <= c <= 'f')
    decreases val
  {
    hide DigitChar;
    if val < base {
      assert Digits(val, base, upper) == [DigitChar(val, upper)];
      OneDigitChar(val, upper);
    } else {
      FewerDigits(val, base);
      hide IsBase;
      OneDigitChar(val % base, upper);
      DigitsAreLeast(val / base, base, upper);
      var front, last := Digits(val / base, base, upper), DigitChar(val % base, upper);
      assert Digits(val, base, upper) == front + [last];
      assert forall c :: c in front + [last] ==> c in front || c == last;
    }
  }

  lemma FewerDigits(val: nat, base: nat)
    requires IsBase(base) && val >= base
    ensures 0 < val / base < val && val % base < 16
  {
  }

  lemma OneDigitChar(d: nat, upper: bool)
    requires d < 16
    ensures var c := DigitChar(d, upper);
            && (c == '0' <==> d == 0)
            && ('0' <= c <= '9' || (if upper then 'A' <= c <= 'F' else 'a' <= c <= 'f'))
  {
  }

  // What is printed is as wide as asked for, or as wide as it must be. Sign and digits
  // stand together, on the left or behind blanks; or zeros come between them.
  lemma PrintedShape(val: nat, f: Format, negative: bool)
    requires IsBase(f.base) && (f.pad == ' ' || f.pad == '0')
    ensures var text, sign := Printed(val, f, negative), if negative then "-" else if f.plus then "+" else "";
            var digits := Digits(val, f.base, f.upper);
            var least := |sign| + |digits|;
            && |text| == (if f.width > least then f.width else least)
            && (f.left ==> text[..least] == sign + digits && forall k :: least <= k < |text| ==> text[k] == ' ')
            && (!f.left && f.pad == ' ' ==>
                  && text[|text| - least..] == sign + digits
                  && forall k :: 0 <= k < |text| - least ==> text[k] == ' ')
            && (!f.left && f.pad == '0' ==>
                  && text[..|sign|] == sign && text[|text| - |digits|..] == digits
                  && forall k :: |sign| <= k < |text| - |digits| ==> text[k] == '0')
  {
    hide Digits;
  }

  // ---- what is read --------------------------------------------------------

  function SkipBlanks(s: string): (n: nat)
    ensures n <= |s| && forall k :: 0 <= k < n ==> s[k] == ' ' || s[k] == '\t'
    ensures n < |s| ==> s[n] != ' ' && s[n] != '\t'
  {
    if s != "" && (s[0] == ' ' || s[0] == '\t') then 1 + SkipBlanks(s[1..]) else 0
  }

  predicate HasHexPrefix(s: string) {
    |s| >= 2 && s[0] == '0' && (s[1] == 'x' || s[1] == 'X')
  }

  // The base to read in, and how much of the text that takes.
  function BaseOf(s: string, base: nat): (nat, nat) {
    if base == 0 then
      if HasHexPrefix(s) then (16, 2)
      else if s != "" && s[0] == '0' then (8, 1)
      else (10, 0)
    else if base == 16 && HasHexPrefix(s) then (16, 2)
    else (base, 0)
  }

  // How many digits of the base the text starts with.
  function DigitCount(s: string, base: nat): (n: nat)
    ensures n <= |s| && forall k :: 0 <= k < n ==> DigitOf(s[k]) < 16 && DigitOf(s[k]) < base
    ensures n < |s| ==> DigitOf(s[n]) == 16 || DigitOf(s[n]) >= base
  {
    if s != "" && DigitOf(s[0]) < 16 && DigitOf(s[0]) < base then 1 + DigitCount(s[1..], base) else 0
  }

  // The number that digits write.
  function Value(s: string, base: nat): nat {
    if s == "" then 0 else Value(s[..|s| - 1], base) * base + DigitOf(s[|s| - 1])
  }

  const HALF := 0x8000_0000_0000_0000

  // A sum kept in 64 bits, as a signed number.
  function Wrap64(x: int): (r: int)
    ensures -HALF <= r < HALF && (-HALF <= x < HALF ==> r == x)
  {
    (x + HALF) % WORD_LIMIT - HALF
  }

  // The same number in a 64-bit accumulator.
  function Sum64(s: string, base: nat): int {
    if s == "" then 0 else Wrap64(Sum64(s[..|s| - 1], base) * base + DigitOf(s[|s| - 1]))
  }

  // Prefix and digits: the number, and how long it is.
  function ReadUnsigned(s: string, base: nat): (int, nat) {
    var (b, prefix) := BaseOf(s, base);
    if prefix > |s| then (0, 0)
    else
      var n := DigitCount(s[prefix..], b);
      (Sum64(s[prefix..][..n], b), prefix + n)
  }

  function ReadSigned(s: string, base: nat): (int, nat) {
    if s != "" && s[0] == '-' then
      var (v, n) := ReadUnsigned(s[1..], base); (Wrap64(-v), 1 + n)
    else if s != "" && s[0] == '+' then
      var (v, n) := ReadUnsigned(s[1..], base); (v, 1 + n)
    else ReadUnsigned(s, base)
  }

  // The number a text starts with, and where it ends.
  function Read(s: string, base: nat): (int, nat) {
    var blanks := SkipBlanks(s);
    var (v, n) := ReadSigned(s[blanks..], base);
    (v, blanks + n)
  }

  // ---- reading what is printed ---------------------------------------------

  lemma {:induction false} DigitsAreDigits(val: nat, base: nat, upper: bool, k: nat)
    requires IsBase(base) && k < |Digits(val, base, upper)|
    ensures DigitOf(Digits(val, base, upper)[k]) < base && Plain(Digits(val, base, upper)[k])
    decreases val
  {
    hide DigitOf, DigitChar, Plain;
    if val >= base {
      DigitIs(val % base, upper);
      if k < |Digits(val / base, base, upper)| {
        DigitsAreDigits(val / base, base, upper, k);
      }
    } else {
      DigitIs(val, upper);
    }
  }

  lemma {:induction false} ValueOfDigits(val: nat, base: nat, upper: bool)
    requires IsBase(base)
    ensures Value(Digits(val, base, upper), base) == val
    decreases val
  {
    hide DigitOf, DigitChar, Plain;
    var s := Digits(val, base, upper);
    if val >= base {
      ValueOfDigits(val / base, base, upper);
      DigitIs(val % base, upper);
      ValueLast(Digits(val / base, base, upper), DigitChar(val % base, upper), base);
      assert val == (val / base) * base + val % base;
    } else {
      DigitIs(val, upper);
      ValueLast("", DigitChar(val, upper), base);
      assert s == "" + [DigitChar(val, upper)];
    }
  }

  lemma ValueLast(s: string, c: char, base: nat)
    ensures Value(s + [c], base) == Value(s, base) * base + DigitOf(c)
    ensures Value("", base) == 0
  {
    hide DigitOf;
    assert (s + [c])[..|s|] == s;
  }

  lemma {:induction false} ValueOfZeros(n: nat, s: string, base: nat)
    ensures Value(Fill('0', n) + s, base) == Value(s, base)
    decreases n + |s|
  {
    var all := Fill('0', n) + s;
    if s != "" {
      assert all[..|all| - 1] == Fill('0', n) + s[..|s| - 1];
      ValueOfZeros(n, s[..|s| - 1], base);
    } else if n > 0 {
      assert all[..|all| - 1] == Fill('0', n - 1) + "";
      ValueOfZeros(n - 1, "", base);
    } else {
      assert all == "";
    }
  }

  lemma {:induction false} CountIs(s: string, base: nat, n: nat)
    requires n <= |s| && forall k :: 0 <= k < n ==> DigitOf(s[k]) < 16 && DigitOf(s[k]) < base
    requires n < |s| ==> DigitOf(s[n]) == 16 || DigitOf(s[n]) >= base
    ensures DigitCount(s, base) == n
  {
    if n > 0 {
      CountIs(s[1..], base, n - 1);
    }
  }

  lemma {:induction false} BlanksAre(s: string, n: nat)
    requires n <= |s| && forall k :: 0 <= k < n ==> s[k] == ' '
    requires n < |s| ==> s[n] != ' ' && s[n] != '\t'
    ensures SkipBlanks(s) == n
  {
    if n > 0 {
      BlanksAre(s[1..], n - 1);
    }
  }

  // Nothing that could be taken for more of the number.
  predicate Ends(rest: string, base: nat) {
    rest == "" || (DigitOf(rest[0]) >= base && rest[0] != 'x' && rest[0] != 'X')
  }

  function Signed(val: nat, negative: bool): int {
    if negative then 0 - val else val
  }

  // Sign, zeros and digits, with what may not follow a number behind.
  lemma ReadBody(val: nat, base: nat, upper: bool, zeros: nat, rest: string)
    requires IsBase(base) && Ends(rest, base)
    ensures var body := Fill('0', zeros) + Digits(val, base, upper) + rest;
            var n := zeros + |Digits(val, base, upper)|;
            ReadUnsigned(body, base) == (Wrap64(val), n) && BaseOf(body, base) == (base, 0)
  {
    hide DigitChar, Digits;
    var digits := Digits(val, base, upper);
    var body := Fill('0', zeros) + digits + rest;
    var n := zeros + |digits|;
    forall k | 0 <= k < n
      ensures DigitOf(body[k]) < base && DigitOf(body[k]) < 16 && body[k] != 'x' && body[k] != 'X'
    {
      if k < zeros {
        assert body[k] == '0';
      } else {
        DigitsAreDigits(val, base, upper, k - zeros);
        assert body[k] == digits[k - zeros];
      }
    }
    assert n < |body| ==> body[n] == rest[0];
    NoPrefix(body, base, n);
    hide DigitOf, BaseOf;
    CountIs(body, base, n);
    assert body[..n] == Fill('0', zeros) + digits;
    ValueOfZeros(zeros, digits, base);
    ValueOfDigits(val, base, upper);
    WrappedOnce(body[..n], base);
    hide DigitCount, Value, Sum64;
    assert body[0..] == body;
  }

  lemma NoPrefix(body: string, base: nat, n: nat)
    requires IsBase(base) && 0 < n <= |body| && forall k :: 0 <= k < n ==> body[k] != 'x' && body[k] != 'X'
    requires n < |body| ==> body[n] != 'x' && body[n] != 'X'
    ensures BaseOf(body, base) == (base, 0)
  {
  }

  // Without a base given, the prefix says which one it is: 16 after 0x, 8 after 0,
  // and 10 for a number that does not begin with 0.
  lemma BaseIsInferred(val: nat, upper: bool, rest: string)
    ensures Ends(rest, 16) ==>
      var digits := Digits(val, 16, upper); Read("0x" + digits + rest, 0) == (Wrap64(val), 2 + |digits|)
    ensures Ends(rest, 8) ==>
      var digits := Digits(val, 8, upper); Read("0" + digits + rest, 0) == (Wrap64(val), 1 + |digits|)
    ensures Ends(rest, 10) && val > 0 ==>
      var digits := Digits(val, 10, upper); Read(digits + rest, 0) == (Wrap64(val), |digits|)
  {
    hide Digits, Read, BaseOf, Wrap64, DigitOf, Ends, Plain;
    if Ends(rest, 16) {
      BehindHex(Digits(val, 16, upper) + rest);
      assert "0x" + Digits(val, 16, upper) + rest == "0x" + (Digits(val, 16, upper) + rest);
      ReadBehind("0x", val, 16, upper, rest);
    }
    if Ends(rest, 8) {
      DigitsAreDigits(val, 8, upper, 0);
      BehindZero(Digits(val, 8, upper), rest);
      ReadBehind("0", val, 8, upper, rest);
    }
    if Ends(rest, 10) && val > 0 {
      DigitsAreLeast(val, 10, upper);
      DigitsAreDigits(val, 10, upper, 0);
      BehindNothing(Digits(val, 10, upper), rest);
      assert "" + Digits(val, 10, upper) + rest == Digits(val, 10, upper) + rest;
      ReadBehind("", val, 10, upper, rest);
    }
  }

  lemma BehindHex(s: string)
    ensures BaseOf("0x" + s, 0) == (16, 2) && ("0x" + s)[0] == '0'
  {
  }

  lemma BehindZero(digits: string, rest: string)
    requires digits != "" && Plain(digits[0])
    ensures BaseOf("0" + digits + rest, 0) == (8, 1) && ("0" + digits + rest)[0] == '0'
  {
    assert ("0" + digits + rest)[1] == digits[0];
  }

  lemma BehindNothing(digits: string, rest: string)
    requires digits != "" && Plain(digits[0]) && digits[0] != '0'
    ensures var text := digits + rest;
            BaseOf(text, 0) == (10, 0) && text[0] != ' ' && text[0] != '\t' && text[0] != '-' && text[0] != '+'
  {
    assert (digits + rest)[0] == digits[0];
  }

  lemma ReadBehind(prefix: string, val: nat, base: nat, upper: bool, rest: string)
    requires IsBase(base) && Ends(rest, base)
    requires var text := prefix + Digits(val, base, upper) + rest;
             && BaseOf(text, 0) == (base, |prefix|)
             && text != "" && text[0] != ' ' && text[0] != '\t' && text[0] != '-' && text[0] != '+'
    ensures Read(prefix + Digits(val, base, upper) + rest, 0) == (Wrap64(val), |prefix| + |Digits(val, base, upper)|)
  {
    hide Digits, Wrap64, BaseOf, ReadUnsigned, Read, Ends, IsBase;
    var body := Digits(val, base, upper) + rest;
    var text := prefix + Digits(val, base, upper) + rest;
    ReadBody(val, base, upper, 0, rest);
    assert Fill('0', 0) + Digits(val, base, upper) + rest == body;
    assert text[|prefix|..] == body;
    SameDigits(text, |prefix|, body, base);
    ReadAtOnce(text, 0);
  }

  lemma SameDigits(text: string, prefix: nat, body: string, base: nat)
    requires prefix <= |text| && text[prefix..] == body && BaseOf(text, 0) == (base, prefix)
    requires BaseOf(body, base) == (base, 0)
    ensures ReadUnsigned(text, 0).0 == ReadUnsigned(body, base).0
    ensures ReadUnsigned(text, 0).1 == prefix + ReadUnsigned(body, base).1
  {
    hide BaseOf, DigitCount, Sum64;
    assert body[0..] == body;
  }

  lemma ReadAtOnce(text: string, base: nat)
    requires text != "" && text[0] != ' ' && text[0] != '\t' && text[0] != '-' && text[0] != '+'
    ensures Read(text, base) == ReadUnsigned(text, base)
  {
    hide ReadUnsigned;
    assert text[0..] == text;
  }

  // Reading what is printed gives the number in 64 bits, in every base, with
  // either sign and any padding: the number itself exactly when that holds it.
  lemma RoundTrip(val: nat, f: Format, negative: bool, rest: string)
    requires IsBase(f.base) && (f.pad == ' ' || f.pad == '0') && val < WORD_LIMIT
    requires Ends(rest, f.base)
    ensures var text := Printed(val, f, negative);
            Read(text + rest, f.base) == (Wrap64(Signed(val, negative)), |text| - PaddingBehind(val, f, negative))
    ensures Read(Printed(val, f, negative) + rest, f.base).0 == Signed(val, negative)
            <==> val < HALF || (negative && val == HALF)
  {
    hide Digits, DigitOf, DigitChar, DigitCount, Value, BaseOf, SkipBlanks, Read, ReadUnsigned, ReadSigned;
    hide Printed, Fill;
    hide Padding, PaddingBehind, Ends, Plain, Wrap64;
    var digits, sign := Digits(val, f.base, f.upper), Sign(negative, f.plus);
    var blanks, zeros, behind := PrintedParts(val, f, negative, rest);
    var tail := Fill(' ', behind) + rest;
    TailEnds(behind, rest, f.base);
    ReadBody(val, f.base, f.upper, zeros, tail);
    FirstOfBody(val, f.base, f.upper, zeros, tail);
    SignIsRead(sign, Fill('0', zeros) + digits + tail, f.base, negative, f.plus);
    BlanksAreRead(Printed(val, f, negative) + rest, blanks, sign + (Fill('0', zeros) + digits + tail), f.base);
    NegationWraps(val);
    HoldsIn64(val, negative);
  }

  // ---- 64-bit sums ---------------------------------------------------------

  // Numbers a multiple of 2^64 apart wrap to the same.
  lemma SameWrapped(x: int, k: int)
    ensures Wrap64(x + WORD_LIMIT * k) == Wrap64(x)
  {
  }

  lemma WrapIsShift(x: int) returns (k: int)
    ensures Wrap64(x) == x + WORD_LIMIT * k
  {
    k := -((x + HALF) / WORD_LIMIT);
  }

  // Wrapping at every step gives what wrapping at the end gives.
  lemma {:induction false} WrappedOnce(s: string, base: nat)
    ensures Sum64(s, base) == Wrap64(Value(s, base))
  {
    if s != "" {
      WrappedOnce(s[..|s| - 1], base);
      hide DigitOf, Wrap64;
      WrapInside(Value(s[..|s| - 1], base), base, DigitOf(s[|s| - 1]));
    }
  }

  lemma WrapInside(x: int, base: int, d: int)
    ensures Wrap64(Wrap64(x) * base + d) == Wrap64(x * base + d)
  {
    hide Wrap64;
    var k := WrapIsShift(x);
    Spread(x, WORD_LIMIT, k, base);
    SameWrapped(x * base + d, k * base);
  }

  lemma Spread(x: int, w: int, k: int, b: int)
    ensures (x + w * k) * b == x * b + w * (k * b)
  {
  }

  lemma NegationWraps(val: int)
    ensures Wrap64(-Wrap64(val)) == Wrap64(-val)
  {
    hide Wrap64;
    var k := WrapIsShift(val);
    assert -(val + WORD_LIMIT * k) == -val + WORD_LIMIT * (-k);
    SameWrapped(-val, -k);
  }

  lemma HoldsIn64(val: nat, negative: bool)
    requires val < WORD_LIMIT
    ensures Wrap64(Signed(val, negative)) == Signed(val, negative) <==> val < HALF || (negative && val == HALF)
  {
  }

  // Blanks, sign, zeros, digits, and blanks behind.
  lemma PrintedParts(val: nat, f: Format, negative: bool, rest: string) returns (blanks: nat, zeros: nat, behind: nat)
    requires IsBase(f.base)
    ensures var digits, sign := Digits(val, f.base, f.upper), Sign(negative, f.plus);
            && Printed(val, f, negative) + rest ==
                 Fill(' ', blanks) + (sign + (Fill('0', zeros) + digits + (Fill(' ', behind) + rest)))
            && |Printed(val, f, negative)| - PaddingBehind(val, f, negative) == blanks + |sign| + zeros + |digits|
  {
    hide Digits, Fill, Padding;
    var digits, sign := Digits(val, f.base, f.upper), Sign(negative, f.plus);
    var padding := Padding(f, |sign| + |digits|);
    blanks := if !f.left && f.pad == ' ' then padding else 0;
    zeros := if !f.left && f.pad == '0' then padding else 0;
    behind := if f.left then padding else 0;
    Parts(Fill(' ', blanks), sign, Fill('0', zeros), digits, Fill(' ', behind), rest);
  }

  function PaddingBehind(val: nat, f: Format, negative: bool): (n: nat)
    requires IsBase(f.base)
    ensures n <= |Printed(val, f, negative)|
  {
    if f.left then Padding(f, |Sign(negative, f.plus)| + |Digits(val, f.base, f.upper)|) else 0
  }

  lemma Parts(a: string, b: string, c: string, d: string, e: string, f: string)
    ensures (a + b + c + d + e) + f == a + (b + (c + d + (e + f)))
  {
  }

  lemma TailEnds(n: nat, rest: string, base: nat)
    requires Ends(rest, base) && IsBase(base)
    ensures Ends(Fill(' ', n) + rest, base)
  {
    var tail := Fill(' ', n) + rest;
    if n > 0 {
      assert tail[0] == ' ';
    } else {
      assert tail == rest;
    }
  }

  lemma SignIsRead(sign: string, body: string, base: nat, negative: bool, plus: bool)
    requires sign == Sign(negative, plus) && body != "" && Plain(body[0])
    ensures var (v, n) := ReadUnsigned(body, base);
            ReadSigned(sign + body, base) == (if negative then Wrap64(-v) else v, |sign| + n)
    ensures (sign + body)[0] != ' ' && (sign + body)[0] != '\t'
  {
    hide ReadUnsigned;
    if sign != "" {
      assert (sign + body)[0] == sign[0] && (sign + body)[1..] == body;
    } else {
      assert sign + body == body;
    }
  }

  lemma BlanksAreRead(s: string, blanks: nat, after: string, base: nat)
    requires s == Fill(' ', blanks) + after && after != "" && after[0] != ' ' && after[0] != '\t'
    ensures var (v, n) := ReadSigned(after, base); Read(s, base) == (v, blanks + n)
  {
    hide ReadSigned;
    assert s[blanks] == after[0];
    BlanksAre(s, blanks);
    assert s[blanks..] == after;
  }

  lemma FirstOfBody(val: nat, base: nat, upper: bool, zeros: nat, tail: string)
    requires IsBase(base)
    ensures var body := Fill('0', zeros) + Digits(val, base, upper) + tail;
            body != "" && Plain(body[0])
  {
    hide DigitOf, DigitChar, Digits;
    DigitsAreDigits(val, base, upper, 0);
  }
}
