/** The number printer: digits from the right, padding, sign; and the parser it is inverse to. */
module NumberFormat {
  import opened Bits

  const LOWER := "0123456789abcdef"
  const UPPER := "0123456789ABCDEF"
  const NUL := 0 as char

  /** uint64_t is Word; int and unsigned are 32 bits wide. */
  const INT_RANGE: nat := 0x1_0000_0000
  const INT_HALF: nat := 0x8000_0000

  function Digit(v: nat, upper: bool): char
    requires v < 16
  {
    if upper then UPPER[v] else LOWER[v]
  }

  /** The sign is wanted, and bit 31 is set. */
  predicate Negative(i: nat, signed: bool) { signed && i % INT_RANGE >= INT_HALF }

  /** The value printed: all 64 bits, or the low 32 negated. */
  function Magnitude(i: nat, signed: bool): nat {
    if Negative(i, signed) then INT_RANGE - i % INT_RANGE else i
  }

  /** The limit after one more digit. */
  function NextLen(len: int): int { if len > 0 then len - 1 else len }

  /** Digits are left, and the limit, which counts down while positive, has not become zero. */
  predicate More(x: nat, base: nat, len: int)
    requires base > 0
  {
    x / base != 0 && NextLen(len) != 0
  }

  /** The low-order digits of x: all of them, or no more than a non-negative len, but always one. */
  function DigitText(x: nat, base: nat, upper: bool, len: int): (t: string)
    requires 2 <= base <= 16
    ensures |t| >= 1
  {
    (if More(x, base, len) then DigitText(x / base, base, upper, NextLen(len)) else "")
    + [Digit(x % base, upper)]
  }

  function Pads(n: int, c: char): string { if n <= 0 then "" else seq(n, i => c) }

  function Laid(neg: bool, pads: int, padWith: char, digits: string): string {
    (if neg then "-" else "") + Pads(pads, padWith) + digits
  }

  function NumText(i: nat, base: nat, padding: nat, padWith: char, signed: bool, upper: bool, len: int): string
    requires 2 <= base <= 16
  {
    var digits := DigitText(Magnitude(i, signed), base, upper, len);
    Laid(Negative(i, signed), padding - |digits|, padWith, digits)
  }

  // ---------------------------------------------------------------------------------------
  // How many digits

  function Power(base: nat, n: nat): (p: nat)
    ensures base > 0 ==> p > 0
  {
    if n == 0 then 1 else base * Power(base, n - 1)
  }

  lemma QuotientBelow(x: nat, b: nat, bound: nat)
    requires b > 0
    ensures x / b < bound <==> x < b * bound
  {
    DivMod(x, b);
    if x / b < bound {
      assert b * (x / b) <= b * (bound - 1);
    } else {
      assert b * (x / b) >= b * bound;
    }
  }

  lemma DivMod(x: nat, b: nat)
    requires b > 0
    ensures x == b * (x / b) + x % b && x % b < b
  {
  }

  lemma Unfold(x: nat, base: nat, upper: bool, len: int)
    requires 2 <= base <= 16
    ensures
      var t := DigitText(x, base, upper, len);
      if More(x, base, len) then
        t == DigitText(x / base, base, upper, NextLen(len)) + [Digit(x % base, upper)]
      else t == [Digit(x % base, upper)]
    ensures x / base == 0 <==> x < base
  {
    QuotientBelow(x, base, 1);
  }

  /** Without a limit the digits are exactly as many as x has in this base; with one, no more than it. */
  lemma {:induction false} DigitCount(x: nat, base: nat, upper: bool, len: int)
    requires 2 <= base <= 16
    ensures
      var d := |DigitText(x, base, upper, len)|;
      && (len >= 0 ==> d <= if len == 0 then 1 else len)
      && (len < 0 || d < len ==> x < Power(base, d))
      && (d > 1 ==> Power(base, d - 1) <= x)
    decreases x
  {
    hide DigitText, Digit, Power;
    Unfold(x, base, upper, len);
    PowerNext(base, 0);
    var q := x / base;
    if !More(x, base, len) {
    } else {
      QuotientSmaller(x, base, len);
      DigitCount(q, base, upper, NextLen(len));
      var d := |DigitText(q, base, upper, NextLen(len))|;
      PowerNext(base, d);
      QuotientBelow(x, base, Power(base, d));
      if d > 1 {
        PowerNext(base, d - 1);
        QuotientBelow(x, base, Power(base, d - 1));
      }
    }
  }

  lemma PowerNext(b: nat, n: nat)
    ensures Power(b, n + 1) == b * Power(b, n)
    ensures Power(b, 0) == 1 && Power(b, 1) == b
  {
    assert Power(b, 1) == b * Power(b, 0);
  }

  lemma Twice(b: nat, n: nat)
    requires b >= 2
    ensures b * n >= 2 * n
  {
  }

  lemma QuotientSmaller(x: nat, base: nat, len: int)
    requires base >= 2 && More(x, base, len)
    ensures x / base < x
  {
    DivMod(x, base);
    Twice(base, x / base);
  }

  lemma {:induction false} AtMostBits(x: nat, base: nat, upper: bool, len: int, n: nat)
    requires 2 <= base <= 16 && n >= 1 && x < Pow2(n)
    ensures |DigitText(x, base, upper, len)| <= n
    decreases n
  {
    Unfold(x, base, upper, len);
    hide DigitText, Digit;
    if !More(x, base, len) {
    } else {
      assert n > 1;
      Twice(base, Pow2(n - 1));
      QuotientBelow(x, base, Pow2(n - 1));
      AtMostBits(x / base, base, upper, NextLen(len), n - 1);
    }
  }

  /** The 64 characters before the terminator hold any number and its sign. */
  lemma DigitsFit(i: nat, base: nat, upper: bool, signed: bool, len: int)
    requires i < WORD_LIMIT && 2 <= base <= 16
    ensures |DigitText(Magnitude(i, signed), base, upper, len)| <= if Negative(i, signed) then 32 else 64
  {
    WordPower();
    IntPower();
    AtMostBits(Magnitude(i, signed), base, upper, len, if Negative(i, signed) then 32 else 64);
  }

  lemma IntPower()
    ensures Pow2(32) == INT_RANGE
  {
    assert Pow2(8) == 0x100;
    assert Pow2(16) == 0x1_0000;
    assert Pow2(24) == 0x100_0000;
  }

  // ---------------------------------------------------------------------------------------
  // Reading a number back

  function DigitValue(c: char): int {
    if '0' <= c <= '9' then c as int - '0' as int
    else if 'a' <= c <= 'f' then c as int - 'a' as int + 10
    else if 'A' <= c <= 'F' then c as int - 'A' as int + 10
    else -1
  }

  function Value(s: string, base: nat): int {
    if s == [] then 0 else Value(s[..|s| - 1], base) * base + DigitValue(s[|s| - 1])
  }

  function SkipPads(s: string, c: char): string {
    if s != [] && s[0] == c then SkipPads(s[1..], c) else s
  }

  /** An optional minus, any pad characters, digits. */
  function Parse(s: string, base: nat, padWith: char): int {
    if s != [] && s[0] == '-' then -Value(SkipPads(s[1..], padWith), base) else Value(SkipPads(s, padWith), base)
  }

  /** What len digits keep of x. */
  function Truncated(x: nat, base: nat, len: int): nat
    requires base > 0
  {
    if len < 0 then x else x % Power(base, if len == 0 then 1 else len)
  }

  /** Pads that no digit or sign can be mistaken for: a zero, or no digit at all. */
  predicate GoodPad(c: char) { c == '0' || (DigitValue(c) == -1 && c != '-') }

  lemma DigitRead(v: nat, upper: bool)
    requires v < 16
    ensures DigitValue(Digit(v, upper)) == v && Digit(v, upper) != '-'
  {
  }

  lemma FirstIsDigit(x: nat, base: nat, upper: bool, len: int)
    requires 2 <= base <= 16
    ensures DigitValue(DigitText(x, base, upper, len)[0]) >= 0
    decreases x
  {
    Unfold(x, base, upper, len);
    DigitRead(x % base, upper);
    if More(x, base, len) {
      QuotientSmaller(x, base, len);
      FirstIsDigit(x / base, base, upper, NextLen(len));
    }
  }

  /** A digit of the base, with its letters in one case. */
  predicate IsDigit(c: char, base: nat, upper: bool) {
    && ('0' <= c <= '9' || if upper then 'A' <= c <= 'F' else 'a' <= c <= 'f')
    && 0 <= DigitValue(c) < base
  }

  ghost predicate AllDigits(s: string, base: nat, upper: bool) { forall c :: c in s ==> IsDigit(c, base, upper) }

  lemma {:induction false} DigitsInCase(x: nat, base: nat, upper: bool, len: int)
    requires 2 <= base <= 16
    ensures AllDigits(DigitText(x, base, upper, len), base, upper)
    decreases x
  {
    Unfold(x, base, upper, len);
    assert IsDigit(Digit(x % base, upper), base, upper);
    hide DigitText, Digit;
    if !More(x, base, len) {
    } else {
      QuotientSmaller(x, base, len);
      DigitsInCase(x / base, base, upper, NextLen(len));
    }
  }

  /** The low digits of x, from those of its quotient. */
  lemma TruncateStep(x: nat, b: nat, n: nat)
    requires b > 0 && n > 0
    ensures x % Power(b, n) == b * ((x / b) % Power(b, n - 1)) + x % b
  {
    var p, q := Power(b, n - 1), x / b;
    DivMod(x, b);
    DivMod(q, p);
    var m := b * (q % p) + x % b;
    assert x == b * (p * (q / p)) + m;
    assert b * (p * (q / p)) == (b * p) * (q / p) by { Associates(b, p, q / p); }
    assert b * (q % p) <= b * (p - 1);
    assert m < b * p;
    DivModUnique(x, b * p, q / p, m);
  }

  lemma Associates(a: nat, b: nat, c: nat)
    ensures a * (b * c) == (a * b) * c
  {
  }

  lemma {:induction false} DigitsValue(x: nat, base: nat, upper: bool, len: int)
    requires 2 <= base <= 16
    ensures Value(DigitText(x, base, upper, len), base) == Truncated(x, base, len)
    decreases x
  {
    hide *;
    LastDigit(x, base, upper, len);
    TruncatedStep(x, base, len);
    if !More(x, base, len) {
    } else {
      QuotientSmaller(x, base, len);
      DigitsValue(x / base, base, upper, NextLen(len));
    }
  }

  lemma LastDigit(x: nat, base: nat, upper: bool, len: int)
    requires 2 <= base <= 16
    ensures
      Value(DigitText(x, base, upper, len), base)
      == (if More(x, base, len) then Value(DigitText(x / base, base, upper, NextLen(len)), base) * base
           else 0) + x % base
  {
    hide *;
    Unfold(x, base, upper, len);
    var c := Digit(x % base, upper);
    DigitRead(x % base, upper);
    if More(x, base, len) {
      ValueOfAppended(DigitText(x / base, base, upper, NextLen(len)), c, base);
    } else {
      ValueOfAppended([], c, base);
      assert [] + [c] == [c];
    }
  }

  lemma ValueOfAppended(s: string, c: char, base: nat)
    ensures Value(s + [c], base) == Value(s, base) * base + DigitValue(c)
    ensures Value([], base) == 0
  {
    assert (s + [c])[..|s|] == s;
  }

  lemma TruncatedStep(x: nat, base: nat, len: int)
    requires base > 1
    ensures
      Truncated(x, base, len)
      == (if More(x, base, len) then Truncated(x / base, base, NextLen(len)) * base else 0) + x % base
  {
    var q, n := x / base, if len == 0 then 1 else len;
    DivMod(x, base);
    if n > 0 {
      TruncateStep(x, base, n);
      if n == 1 {
        assert Power(base, 0) == 1 && q % 1 == 0;
      } else if q == 0 {
        DivModUnique(0, Power(base, n - 1), 0, 0);
      }
    }
  }

  lemma {:induction false} LeadingZero(s: string, base: nat)
    requires s != [] && s[0] == '0'
    ensures Value(s, base) == Value(s[1..], base)
  {
    if |s| > 1 {
      LeadingZero(s[..|s| - 1], base);
      assert s[1..][..|s| - 2] == s[..|s| - 1][1..];
    }
  }

  lemma {:induction false} SkippedZeros(s: string, base: nat)
    ensures Value(SkipPads(s, '0'), base) == Value(s, base)
  {
    if s != [] && s[0] == '0' {
      LeadingZero(s, base);
      SkippedZeros(s[1..], base);
    }
  }

  lemma {:induction false} SkippedPads(n: int, c: char, d: string, base: nat)
    requires c == '0' || d == [] || d[0] != c
    ensures Value(SkipPads(Pads(n, c) + d, c), base) == Value(d, base)
  {
    var s := Pads(n, c) + d;
    if n <= 0 {
      assert s == d;
      if c == '0' {
        SkippedZeros(d, base);
      }
    } else {
      assert s[0] == c && s[1..] == Pads(n - 1, c) + d;
      SkippedPads(n - 1, c, d, base);
    }
  }

  /** The parser reads back the magnitude, truncated to the digits printed, with its sign. */
  lemma ParseInvertsNumText(i: nat, base: nat, padding: nat, padWith: char, signed: bool, upper: bool, len: int)
    requires 2 <= base <= 16 && GoodPad(padWith)
    ensures
      Parse(NumText(i, base, padding, padWith, signed, upper, len), base, padWith)
      == var n: int := Truncated(Magnitude(i, signed), base, len); if Negative(i, signed) then -n else n
  {
    hide *;
    var x := Magnitude(i, signed);
    var d := DigitText(x, base, upper, len);
    NumTextIs(i, base, padding, padWith, signed, upper, len);
    FirstIsDigit(x, base, upper, len);
    DigitsValue(x, base, upper, len);
    ParsePadded(d, padding - |d|, padWith, base, Negative(i, signed));
  }

  lemma NumTextIs(i: nat, base: nat, padding: nat, padWith: char, signed: bool, upper: bool, len: int)
    requires 2 <= base <= 16
    ensures
      var d := DigitText(Magnitude(i, signed), base, upper, len);
      NumText(i, base, padding, padWith, signed, upper, len)
      == Laid(Negative(i, signed), padding - |d|, padWith, d)
  {
  }

  lemma ParsePadded(d: string, n: int, c: char, base: nat, neg: bool)
    requires d != [] && DigitValue(d[0]) >= 0 && GoodPad(c)
    ensures Parse(Laid(neg, n, c, d), base, c) == if neg then -Value(d, base) else Value(d, base)
  {
    hide Value, SkipPads;
    var rest := Pads(n, c) + d;
    SkippedPads(n, c, d, base);
    if neg {
      var text := Laid(neg, n, c, d);
      assert text == ['-'] + rest;
      assert text[1..] == rest;
    } else {
      assert Laid(neg, n, c, d) == rest && rest[0] == if n <= 0 then d[0] else c;
    }
  }

  /** A 64-bit signed value as the uint64_t argument. */
  function AsWord(v: int): nat
    requires -0x8000_0000_0000_0000 <= v < 0x8000_0000_0000_0000
  {
    if v < 0 then v + WORD_LIMIT else v
  }

  /**
   A signed number is printed as itself exactly when it is a negative int, or it is not negative and
   its bit 31 is clear: the sign is decided on the low 32 bits.
   */
  lemma SignedTextIsRightIff(v: int, base: nat, padding: nat, padWith: char, upper: bool)
    requires -0x8000_0000_0000_0000 <= v < 0x8000_0000_0000_0000
    requires 2 <= base <= 16 && GoodPad(padWith)
    ensures
      Parse(NumText(AsWord(v), base, padding, padWith, true, upper, -1), base, padWith) == v
      <==> if v < 0 then v >= -0x8000_0000 else v % INT_RANGE < INT_HALF
  {
    SignIsRightIff(v);
    hide NumText, Parse, Magnitude, Negative, GoodPad, AsWord;
    ParseInvertsNumText(AsWord(v), base, padding, padWith, true, upper, -1);
  }

  lemma SignIsRightIff(v: int)
    requires -0x8000_0000_0000_0000 <= v < 0x8000_0000_0000_0000
    ensures
      var n: int := Magnitude(AsWord(v), true);
      (if Negative(AsWord(v), true) then -n else n) == v
      <==> if v < 0 then v >= -0x8000_0000 else v % INT_RANGE < INT_HALF
  {
    assert v < 0 ==> AsWord(v) % INT_RANGE == v % INT_RANGE;
  }

  /** 2^31 is printed as its negative. */
  lemma TwoToThe31IsPrintedNegative()
    ensures Parse(NumText(0x8000_0000, 10, 0, ' ', true, false, -1), 10, ' ') == -0x8000_0000
  {
    hide NumText, Parse;
    ParseInvertsNumText(0x8000_0000, 10, 0, ' ', true, false, -1);
  }

  // ---------------------------------------------------------------------------------------
  // num_fmt

  /** From ptr on the buffer holds a terminated string; before it, what it held. */
  ghost predicate Holds(buf: array<char>, ptr: nat, s: string, was: seq<char>)
    reads buf
  {
    ptr <= 64 && buf.Length == 65 == |was| && buf[ptr..] == s + [NUL] && buf[..ptr] == was[..ptr]
  }

  /** One character in front of those already there. */
  method PutBefore(buf: array<char>, ptr: nat, c: char, ghost s: string, ghost was: seq<char>) returns (next: nat)
    requires Holds(buf, ptr, s, was) && ptr > 0
    modifies buf
    ensures next == ptr - 1 && Holds(buf, next, [c] + s, was)
  {
    next := ptr - 1;
    ghost var tail, head := buf[ptr..], buf[..ptr];
    buf[next] := c;
    assert buf[next..] == [c] + tail;
    assert buf[..next] == head[..next];
  }

  /** What is left to print once the loop has ended, or not. */
  function Rest(more: bool, x: nat, base: nat, upper: bool, len: int): string
    requires 2 <= base <= 16
  {
    if more then DigitText(x, base, upper, len) else ""
  }

  lemma DigitStep(x: nat, base: nat, upper: bool, len: int, s: string)
    requires 2 <= base <= 16
    ensures
      var more, c := More(x, base, len), if upper then UPPER[x % base] else LOWER[x % base];
      && Rest(true, x, base, upper, len) + s == Rest(more, x / base, base, upper, NextLen(len)) + ([c] + s)
      && (more ==> x / base < x)
  {
    Unfold(x, base, upper, len);
    if More(x, base, len) {
      QuotientSmaller(x, base, len);
    }
    hide DigitText;
    var rest := Rest(More(x, base, len), x / base, base, upper, NextLen(len));
    assert (rest + [Digit(x % base, upper)]) + s == rest + ([Digit(x % base, upper)] + s);
  }

  lemma NoPads(c: char, text: string)
    ensures Pads(0, c) + text == text
  {
  }

  lemma PadStep(n: int, c: char, text: string)
    requires n >= 0
    ensures Pads(n + 1, c) + text == [c] + (Pads(n, c) + text)
  {
  }

  function PadsLeft(pads: nat, printed: nat): nat { if pads <= printed then 0 else pads - printed }

  /** The first loop of num_fmt: digits from the right, each using up one pad. */
  method PutDigits(buf: array<char>, value: nat, base: nat, pads: nat, upper: bool, limit: int, ghost was: seq<char>)
    returns (ptr: nat, padding: nat)
    requires 2 <= base <= 16 && |DigitText(value, base, upper, limit)| <= 64 && Holds(buf, 64, "", was)
    modifies buf
    ensures
      var text := DigitText(value, base, upper, limit);
      ptr + |text| == 64 && padding == PadsLeft(pads, |text|) && Holds(buf, ptr, text, was)
  {
    ghost var text := DigitText(value, base, upper, limit);
    var i: nat := value;
    var len, more := limit, true;
    ptr, padding := 64, pads;
    ghost var s := "";
    hide DigitText;
    assert text == Rest(more, i, base, upper, len) + s;
    hide Rest, Holds, More, Digit;
    while more
      invariant Holds(buf, ptr, s, was) && ptr + |s| == 64
      invariant text == Rest(more, i, base, upper, len) + s
      invariant padding == PadsLeft(pads, |s|)
      decreases if more then i + 1 else 0
    {
      DigitStep(i, base, upper, len, s);
      AtLeastOne(i, base, upper, len);
      DivMod(i, base);
      var c := if upper then UPPER[i % base] else LOWER[i % base];
      ptr := PutBefore(buf, ptr, c, s, was);
      s := [c] + s;
      if padding != 0 {
        padding := padding - 1;
      }
      more := More(i, base, len);
      if len > 0 {
        len := len - 1;
      }
      i := i / base;
    }
    NothingLeft(i, base, upper, len, s);
  }

  /** The second loop: what padding is left. */
  method PutPads(buf: array<char>, start: nat, n: nat, padWith: char, ghost text: string, ghost was: seq<char>)
    returns (ptr: nat)
    requires Holds(buf, start, text, was) && n <= start
    modifies buf
    ensures ptr == start - n && Holds(buf, ptr, Pads(n, padWith) + text, was)
  {
    ptr := start;
    var padding: nat := n;
    hide *;
    NoPads(padWith, text);
    while padding != 0
      invariant padding <= n && ptr == start - (n - padding)
      invariant Holds(buf, ptr, Pads(n - padding, padWith) + text, was)
    {
      PadStep(n - padding, padWith, text);
      ptr := PutBefore(buf, ptr, padWith, Pads(n - padding, padWith) + text, was);
      padding := padding - 1;
    }
  }

  /** Fills a 65-byte buffer from its end; the result is the index of the first character. */
  method NumFmt(buf: array<char>, value: Word, base: nat, pads: nat, padWith: char, signed: bool, upper: bool,
      limit: int)
    returns (ptr: nat)
    requires buf.Length == 65 && 2 <= base <= 16
    requires pads + (if Negative(value, signed) then 1 else 0) <= 64
    modifies buf
    ensures Holds(buf, ptr, NumText(value, base, pads, padWith, signed, upper, limit), old(buf[..]))
  {
    var neg := value % INT_RANGE >= INT_HALF && signed;
    var i: nat := value;
    if neg {
      i := INT_RANGE - i % INT_RANGE;
    }
    assert neg == Negative(value, signed) && i == Magnitude(value, signed);
    DigitsFit(value, base, upper, signed, limit);
    TextParts(value, base, pads, padWith, signed, upper, limit);
    ghost var text, was := DigitText(i, base, upper, limit), buf[..];
    buf[64] := NUL;
    assert Holds(buf, 64, "", was);
    var padding;
    ptr, padding := PutDigits(buf, i, base, pads, upper, limit, was);
    hide *;
    ptr := PutPads(buf, ptr, padding, padWith, text, was);
    if neg {
      ptr := PutBefore(buf, ptr, '-', Pads(padding, padWith) + text, was);
    }
  }

  lemma AtLeastOne(x: nat, base: nat, upper: bool, len: int)
    requires 2 <= base <= 16
    ensures |Rest(true, x, base, upper, len)| >= 1
  {
  }

  lemma NothingLeft(x: nat, base: nat, upper: bool, len: int, s: string)
    requires 2 <= base <= 16
    ensures Rest(false, x, base, upper, len) + s == s
  {
  }

  lemma TextParts(i: nat, base: nat, padding: nat, padWith: char, signed: bool, upper: bool, len: int)
    requires 2 <= base <= 16
    ensures
      var d := DigitText(Magnitude(i, signed), base, upper, len);
      var t := Pads(PadsLeft(padding, |d|), padWith) + d;
      NumText(i, base, padding, padWith, signed, upper, len) == if Negative(i, signed) then ['-'] + t else t
  {
    var d := DigitText(Magnitude(i, signed), base, upper, len);
    var p := Pads(PadsLeft(padding, |d|), padWith);
    assert p == Pads(padding - |d|, padWith);
    hide DigitText, Pads;
    assert "" + p + d == p + d;
    assert ['-'] + p + d == ['-'] + (p + d);
  }
}
