/** The formatter: what a format and its arguments print, and how the bounded buffer callback keeps it. */
module Printf {
  import opened Bits
  import opened NumberFormat

  datatype Option<T> = None | Some(value: T)

  type Int = v: int | -0x8000_0000 <= v < 0x8000_0000
  type Long = v: int | -0x8000_0000_0000_0000 <= v < 0x8000_0000_0000_0000
  type CString = s: string | NUL !in s witness ""

  /** One variadic argument, as the type it was passed with. */
  datatype Arg =
    | AnInt(number: Int)
    | ALong(wide: Long)
    | APointer(address: Word)
    | AString(chars: CString)
    | ANull
    | AnError(code: nat)

  // ---------------------------------------------------------------------------------------
  // Conversion specifications

  /** The characters after a percent sign, up to and without the rest of the format. */
  datatype Directive = Directive(padWith: char, padding: nat, wide: bool, conversion: char, rest: string)

  predicate StartsWith(f: string, c: char) { f != "" && f[0] == c }

  predicate StartsWithDigit(f: string) { f != "" && '0' <= f[0] <= '9' }

  function DropZero(f: string): string { if StartsWith(f, '0') then f[1..] else f }

  function Width(f: string, n: nat): nat {
    if StartsWithDigit(f) then Width(f[1..], n * 10 + (f[0] as int - '0' as int)) else n
  }

  function DropDigits(f: string): (g: string)
    ensures |g| <= |f|
  {
    if StartsWithDigit(f) then DropDigits(f[1..]) else f
  }

  function DropLs(f: string): (g: string)
    ensures |g| <= |f|
  {
    if StartsWith(f, 'l') then DropLs(f[1..]) else f
  }

  /** None if the format ends inside the specification. */
  function ReadDirective(f: string): (d: Option<Directive>)
    ensures d.Some? ==> |d.value.rest| < |f|
  {
    var g := DropZero(f);
    var h := DropLs(DropDigits(g));
    if h == "" then None
    else
      var padWith := if StartsWith(f, '0') then '0' else ' ';
      Some(Directive(padWith, Width(g, 0), StartsWith(DropDigits(g), 'l'), h[0], h[1..]))
  }

  // ---------------------------------------------------------------------------------------
  // What a specification prints

  /** A call of num_fmt. */
  datatype Number = Number(value: Word, base: nat, signed: bool, upper: bool, limit: int)

  /** The next argument as va_arg reads it: an int or a long, sign-extended to 64 bits. */
  function NextInteger(wide: bool, args: seq<Arg>): Option<Word> {
    if args == [] then None
    else match args[0]
      case AnInt(v) => if wide then None else Some(AsWord(v))
      case ALong(v) => if wide then Some(AsWord(v)) else None
      case _ => None
  }

  /** For the conversions that print a number: which, and how. */
  function ReadNumber(d: Directive, args: seq<Arg>): (n: Option<Number>)
    ensures n.Some? ==> args != [] && 2 <= n.value.base <= 16
  {
    if d.conversion in "pP" then
      if args != [] && args[0].APointer? then Some(Number(args[0].address, 16, false, d.conversion == 'P', 16))
      else None
    else
      match NextInteger(d.wide, args)
      case None => None
      case Some(i) =>
        if d.conversion == 'd' then Some(Number(i, 10, true, false, -1))
        else if d.conversion == 'u' then Some(Number(i, 10, false, false, -1))
        else if d.conversion in "xX" then Some(Number(i, 16, false, d.conversion == 'X', if d.wide then 16 else 8))
        else if d.conversion == 'b' then Some(Number(i, 2, false, false, if d.wide then 64 else 32))
        else None
  }

  const ERRORS := ["NO_ERROR", "ERROR_CHECK_FAILED", "ERROR_NOT_FOUND", "ERROR_OUT_OF_RESOURCES", "ERROR_UNSUPPORTED"]

  /** The text, and the arguments left. */
  datatype Piece = Piece(text: string, args: seq<Arg>)

  /** The buffer of num_fmt has room for 64 characters. */
  predicate NumberFits(n: Number, padding: nat) { padding + (if Negative(n.value, n.signed) then 1 else 0) <= 64 }

  function NumberText(n: Number, padding: nat, padWith: char): string
    requires 2 <= n.base <= 16
  {
    NumText(n.value, n.base, padding, padWith, n.signed, n.upper, n.limit)
  }

  const SIZES := ["B", "KB", "MB", "GB"]

  /** A size in whole units of 1024^unit, and the remainder of the last division. */
  datatype Scaled = Scaled(whole: nat, unit: nat, rem: nat)

  function Scale(i: nat, unit: nat, rem: nat): (r: Scaled)
    ensures r.unit >= unit && r.whole <= i
  {
    if i >= 1024 && unit < 4 then Scale(i / 1024, unit + 1, i % 1024) else Scaled(i, unit, rem)
  }

  /** Sizes from here on run past the table of units. */
  const TERA: nat := 0x100_0000_0000

  /** Below it the loop finds the unit, the whole units and the 1024ths of one, as quotient and remainder. */
  lemma ScaleIs(i: nat)
    ensures Scale(i, 0, 0).unit < |SIZES| <==> i < TERA
    ensures i < 0x400 ==> Scale(i, 0, 0) == Scaled(i, 0, 0)
    ensures 0x400 <= i < 0x10_0000 ==> Scale(i, 0, 0) == Scaled(i / 0x400, 1, i % 0x400)
    ensures 0x10_0000 <= i < 0x4000_0000 ==> Scale(i, 0, 0) == Scaled(i / 0x10_0000, 2, i / 0x400 % 0x400)
    ensures 0x4000_0000 <= i < TERA ==> Scale(i, 0, 0) == Scaled(i / 0x4000_0000, 3, i / 0x10_0000 % 0x400)
    ensures i < TERA ==> Scale(i, 0, 0).whole < 1024
  {
    var a, b, c := i / 1024, i / 1024 / 1024, i / 1024 / 1024 / 1024;
    assert b == i / 0x10_0000 && c == i / 0x4000_0000;
    if i >= 1024 {
      assert Scale(i, 0, 0) == Scale(a, 1, i % 1024);
      if a >= 1024 {
        assert Scale(a, 1, i % 1024) == Scale(b, 2, a % 1024);
        if b >= 1024 {
          assert Scale(b, 2, a % 1024) == Scale(c, 3, b % 1024);
          if c >= 1024 {
            assert Scale(c, 3, b % 1024) == Scale(c / 1024, 4, c % 1024);
          }
        }
      }
    }
  }

  function Decimal(i: nat): string { NumText(i, 10, 0, ' ', false, false, -1) }

  /** Hundredths of a unit, rounded down. */
  function Hundredths(r: Scaled): nat { r.rem * 100 / 1024 }

  /** The whole units, and after a point, if there is a remainder to speak of, the whole units again. */
  function SizeText(i: nat): string
    requires i < TERA
  {
    ScaleIs(i);
    var r := Scale(i, 0, 0);
    Decimal(r.whole) + (if Hundredths(r) != 0 then "." + Decimal(r.whole) else "") + SIZES[r.unit]
  }

  /** What it should be: the unit by the size, and after a point the hundredths, in at least width digits. */
  function RightSizeText(i: nat, width: nat): string {
    if i < 0x400 then Decimal(i) + "B"
    else if i < 0x10_0000 then Fixed(i / 0x400, i % 0x400, width) + "KB"
    else if i < 0x4000_0000 then Fixed(i / 0x10_0000, i / 0x400 % 0x400, width) + "MB"
    else Fixed(i / 0x4000_0000, i / 0x10_0000 % 0x400, width) + "GB"
  }

  /** Units and 1024ths of one, to two places. */
  function Fixed(whole: nat, rem: nat, width: nat): string {
    Decimal(whole) + if rem * 100 / 1024 != 0 then "." + Fraction(rem * 100 / 1024, width) else ""
  }

  function Fraction(h: nat, width: nat): string { NumText(h, 10, width, '0', false, false, -1) }

  /** None for a missing or mistyped argument, and where the code's behaviour is undefined. */
  function Convert(d: Directive, args: seq<Arg>): Option<Piece> {
    if d.conversion in "duxXbpP" then
      match ReadNumber(d, args)
      case None => None
      case Some(n) =>
        if NumberFits(n, d.padding) then Some(Piece(NumberText(n, d.padding, d.padWith), args[1..])) else None
    else if d.conversion == 'c' then
      if args != [] && args[0].AnInt? then Some(Piece([(args[0].number % 256) as char], args[1..])) else None
    else if d.conversion == 's' then
      if args == [] then None
      else match args[0]
        case AString(s) => Some(Piece(s, args[1..]))
        case ANull => Some(Piece("<null>", args[1..]))
        case _ => None
    else if d.conversion == '%' then Some(Piece("%", args))
    else if d.conversion == 'S' then
      match NextInteger(d.wide, args)
      case None => None
      case Some(i) => if i < TERA then Some(Piece(SizeText(i), args[1..])) else None
    else if d.conversion == 'R' then
      if args != [] && args[0].AnError? && args[0].code < |ERRORS| then Some(Piece(ERRORS[args[0].code], args[1..]))
      else None
    else Some(Piece("", args))
  }

  /** What the callback receives and the arguments not read; None outside the formats and arguments covered. */
  function Format(fmt: string, args: seq<Arg>): Option<Piece>
    decreases |fmt|
  {
    if fmt == "" then Some(Piece("", args))
    else if fmt[0] != '%' then Before([fmt[0]], Format(fmt[1..], args))
    else
      match ReadDirective(fmt[1..])
      case None => None
      case Some(d) =>
        match Convert(d, args)
        case None => None
        case Some(p) => Before(p.text, Format(d.rest, p.args))
  }

  function Before(s: string, p: Option<Piece>): Option<Piece> {
    if p.Some? then Some(Piece(s + p.value.text, p.value.args)) else None
  }

  // ---------------------------------------------------------------------------------------
  // Laws of the formatter

  /** Every percent sign doubled. */
  function Escape(s: string): string {
    if s == "" then "" else (if s[0] == '%' then "%%" else [s[0]]) + Escape(s[1..])
  }

  lemma PercentPrinted(rest: string, args: seq<Arg>)
    ensures Format("%%" + rest, args) == Before("%", Format(rest, args))
  {
    var f, d := "%%" + rest, Directive(' ', 0, false, '%', rest);
    assert f[1..] == "%" + rest && f[1..][1..] == rest;
    assert ReadDirective(f[1..]) == Some(d);
    assert Convert(d, args) == Some(Piece("%", args));
    hide ReadDirective, Convert;
  }

  lemma {:induction false} EscapedPrintsItself(s: string, args: seq<Arg>)
    ensures Format(Escape(s), args) == Some(Piece(s, args))
  {
    if s == "" {
    } else {
      EscapedPrintsItself(s[1..], args);
      var f, rest := Escape(s), Escape(s[1..]);
      assert [s[0]] + s[1..] == s;
      if s[0] == '%' {
        PercentPrinted(rest, args);
        hide Format;
      } else {
        assert f[1..] == rest;
      }
    }
  }

  lemma {:induction false} WidthOfAppended(f: string, g: string, n: nat)
    requires DropDigits(f) != ""
    ensures DropDigits(f + g) == DropDigits(f) + g && Width(f + g, n) == Width(f, n)
  {
    if !StartsWithDigit(f) {
    } else {
      assert (f + g)[1..] == f[1..] + g;
      WidthOfAppended(f[1..], g, n * 10 + (f[0] as int - '0' as int));
    }
  }

  lemma {:induction false} LsOfAppended(f: string, g: string)
    requires DropLs(f) != ""
    ensures DropLs(f + g) == DropLs(f) + g
  {
    if !StartsWith(f, 'l') {
    } else {
      assert (f + g)[1..] == f[1..] + g;
      LsOfAppended(f[1..], g);
    }
  }

  /** A complete specification is read the same way whatever follows it. */
  lemma DirectiveOfAppended(f: string, g: string)
    requires ReadDirective(f).Some?
    ensures ReadDirective(f + g) == Some(ReadDirective(f).value.(rest := ReadDirective(f).value.rest + g))
  {
    var z := DropZero(f);
    assert f != "" by { assert DropDigits("") == DropLs("") == ""; }
    assert DropZero(f + g) == z + g;
    assert DropDigits(z) != "";
    WidthOfAppended(z, g, 0);
    LsOfAppended(DropDigits(z), g);
    var h := DropLs(DropDigits(z));
    assert (h + g)[1..] == h[1..] + g;
  }

  /** What one step of the formatter prints, and where it goes on. */
  ghost predicate Steps(f: string, args: seq<Arg>, p: Piece, rest: string) {
    && f != "" && |rest| < |f|
    && if f[0] != '%' then p == Piece([f[0]], args) && rest == f[1..]
       else ReadDirective(f[1..]).Some? && rest == ReadDirective(f[1..]).value.rest
            && Convert(ReadDirective(f[1..]).value, args) == Some(p)
  }

  lemma Unfold(f: string, args: seq<Arg>) returns (p: Piece, rest: string)
    requires f != "" && Format(f, args).Some?
    ensures Steps(f, args, p, rest) && Format(rest, p.args).Some?
  {
    if f[0] != '%' {
      p, rest := Piece([f[0]], args), f[1..];
    } else {
      var d := ReadDirective(f[1..]).value;
      p, rest := Convert(d, args).value, d.rest;
    }
  }

  lemma Fold(f: string, args: seq<Arg>, p: Piece, rest: string)
    requires Steps(f, args, p, rest)
    ensures Format(f, args) == Before(p.text, Format(rest, p.args))
  {
  }

  lemma StepsAppended(f: string, g: string, args: seq<Arg>, p: Piece, rest: string)
    requires Steps(f, args, p, rest)
    ensures Steps(f + g, args, p, rest + g)
  {
    assert (f + g)[1..] == f[1..] + g;
    if f[0] == '%' {
      DirectiveOfAppended(f[1..], g);
      var d := ReadDirective(f[1..]).value;
      SameConversion(d, d.rest + g, args);
    }
  }

  lemma SameConversion(d: Directive, rest: string, args: seq<Arg>)
    ensures Convert(d.(rest := rest), args) == Convert(d, args)
  {
  }

  /** A format after a format: the texts one after the other, the second from the arguments the first left. */
  lemma {:induction false} FormatOfAppended(f: string, g: string, args: seq<Arg>)
    requires Format(f, args).Some?
    ensures Format(f + g, args) == Before(Format(f, args).value.text, Format(g, Format(f, args).value.args))
    decreases |f|
  {
    if f == "" {
      assert f + g == g;
      BeforeNothing(Format(g, args));
    } else {
      hide Format, ReadDirective, Convert;
      var p, rest := Unfold(f, args);
      Fold(f, args, p, rest);
      StepsAppended(f, g, args, p, rest);
      Fold(f + g, args, p, rest + g);
      FormatOfAppended(rest, g, p.args);
      var q := Format(rest, p.args).value;
      BeforeTwice(p.text, q.text, Format(g, q.args));
    }
  }

  lemma BeforeNothing(p: Option<Piece>)
    ensures Before("", p) == p
  {
    if p.Some? {
      assert "" + p.value.text == p.value.text;
    }
  }

  lemma BeforeTwice(s: string, t: string, p: Option<Piece>)
    ensures Before(s + t, p) == Before(s, Before(t, p))
  {
    if p.Some? {
      assert (s + t) + p.value.text == s + (t + p.value.text);
    }
  }

  /** The text of a covered format. */
  ghost function Text(f: string, args: seq<Arg>): string {
    if Format(f, args).Some? then Format(f, args).value.text else ""
  }

  ghost predicate Covered(f: string, args: seq<Arg>) { Format(f, args).Some? }

  lemma LimitPowers()
    ensures Power(16, 8) == Power(2, 32) == INT_RANGE
    ensures Power(16, 16) == Power(2, 64) == WORD_LIMIT
  {
    assert Power(16, 4) == 0x1_0000;
    assert Power(2, 8) == 0x100;
    hide Power;
    PowerStep(16, 4, 4);
    PowerStep(16, 8, 8);
    PowerStep(2, 8, 8);
    PowerStep(2, 16, 16);
    PowerStep(2, 32, 32);
  }

  lemma {:induction false} PowerStep(b: nat, m: nat, n: nat)
    ensures Power(b, m + n) == Power(b, m) * Power(b, n)
  {
    if m == 0 {
    } else {
      PowerStep(b, m - 1, n);
      assert b * (Power(b, m - 1) * Power(b, n)) == (b * Power(b, m - 1)) * Power(b, n) by {
        Associates(b, Power(b, m - 1), Power(b, n));
      }
    }
  }

  lemma SoleDirective(f: string, d: Directive, args: seq<Arg>, p: Piece)
    requires ReadDirective(f) == Some(d) && d.rest == "" && Convert(d, args) == Some(p)
    ensures Covered("%" + f, args) && Text("%" + f, args) == p.text
  {
    var s := "%" + f;
    assert s[1..] == f && p.text + "" == p.text;
    assert Format("", p.args) == Some(Piece("", p.args));
    hide ReadDirective, Convert;
    Fold(s, args, p, "");
  }

  lemma NumberConversion(d: Directive, arg: Arg, n: Number)
    requires d.conversion in "duxXbpP" && ReadNumber(d, [arg]) == Some(n) && NumberFits(n, d.padding)
    ensures Convert(d, [arg]) == Some(Piece(NumberText(n, d.padding, d.padWith), []))
  {
    assert [arg][1..] == [];
    hide NumberText;
  }

  /** What the reader makes of a number printed. */
  function Reading(n: Number): int
    requires n.base > 0
  {
    var m: int := Truncated(Magnitude(n.value, n.signed), n.base, n.limit);
    if Negative(n.value, n.signed) then -m else m
  }

  lemma NumberTextReadsBack(n: Number, padding: nat, padWith: char)
    requires 2 <= n.base <= 16 && GoodPad(padWith)
    ensures Parse(NumberText(n, padding, padWith), n.base, padWith) == Reading(n)
  {
    hide NumText, Parse, Truncated, Magnitude;
    ParseInvertsNumText(n.value, n.base, padding, padWith, n.signed, n.upper, n.limit);
  }

  /** The number a conversion is meant to print: the argument, or its two's complement of the argument's width. */
  function Meant(conversion: char, arg: Arg): int {
    match arg
    case AnInt(v) => if conversion == 'd' then v else v % INT_RANGE
    case ALong(v) => if conversion == 'd' then v else v % WORD_LIMIT
    case APointer(a) => a
    case _ => 0
  }

  /** It does, except for %u of a negative int and %ld of a long whose low half has the wrong sign. */
  predicate PrintsMeant(conversion: char, arg: Arg) {
    match arg
    case AnInt(v) => conversion == 'u' ==> v >= 0
    case ALong(v) => conversion == 'd' ==> if v < 0 then v >= -0x8000_0000 else v % INT_RANGE < INT_HALF
    case _ => true
  }

  lemma ReadingIsMeantIff(d: Directive, arg: Arg, n: Number)
    requires d.conversion in "duxXbpP" && ReadNumber(d, [arg]) == Some(n)
    ensures Reading(n) == Meant(d.conversion, arg) <==> PrintsMeant(d.conversion, arg)
  {
    match arg {
      case AnInt(v) => IntMeant(d, v, n);
      case ALong(v) => LongMeant(d, v, n);
      case APointer(a) => PointerMeant(d, a, n);
      case _ =>
    }
  }

  lemma IntMeant(d: Directive, v: Int, n: Number)
    requires d.conversion in "duxXbpP" && ReadNumber(d, [AnInt(v)]) == Some(n)
    ensures Reading(n) == Meant(d.conversion, AnInt(v)) <==> PrintsMeant(d.conversion, AnInt(v))
  {
    LimitPowers();
    hide Power;
    SignExtended(v);
  }

  lemma LongMeant(d: Directive, v: Long, n: Number)
    requires d.conversion in "duxXbpP" && ReadNumber(d, [ALong(v)]) == Some(n)
    ensures Reading(n) == Meant(d.conversion, ALong(v)) <==> PrintsMeant(d.conversion, ALong(v))
  {
    LimitPowers();
    hide Power;
    LongWrapped(v);
  }

  lemma PointerMeant(d: Directive, a: Word, n: Number)
    requires d.conversion in "duxXbpP" && ReadNumber(d, [APointer(a)]) == Some(n)
    ensures Reading(n) == a
  {
    LimitPowers();
    hide Power;
  }

  lemma SignExtended(v: Int)
    ensures AsWord(v) % INT_RANGE == v % INT_RANGE
    ensures AsWord(v) == v % INT_RANGE <==> v >= 0
  {
  }

  lemma LongWrapped(v: Long)
    ensures AsWord(v) == v % WORD_LIMIT && AsWord(v) % INT_RANGE == v % INT_RANGE
  {
  }

  /** The base and the case of each conversion's digits. */
  function BaseOf(conversion: char): nat {
    if conversion in "du" then 10 else if conversion == 'b' then 2 else 16
  }

  /** The argument a number conversion takes. */
  predicate Takes(d: Directive, arg: Arg) {
    if d.conversion in "pP" then arg.APointer? else if d.wide then arg.ALong? else arg.AnInt?
  }

  /** %d prints a minus exactly if bit 31 of its argument is set. */
  predicate Minus(conversion: char, arg: Arg) {
    conversion == 'd'
    && match arg
       case AnInt(v) => v < 0
       case ALong(v) => v % INT_RANGE >= INT_HALF
       case _ => false
  }

  /** The 64 characters of the buffer hold the padding and the sign. */
  predicate PaddingFits(d: Directive, arg: Arg) { d.padding + (if Minus(d.conversion, arg) then 1 else 0) <= 64 }

  /** What every conversion passes to num_fmt. */
  lemma NumberIsRead(d: Directive, arg: Arg) returns (n: Number)
    requires d.conversion in "duxXbpP" && Takes(d, arg) && PaddingFits(d, arg)
    ensures ReadNumber(d, [arg]) == Some(n) && NumberFits(n, d.padding)
    ensures n.base == BaseOf(d.conversion) && n.upper == (d.conversion in "XP")
    ensures Negative(n.value, n.signed) == Minus(d.conversion, arg)
  {
    n := ReadNumber(d, [arg]).value;
    match arg {
      case AnInt(v) => SignExtended(v);
      case ALong(v) => LongWrapped(v);
      case _ =>
    }
  }

  lemma NumberPrinted(f: string, d: Directive, arg: Arg) returns (n: Number)
    requires ReadDirective(f) == Some(d) && d.rest == "" && d.conversion in "duxXbpP"
    requires Takes(d, arg) && PaddingFits(d, arg)
    ensures ReadNumber(d, [arg]) == Some(n)
    ensures n.base == BaseOf(d.conversion) && n.upper == (d.conversion in "XP")
    ensures Negative(n.value, n.signed) == Minus(d.conversion, arg)
    ensures Covered("%" + f, [arg]) && Text("%" + f, [arg]) == NumberText(n, d.padding, d.padWith)
  {
    hide *;
    n := NumberIsRead(d, arg);
    NumberConversion(d, arg, n);
    SoleDirective(f, d, [arg], Piece(NumberText(n, d.padding, d.padWith), []));
  }

  lemma PadIsGood(f: string, d: Directive)
    requires ReadDirective(f) == Some(d)
    ensures GoodPad(d.padWith)
  {
    hide DropDigits, DropLs, Width;
  }

  /**
   A number printed by any conversion, with any flags and padding that fit, reads back as what was meant
   exactly in these cases: %d, %x, %X and %b of any int although it is printed sign-extended to 64 bits,
   %u of an int that is not negative, every %lu, %lx, %lX, %lb, %p and %P, and %ld where the sign is right.
   */
  lemma NumberReadsBackIff(f: string, d: Directive, arg: Arg)
    requires ReadDirective(f) == Some(d) && d.rest == "" && d.conversion in "duxXbpP"
    requires Takes(d, arg) && PaddingFits(d, arg)
    ensures Covered("%" + f, [arg])
    ensures
      Parse(Text("%" + f, [arg]), BaseOf(d.conversion), d.padWith) == Meant(d.conversion, arg)
      <==> PrintsMeant(d.conversion, arg)
  {
    hide *;
    PadIsGood(f, d);
    var n := NumberPrinted(f, d, arg);
    NumberTextReadsBack(n, d.padding, d.padWith);
    ReadingIsMeantIff(d, arg, n);
  }

  /**
   The text of a number: a minus if there is one, then pads up to the width asked for, then digits of the
   conversion's base and case, as many as the number has.
   */
  lemma NumberIsLaidOut(f: string, d: Directive, arg: Arg) returns (digits: string)
    requires ReadDirective(f) == Some(d) && d.rest == "" && d.conversion in "duxXbpP"
    requires Takes(d, arg) && PaddingFits(d, arg)
    ensures
      var minus := if Minus(d.conversion, arg) then "-" else "";
      var pads: nat := if |digits| < d.padding then d.padding - |digits| else 0;
      Text("%" + f, [arg]) == minus + seq(pads, i => d.padWith) + digits
    ensures digits != "" && AllDigits(digits, BaseOf(d.conversion), d.conversion in "XP")
    ensures |digits| > 1 ==> Power(BaseOf(d.conversion), |digits| - 1) <= Value(digits, BaseOf(d.conversion))
  {
    hide *;
    var n := NumberPrinted(f, d, arg);
    var x := Magnitude(n.value, n.signed);
    digits := DigitText(x, n.base, n.upper, n.limit);
    BasesFit(d.conversion);
    NumberTextIs(n, d.padding, d.padWith);
    NumberFormat.Unfold(x, n.base, n.upper, n.limit);
    DigitsInCase(x, n.base, n.upper, n.limit);
    DigitsValue(x, n.base, n.upper, n.limit);
    NoLeadingZero(d, arg, n);
  }

  lemma BasesFit(conversion: char)
    ensures 2 <= BaseOf(conversion) <= 16
  {
  }

  lemma NumberTextIs(n: Number, padding: nat, padWith: char)
    requires 2 <= n.base <= 16
    ensures
      var digits := DigitText(Magnitude(n.value, n.signed), n.base, n.upper, n.limit);
      var pads: nat := if |digits| < padding then padding - |digits| else 0;
      digits != "" && NumberText(n, padding, padWith)
      == (if Negative(n.value, n.signed) then "-" else "") + seq(pads, i => padWith) + digits
  {
    hide DigitText;
  }

  lemma {:induction false} PowerGrows(b: nat, m: nat, n: nat)
    requires b > 0 && m <= n
    ensures Power(b, m) <= Power(b, n)
  {
    if m == n {
    } else {
      PowerGrows(b, m, n - 1);
      PowerNext(b, n - 1);
    }
  }

  /** Only a negative int is cut, and what is left of it still has all its digits. */
  lemma NoLeadingZero(d: Directive, arg: Arg, n: Number)
    requires d.conversion in "duxXbpP" && ReadNumber(d, [arg]) == Some(n)
    ensures
      var digits := DigitText(Magnitude(n.value, n.signed), n.base, n.upper, n.limit);
      |digits| > 1 ==> Power(n.base, |digits| - 1) <= Truncated(Magnitude(n.value, n.signed), n.base, n.limit)
  {
    hide DigitText, Power, Truncated, Magnitude;
    var x := Magnitude(n.value, n.signed);
    LimitIs(d, arg, n);
    if n.limit > 0 && x >= Power(n.base, n.limit) {
      CutInt(d, arg, n);
      CutDigits(x, n.base, n.upper, n.limit);
    } else {
      WholeDigits(x, n.base, n.upper, n.limit);
    }
  }

  lemma LimitIs(d: Directive, arg: Arg, n: Number)
    requires d.conversion in "duxXbpP" && ReadNumber(d, [arg]) == Some(n)
    ensures (n.limit == -1 || n.limit > 0) && (n.limit > 0 ==> Magnitude(n.value, n.signed) == n.value)
  {
  }

  lemma WholeDigits(x: nat, base: nat, upper: bool, len: int)
    requires 2 <= base <= 16 && (len > 0 ==> x < Power(base, len)) && len != 0
    ensures
      var k := |DigitText(x, base, upper, len)|;
      k > 1 ==> Power(base, k - 1) <= Truncated(x, base, len)
  {
    hide DigitText, Power;
    DigitCount(x, base, upper, len);
    if len > 0 {
      DivModUnique(x, Power(base, len), 0, x);
    }
  }

  lemma CutDigits(x: nat, base: nat, upper: bool, len: nat)
    requires 2 <= base <= 16 && len > 0 && Truncated(x, base, len) >= Power(base, len - 1)
    ensures
      var k := |DigitText(x, base, upper, len)|;
      k > 1 ==> Power(base, k - 1) <= Truncated(x, base, len)
  {
    hide *;
    DigitCount(x, base, upper, len);
    var k := |DigitText(x, base, upper, len)|;
    if k > 1 {
      PowerGrows(base, k - 1, len - 1);
    }
  }

  lemma CutInt(d: Directive, arg: Arg, n: Number)
    requires d.conversion in "duxXbpP" && ReadNumber(d, [arg]) == Some(n) && n.limit > 0
    requires n.value >= Power(n.base, n.limit)
    ensures !n.signed && Truncated(n.value, n.base, n.limit) >= Power(n.base, n.limit - 1)
  {
    LimitPowers();
    TopPowers();
    hide Power;
    assert arg.AnInt?;
    SignExtended(arg.number);
  }

  lemma TopPowers()
    ensures Power(16, 7) <= INT_HALF && Power(2, 31) == INT_HALF
  {
    LimitPowers();
    PowerNext(16, 7);
    PowerNext(2, 31);
  }

  // ---------------------------------------------------------------------------------------
  // buffer_output_cb

  /** What a buffer that held was holds once size bytes of it have been offered sent. */
  ghost function Kept(sent: string, size: nat, was: seq<char>): seq<char>
    requires size <= |was|
  {
    if size == 0 then was
    else if |sent| < size then sent + was[|sent|..]
    else sent[..size - 1] + [NUL] + was[size..]
  }

  class BufferContext {
    const store: array<char>
    const capacity: nat
    var buffer: nat
    var size: nat
    ghost const was: seq<char>
    ghost var sent: string

    /** The store holds what it must of everything sent so far. */
    ghost predicate Valid()
      reads this, store
    {
      && capacity <= store.Length == |was|
      && store[..] == Kept(sent, capacity, was)
      && size == (if |sent| < capacity then capacity - |sent| else 0)
      && (size > 0 ==> buffer == |sent|)
    }

    constructor (buffer: array<char>, size: nat)
      requires size <= buffer.Length
      ensures Valid() && fresh(this) && store == buffer && capacity == size && sent == "" && was == buffer[..]
    {
      store, capacity, this.buffer, this.size := buffer, size, 0, size;
      was, sent := buffer[..], "";
    }

    method Output(c: char)
      requires Valid()
      modifies this, store
      ensures Valid() && sent == old(sent) + [c]
    {
      ghost var held := store[..];
      if size == 1 {
        store[buffer] := NUL;
        size := size - 1;
      } else if size > 1 {
        store[buffer] := c;
        buffer := buffer + 1;
        size := size - 1;
      }
      sent := sent + [c];
    }
  }

  // ---------------------------------------------------------------------------------------
  // kvcprintf

  lemma {:induction false} DigitsTerminateLate(x: nat, base: nat, upper: bool, len: int)
    requires 2 <= base <= 16
    ensures NUL !in DigitText(x, base, upper, len)
    decreases x
  {
    NumberFormat.Unfold(x, base, upper, len);
    DigitRead(x % base, upper);
    if !More(x, base, len) {
    } else {
      QuotientSmaller(x, base, len);
      DigitsTerminateLate(x / base, base, upper, NextLen(len));
    }
  }

  /** The terminator num_fmt writes is the first one. */
  lemma NumberTextHasNoNul(n: Number, padding: nat, padWith: char)
    requires 2 <= n.base <= 16 && padWith != NUL
    ensures NUL !in NumberText(n, padding, padWith)
  {
    DigitsTerminateLate(Magnitude(n.value, n.signed), n.base, n.upper, n.limit);
  }

  method EmitText(ctx: BufferContext, s: string) returns (count: nat)
    requires ctx.Valid()
    modifies ctx, ctx.store
    ensures ctx.Valid() && ctx.sent == old(ctx.sent) + s && count == |s|
  {
    count := 0;
    while count < |s|
      invariant count <= |s| && ctx.Valid() && ctx.sent == old(ctx.sent) + s[..count]
    {
      ctx.Output(s[count]);
      count := count + 1;
      assert s[..count] == s[..count - 1] + [s[count - 1]];
    }
    assert s[..count] == s;
  }

  /** Every character from an index of a buffer up to the first terminator. */
  method EmitBuffer(ctx: BufferContext, digits: array<char>, start: nat, ghost text: string) returns (count: nat)
    requires ctx.Valid() && digits != ctx.store && start <= digits.Length
    requires digits[start..] == text + [NUL] && NUL !in text
    modifies ctx, ctx.store
    ensures ctx.Valid() && ctx.sent == old(ctx.sent) + text && count == |text|
  {
    var s := start;
    count := 0;
    ghost var chars := digits[start..];
    while digits[s] != NUL
      invariant s == start + count < digits.Length && count <= |text| && digits[start..] == chars
      invariant ctx.Valid() && ctx.sent == old(ctx.sent) + text[..count]
      decreases |text| - count
    {
      CharAt(chars, text, count, digits[s]);
      ctx.Output(digits[s]);
      s := s + 1;
      count := count + 1;
    }
    CharAt(chars, text, count, digits[s]);
  }

  lemma CharAt(chars: seq<char>, text: string, k: nat, c: char)
    requires chars == text + [NUL] && NUL !in text && k < |chars| && c == chars[k]
    ensures c == NUL ==> text[..k] == text
    ensures c != NUL ==> k < |text| && text[..k + 1] == text[..k] + [c]
  {
    assert k < |text| ==> c == text[k] && text[k] in text;
  }

  /** num_fmt into a buffer of its own, and its characters up to the terminator. */
  method EmitNumber(ctx: BufferContext, n: Number, padding: nat, padWith: char) returns (count: nat)
    requires ctx.Valid() && 2 <= n.base <= 16 && NumberFits(n, padding) && padWith != NUL
    modifies ctx, ctx.store
    ensures ctx.Valid() && ctx.sent == old(ctx.sent) + NumberText(n, padding, padWith)
    ensures count == |NumberText(n, padding, padWith)|
  {
    NumberTextHasNoNul(n, padding, padWith);
    var digits := new char[65](_ => NUL);
    var s := NumFmt(digits, n.value, n.base, padding, padWith, n.signed, n.upper, n.limit);
    count := EmitBuffer(ctx, digits, s, NumberText(n, padding, padWith));
  }

  lemma Suffix(fmt: string, at: nat)
    requires at <= |fmt|
    ensures |fmt[at..]| == |fmt| - at
    ensures at < |fmt| ==> fmt[at..][0] == fmt[at] && fmt[at..][1..] == fmt[at + 1..]
  {
  }

  method ReadWidth(fmt: string, start: nat) returns (padding: nat, at: nat)
    requires start <= |fmt|
    ensures start <= at <= |fmt| && fmt[at..] == DropDigits(fmt[start..]) && padding == Width(fmt[start..], 0)
  {
    at, padding := start, 0;
    while at < |fmt| && '0' <= fmt[at] <= '9'
      invariant start <= at <= |fmt|
      invariant DropDigits(fmt[at..]) == DropDigits(fmt[start..]) && Width(fmt[at..], padding) == Width(fmt[start..], 0)
    {
      Suffix(fmt, at);
      padding := padding * 10;
      padding := padding + (fmt[at] as int - '0' as int);
      at := at + 1;
    }
    Suffix(fmt, at);
  }

  method SkipLs(fmt: string, start: nat) returns (wide: bool, at: nat)
    requires start <= |fmt|
    ensures start <= at <= |fmt| && fmt[at..] == DropLs(fmt[start..]) && wide == StartsWith(fmt[start..], 'l')
  {
    at, wide := start, false;
    while at < |fmt| && fmt[at] == 'l'
      invariant start <= at <= |fmt| && DropLs(fmt[at..]) == DropLs(fmt[start..])
      invariant wide == (at != start) && (wide ==> StartsWith(fmt[start..], 'l'))
    {
      Suffix(fmt, at);
      wide := true;
      at := at + 1;
    }
    Suffix(fmt, at);
  }

  /** From the character after the percent sign to the conversion character. */
  method ReadSpecification(fmt: string, start: nat) returns (padWith: char, padding: nat, wide: bool, at: nat)
    requires start <= |fmt| && ReadDirective(fmt[start..]).Some?
    ensures start <= at < |fmt|
    ensures ReadDirective(fmt[start..]) == Some(Directive(padWith, padding, wide, fmt[at], fmt[at + 1..]))
    ensures padWith != NUL
  {
    at, padWith := start, ' ';
    Suffix(fmt, start);
    if at < |fmt| && fmt[at] == '0' {
      padWith := '0';
      at := at + 1;
    }
    assert fmt[at..] == DropZero(fmt[start..]);
    hide DropDigits, DropLs, Width;
    padding, at := ReadWidth(fmt, at);
    wide, at := SkipLs(fmt, at);
    Suffix(fmt, at);
  }

  method ScaleDown(value: Word) returns (i: Word, div: nat, rem: nat)
    ensures Scaled(i, div, rem) == Scale(value, 0, 0)
  {
    i, div, rem := value, 0, 0;
    while i >= 1024 && div < 4
      invariant Scale(i, div, rem) == Scale(value, 0, 0)
    {
      rem := i % 1024;
      div := div + 1;
      i := i / 1024;
    }
  }

  method EmitSize(ctx: BufferContext, value: Word) returns (count: nat)
    requires ctx.Valid() && value < TERA
    modifies ctx, ctx.store
    ensures ctx.Valid() && ctx.sent == old(ctx.sent) + SizeText(value) && count == |SizeText(value)|
  {
    hide NumText, BufferContext.Valid, Scale;
    ScaleIs(value);
    var i, div, rem := ScaleDown(value);
    var n := Number(i, 10, false, false, -1);
    count := EmitNumber(ctx, n, 0, ' ');
    if rem * 100 / 1024 != 0 {
      ctx.Output('.');
      var more := EmitNumber(ctx, n, 0, ' ');
      count := count + 1 + more;
    }
    var unit := EmitText(ctx, SIZES[div]);
    count := count + unit;
  }

  lemma DecimalReads(i: nat)
    ensures Parse(Decimal(i), 10, '0') == i == Parse(Decimal(i), 10, ' ')
  {
    hide NumText, Parse;
    NumTextUnpadded(i, ' ', '0');
    ParseInvertsNumText(i, 10, 0, '0', false, false, -1);
    ParseInvertsNumText(i, 10, 0, ' ', false, false, -1);
  }

  /** Without padding the pad character does not matter. */
  lemma NumTextUnpadded(i: nat, c: char, d: char)
    ensures NumText(i, 10, 0, c, false, false, -1) == NumText(i, 10, 0, d, false, false, -1)
  {
    hide DigitText;
  }

  /** The fraction is longer than its digits exactly when it is padded. */
  lemma FractionPadded(h: nat, width: nat)
    ensures |Fraction(h, width)| == if |Decimal(h)| >= width then |Decimal(h)| else width
    ensures |Decimal(h)| >= width ==> Fraction(h, width) == Decimal(h)
  {
    hide DigitText;
  }

  lemma FractionIsWholeIff(h: nat, whole: nat, width: nat)
    ensures Fraction(h, width) == Decimal(whole) <==> h == whole && |Decimal(h)| >= width
  {
    hide Decimal, Parse, Fraction;
    FractionPadded(h, width);
    DecimalReads(whole);
    FractionReads(h, width);
  }

  lemma FractionReads(h: nat, width: nat)
    ensures Parse(Fraction(h, width), 10, '0') == h
  {
    hide NumText, Parse;
    ParseInvertsNumText(h, 10, width, '0', false, false, -1);
  }

  lemma Cancel(a: string, b: string, c: string, d: string)
    ensures a + ("." + b) + d == a + ("." + c) + d <==> b == c
  {
    var x, y := a + ("." + b) + d, a + ("." + c) + d;
    if x == y {
      assert x[|a| + 1..][..|b|] == b && y[|a| + 1..][..|c|] == c;
    }
  }

  /** The size as it should be, from the scaled size. */
  lemma RightSizeParts(i: nat, width: nat)
    requires i < TERA
    ensures Scale(i, 0, 0).unit < |SIZES|
    ensures
      var r := Scale(i, 0, 0);
      RightSizeText(i, width)
      == Decimal(r.whole) + (if Hundredths(r) != 0 then "." + Fraction(Hundredths(r), width) else "") + SIZES[r.unit]
  {
    ScaleIs(i);
    hide Decimal, Fraction, Scale;
    assert Decimal(i) + "" + "B" == Decimal(i) + "B";
  }

  /**
   However many digits the fraction should have, %S is right exactly when there is no hundredth to
   print, or the hundredths happen to be the whole units and need no padding.
   */
  lemma SizeIsRightIff(i: nat, width: nat)
    requires i < TERA
    ensures
      var r := Scale(i, 0, 0);
      SizeText(i) == RightSizeText(i, width)
      <==> Hundredths(r) == 0 || (Hundredths(r) == r.whole && |Decimal(r.whole)| >= width)
  {
    RightSizeParts(i, width);
    ScaleIs(i);
    hide Decimal, Fraction, Scale, Hundredths, RightSizeText;
    var r := Scale(i, 0, 0);
    FractionIsWholeIff(Hundredths(r), r.whole, width);
    Cancel(Decimal(r.whole), Decimal(r.whole), Fraction(Hundredths(r), width), SIZES[r.unit]);
  }

  /** 1536 bytes are printed as 1.1KB. */
  lemma SizeRepeatsWhole()
    ensures Text("%S", [AnInt(1536)]) == "1.1KB"
  {
    var d := Directive(' ', 0, false, 'S', "");
    assert "S"[1..] == "";
    assert Scale(1536, 0, 0) == Scaled(1, 1, 512);
    assert Decimal(1) == "1";
    assert "1" + ("." + "1") + "KB" == "1.1KB" && SizeText(1536) == "1.1KB";
    assert [AnInt(1536)][1..] == [];
    hide Scale, SizeText, NumText;
    assert NextInteger(d.wide, [AnInt(1536)]) == Some(1536);
    assert Convert(d, [AnInt(1536)]) == Some(Piece("1.1KB", []));
    SoleDirective("S", d, [AnInt(1536)], Piece("1.1KB", []));
  }

  method EmitConversion(ctx: BufferContext, padWith: char, padding: nat, wide: bool, conversion: char, args: seq<Arg>)
    returns (count: nat, rest: seq<Arg>)
    requires ctx.Valid() && padWith != NUL && Convert(Directive(padWith, padding, wide, conversion, ""), args).Some?
    modifies ctx, ctx.store
    ensures
      var p := Convert(Directive(padWith, padding, wide, conversion, ""), args).value;
      ctx.Valid() && ctx.sent == old(ctx.sent) + p.text && count == |p.text| && rest == p.args
  {
    count, rest := 0, args;
    var upper := conversion in "XP";
    if conversion == 'c' {
      ctx.Output((args[0].number % 256) as char);
      count, rest := 1, args[1..];
    } else if conversion in "duxXb" {
      var i := AsWord(if wide then args[0].wide else args[0].number);
      var n := if conversion == 'd' then Number(i, 10, true, false, -1)
        else if conversion == 'u' then Number(i, 10, false, false, -1)
        else if conversion == 'b' then Number(i, 2, false, upper, if wide then 64 else 32)
        else Number(i, 16, false, upper, if wide then 16 else 8);
      count := EmitNumber(ctx, n, padding, padWith);
      rest := args[1..];
    } else if conversion in "pP" {
      count := EmitNumber(ctx, Number(args[0].address, 16, false, upper, 16), padding, padWith);
      rest := args[1..];
    } else if conversion == 's' {
      count := EmitText(ctx, if args[0].ANull? then "<null>" else args[0].chars);
      rest := args[1..];
    } else if conversion == '%' {
      ctx.Output('%');
      count := 1;
    } else if conversion == 'S' {
      count := EmitSize(ctx, AsWord(if wide then args[0].wide else args[0].number));
      rest := args[1..];
    } else if conversion == 'R' {
      count := EmitText(ctx, ERRORS[args[0].code]);
      rest := args[1..];
    }
  }

  /** -1 is not printed by %u as the 32-bit number it is meant to be. */
  lemma MinusOnePrintsWide()
    ensures Parse(Text("%u", [AnInt(-1)]), 10, ' ') == 0xFFFF_FFFF_FFFF_FFFF
  {
    var d := Directive(' ', 0, false, 'u', "");
    var n := Number(0xFFFF_FFFF_FFFF_FFFF, 10, false, false, -1);
    assert "u"[1..] == "" && ReadDirective("u") == Some(d);
    hide ReadDirective, NumText, Parse, Format, Text;
    assert ReadNumber(d, [AnInt(-1)]) == Some(n);
    NumberConversion(d, AnInt(-1), n);
    SoleDirective("u", d, [AnInt(-1)], Piece(NumberText(n, 0, ' '), []));
    NumberTextReadsBack(n, 0, ' ');
  }

  /** The specification at the head of a format, and what it prints. */
  lemma HeadDirective(f: string, args: seq<Arg>) returns (d: Directive, p: Piece)
    requires f != "" && f[0] == '%' && Covered(f, args)
    ensures ReadDirective(f[1..]) == Some(d)
    ensures Convert(Directive(d.padWith, d.padding, d.wide, d.conversion, ""), args) == Some(p)
    ensures Covered(d.rest, p.args) && Text(f, args) == p.text + Text(d.rest, p.args)
  {
    hide ReadDirective, Convert;
    var rest;
    p, rest := Unfold(f, args);
    d := ReadDirective(f[1..]).value;
    SameConversion(d, "", args);
  }

  lemma Associate(a: string, b: string, c: string)
    ensures (a + b) + c == a + (b + c)
  {
  }

  lemma LiteralHead(fmt: string, at: nat, args: seq<Arg>)
    requires at < |fmt| && fmt[at] != '%' && Covered(fmt[at..], args)
    ensures Covered(fmt[at + 1..], args) && Text(fmt[at..], args) == [fmt[at]] + Text(fmt[at + 1..], args)
  {
    Suffix(fmt, at);
  }

  lemma NothingRemains(fmt: string, at: nat, args: seq<Arg>)
    requires at == |fmt|
    ensures Text(fmt[at..], args) == ""
  {
  }

  /** One round of the loop on a specification, from the percent sign. */
  method EmitDirective(ctx: BufferContext, fmt: string, start: nat, args: seq<Arg>)
    returns (count: nat, at: nat, rest: seq<Arg>, ghost text: string)
    requires ctx.Valid() && start < |fmt| && fmt[start] == '%' && Covered(fmt[start..], args)
    modifies ctx, ctx.store
    ensures ctx.Valid() && start < at <= |fmt| && Covered(fmt[at..], rest)
    ensures Text(fmt[start..], args) == text + Text(fmt[at..], rest)
    ensures ctx.sent == old(ctx.sent) + text && count == |text|
  {
    hide *;
    Suffix(fmt, start);
    ghost var d, p := HeadDirective(fmt[start..], args);
    var padWith, padding, wide;
    padWith, padding, wide, at := ReadSpecification(fmt, start + 1);
    count, rest := EmitConversion(ctx, padWith, padding, wide, fmt[at], args);
    at := at + 1;
    text := p.text;
  }

  /** One round of the loop: a plain character, or a specification. */
  method EmitNext(ctx: BufferContext, fmt: string, start: nat, args: seq<Arg>)
    returns (count: nat, at: nat, rest: seq<Arg>, ghost text: string)
    requires ctx.Valid() && start < |fmt| && Covered(fmt[start..], args)
    modifies ctx, ctx.store
    ensures ctx.Valid() && start < at <= |fmt| && Covered(fmt[at..], rest)
    ensures Text(fmt[start..], args) == text + Text(fmt[at..], rest)
    ensures ctx.sent == old(ctx.sent) + text && count == |text|
  {
    hide *;
    if fmt[start] != '%' {
      LiteralHead(fmt, start, args);
      ctx.Output(fmt[start]);
      count, at, rest, text := 1, start + 1, args, [fmt[start]];
    } else {
      count, at, rest, text := EmitDirective(ctx, fmt, start, args);
    }
  }

  /** Calls the callback with every character; the result is how many. */
  method Kvcprintf(ctx: BufferContext, fmt: CString, args: seq<Arg>) returns (size: nat)
    requires ctx.Valid() && Covered(fmt, args)
    modifies ctx, ctx.store
    ensures ctx.Valid() && ctx.sent == old(ctx.sent) + Text(fmt, args) && size == |Text(fmt, args)|
  {
    size := 0;
    var at: nat, rest := 0, args;
    ghost var out, start, all := "", ctx.sent, Text(fmt, args);
    assert fmt[0..] == fmt;
    hide *;
    while at < |fmt|
      invariant at <= |fmt| && Covered(fmt[at..], rest) && ctx.Valid()
      invariant ctx.sent == start + out && size == |out| && all == out + Text(fmt[at..], rest)
      decreases |fmt| - at
    {
      var count;
      ghost var text;
      count, at, rest, text := EmitNext(ctx, fmt, at, rest);
      size := size + count;
      Associate(start, out, text);
      Associate(out, text, Text(fmt[at..], rest));
      out := out + text;
    }
    NothingRemains(fmt, at, rest);
  }

  lemma KeptParts(text: string, size: nat, was: seq<char>)
    requires size <= |was|
    ensures
      var n, now := |text|, Kept(text, size, was);
      && |now| == |was|
      && (n < size ==> now[..n] == text && now[n..] == was[n..])
      && (n >= size > 0 ==> now[..size - 1] == text[..size - 1] && now[size - 1] == NUL)
      && (n >= size ==> now[size..] == was[size..])
  {
  }

  /**
   Prints into a buffer of which size bytes may be used: as much of the text as fits with a
   terminator, which is written only when the text is at least as long as the buffer.
   */
  method Kvsnprintf(buffer: array<char>, size: nat, fmt: CString, args: seq<Arg>) returns (n: nat)
    requires size <= buffer.Length && Covered(fmt, args)
    modifies buffer
    ensures n == |Text(fmt, args)|
    ensures n < size ==> buffer[..n] == Text(fmt, args) && buffer[n..] == old(buffer[n..])
    ensures n >= size > 0 ==> buffer[..size - 1] == Text(fmt, args)[..size - 1] && buffer[size - 1] == NUL
    ensures n >= size ==> buffer[size..] == old(buffer[size..])
  {
    var ctx := new BufferContext(buffer, size);
    n := Kvcprintf(ctx, fmt, args);
    KeptParts(Text(fmt, args), size, old(buffer[..]));
    assert "" + Text(fmt, args) == Text(fmt, args);
    hide Text, Kept, Covered;
    ghost var now := buffer[..];
    if n < size {
      assert buffer[..n] == now[..n] && buffer[n..] == now[n..];
    } else {
      assert buffer[size..] == now[size..];
      if size > 0 {
        assert buffer[..size - 1] == now[..size - 1] && buffer[size - 1] == now[size - 1];
      }
    }
  }
}
