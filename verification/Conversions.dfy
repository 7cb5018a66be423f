/**
 What each conversion specification means and prints, in the words of the format: how a specification is
 written, and the text of every conversion that is no number.
 */
module Conversions {
  import opened Bits
  import opened NumberFormat
  import opened Printf

  // ---------------------------------------------------------------------------------------
  // How a specification is written

  function Ls(n: nat): string { seq(n, i => 'l') }

  /** A zero or none, a width in decimal, any number of l, and the conversion. */
  function Written(zero: bool, width: string, ls: nat, c: char): string {
    (if zero then "0" else "") + width + Ls(ls) + [c]
  }

  predicate Decimals(s: string) { forall i :: 0 <= i < |s| ==> '0' <= s[i] <= '9' }

  predicate IsLetter(c: char) { c != 'l' && !('0' <= c <= '9') }

  /** The scan from the left sees the number that the digits from the right make up. */
  lemma {:induction false} WidthIsValue(width: string, rest: string, n: nat)
    requires Decimals(width) && !StartsWithDigit(rest)
    ensures DropDigits(width + rest) == rest
    ensures Width(width + rest, n) == n * Power(10, |width|) + Value(width, 10)
    decreases |width|
  {
    if width == "" {
      assert width + rest == rest;
    } else {
      var f, v := width + rest, width[0] as int - '0' as int;
      assert f[1..] == width[1..] + rest;
      WidthIsValue(width[1..], rest, n * 10 + v);
      FirstDigit(width);
      PowerNext(10, |width| - 1);
      hide Power, Value;
      Regroup(n, v, Power(10, |width| - 1));
    }
  }

  lemma Regroup(n: nat, v: nat, p: nat)
    ensures (n * 10 + v) * p == n * (10 * p) + v * p
  {
  }

  lemma {:induction false} FirstDigit(s: string)
    requires s != "" && Decimals(s)
    ensures Value(s, 10) == (s[0] as int - '0' as int) * Power(10, |s| - 1) + Value(s[1..], 10)
    decreases |s|
  {
    var n := |s| - 1;
    if n == 0 {
      assert s[..0] == "" && Value("", 10) == 0 && Power(10, 0) == 1;
    } else {
      FirstDigit(s[..n]);
      PowerNext(10, n - 1);
      assert s[1..][..n - 1] == s[..n][1..] && s[1..][n - 1] == s[n];
      var first, last, middle := s[0] as int - '0' as int, DigitValue(s[n]), Value(s[..n][1..], 10);
      assert Value(s, 10) == Value(s[..n], 10) * 10 + last && Value(s[1..], 10) == middle * 10 + last;
      hide Value, Power;
      Shifted(first, Power(10, n - 1), middle, last);
    }
  }

  lemma Shifted(d: int, p: int, v: int, last: int)
    ensures (d * p + v) * 10 + last == d * (10 * p) + (v * 10 + last)
  {
  }

  lemma {:induction false} LsDropped(n: nat, rest: string)
    requires !StartsWith(rest, 'l')
    ensures DropLs(Ls(n) + rest) == rest && StartsWith(Ls(n) + rest, 'l') == (n > 0)
  {
    if n == 0 {
      assert Ls(n) + rest == rest;
    } else {
      LsDropped(n - 1, rest);
      assert (Ls(n) + rest)[1..] == Ls(n - 1) + rest;
    }
  }

  /** A leading zero asks for zeros, the digits are the width, any l makes it wide, and the letter ends it. */
  lemma WrittenIsRead(zero: bool, width: string, ls: nat, c: char, rest: string)
    requires Decimals(width) && !StartsWith(width, '0') && IsLetter(c)
    ensures
      var n := Value(width, 10);
      n >= 0 && ReadDirective(Written(zero, width, ls, c) + rest)
      == Some(Directive(if zero then '0' else ' ', n, ls > 0, c, rest))
  {
    hide *;
    var tail := [c] + rest;
    var h := Ls(ls) + tail;
    ZeroDropped(zero, width, ls, c, rest);
    TailStarts(ls, c, rest);
    LsDropped(ls, tail);
    WidthAtStart(width, h);
    ReadsParts(Written(zero, width, ls, c) + rest, width + h, h, c, rest);
  }

  lemma TailStarts(ls: nat, c: char, rest: string)
    requires IsLetter(c)
    ensures !StartsWithDigit(Ls(ls) + ([c] + rest)) && !StartsWith([c] + rest, 'l')
  {
    var h := Ls(ls) + ([c] + rest);
    assert h[0] == if ls > 0 then 'l' else c;
  }

  lemma WidthAtStart(width: string, rest: string)
    requires Decimals(width) && !StartsWithDigit(rest)
    ensures DropDigits(width + rest) == rest && Width(width + rest, 0) == Value(width, 10)
  {
    hide DropDigits, Width, Value, Power;
    WidthIsValue(width, rest, 0);
  }

  lemma ZeroDropped(zero: bool, width: string, ls: nat, c: char, rest: string)
    requires !StartsWith(width, '0') && IsLetter(c)
    ensures
      var f := Written(zero, width, ls, c) + rest;
      DropZero(f) == width + (Ls(ls) + ([c] + rest)) && StartsWith(f, '0') == zero
  {
    var f, g := Written(zero, width, ls, c) + rest, width + (Ls(ls) + ([c] + rest));
    assert f == if zero then "0" + g else g;
    assert g[0] == (if width != "" then width[0] else if ls > 0 then 'l' else c);
  }

  lemma ReadsParts(f: string, g: string, h: string, c: char, rest: string)
    requires DropZero(f) == g && DropDigits(g) == h && DropLs(h) == [c] + rest
    ensures
      ReadDirective(f)
      == Some(Directive(if StartsWith(f, '0') then '0' else ' ', Width(g, 0), StartsWith(h, 'l'), c, rest))
  {
    assert ([c] + rest)[1..] == rest;
    hide DropZero, DropDigits, DropLs, Width;
  }

  // ---------------------------------------------------------------------------------------
  // What the other conversions print

  /** A string prints itself, whatever the width; a null pointer prints as such. */
  lemma StringPrinted(f: string, d: Directive, s: CString)
    requires ReadDirective(f) == Some(d) && d.rest == "" && d.conversion == 's'
    ensures Covered("%" + f, [AString(s)]) && Text("%" + f, [AString(s)]) == s
    ensures Covered("%" + f, [ANull]) && Text("%" + f, [ANull]) == "<null>"
  {
    assert [AString(s)][1..] == [] && [ANull][1..] == [];
    hide ReadDirective;
    SoleDirective(f, d, [AString(s)], Piece(s, []));
    SoleDirective(f, d, [ANull], Piece("<null>", []));
  }

  /** A character prints as its low byte. */
  lemma CharPrinted(f: string, d: Directive, v: Int)
    requires ReadDirective(f) == Some(d) && d.rest == "" && d.conversion == 'c'
    ensures Covered("%" + f, [AnInt(v)]) && |Text("%" + f, [AnInt(v)])| == 1
    ensures Text("%" + f, [AnInt(v)])[0] as int == v % 256
  {
    assert [AnInt(v)][1..] == [];
    hide ReadDirective;
    SoleDirective(f, d, [AnInt(v)], Piece([(v % 256) as char], []));
  }

  /** The name of each error that has one, and no others. */
  lemma ErrorPrinted(f: string, d: Directive, code: nat)
    requires ReadDirective(f) == Some(d) && d.rest == "" && d.conversion == 'R'
    ensures Covered("%" + f, [AnError(code)]) <==> code < 5
    ensures code < 5 ==>
              Text("%" + f, [AnError(code)])
              == if code == 0 then "NO_ERROR" else if code == 1 then "ERROR_CHECK_FAILED"
                 else if code == 2 then "ERROR_NOT_FOUND" else if code == 3 then "ERROR_OUT_OF_RESOURCES"
                 else "ERROR_UNSUPPORTED"
  {
    assert ("%" + f)[1..] == f && [AnError(code)][1..] == [];
    hide ReadDirective;
    if code < 5 {
      SoleDirective(f, d, [AnError(code)], Piece(ERRORS[code], []));
    }
  }

  /** A size prints as the text of sizes. */
  lemma SizePrinted(f: string, d: Directive, arg: Arg)
    requires ReadDirective(f) == Some(d) && d.rest == "" && d.conversion == 'S'
    requires (if d.wide then arg.ALong? else arg.AnInt?)
    ensures
      var size := AsWord(if arg.ALong? then arg.wide else arg.number);
      && (Covered("%" + f, [arg]) <==> size < 0x100_0000_0000)
      && (size < 0x100_0000_0000 ==> Text("%" + f, [arg]) == SizeText(size))
  {
    var size := AsWord(if arg.ALong? then arg.wide else arg.number);
    assert ("%" + f)[1..] == f && [arg][1..] == [];
    hide ReadDirective, SizeText;
    if size < TERA {
      SoleDirective(f, d, [arg], Piece(SizeText(size), []));
    }
  }

  /** Any other letter prints nothing and takes no argument; a percent sign prints itself. */
  lemma UnknownPrintsNothing(f: string, d: Directive, args: seq<Arg>)
    requires ReadDirective(f) == Some(d) && d.rest == "" && d.conversion !in "duxXbpPcsSR"
    ensures Format("%" + f, args) == Some(Piece(if d.conversion == '%' then "%" else "", args))
  {
    var s := "%" + f;
    assert s[1..] == f && "" + "" == "" && "%" + "" == "%";
    assert Format("", args) == Some(Piece("", args));
    hide ReadDirective;
    Fold(s, args, Piece(if d.conversion == '%' then "%" else "", args), "");
  }
}
