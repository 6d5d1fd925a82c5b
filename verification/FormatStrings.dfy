/**
 Format strings as the two small printf functions understand them, and what they print.

 A C string is the sequence of characters before its terminating zero.
 */
module FormatStrings {
  import opened Arithmetic
  import opened Numerals

  /** A variable argument: a word (characters are passed as words too) or a string. */
  datatype Arg = Word(value: u32) | Text(text: string)

  // ---------------------------------------------------------------- the grammar

  /**
   "width" is -1 where none is given.  From a number on that is too large for an int, C does not define
   what happens.
   */
  datatype Piece = Literal(c: char) | Conversion(zero: bool, width: int, letter: char) | TooLarge

  /** What has been read of a conversion; the numbers are -1 as long as they have not begun. */
  datatype Flags = Flags(zero: bool, width: int, fraction: int)

  const NO_FLAGS := Flags(false, -1, -1)

  predicate InInt(f: Flags) { f.width <= INT_MAX && f.fraction <= INT_MAX }

  predicate IsDigit(c: char) { '0' <= c <= '9' }

  /** Characters that may stand between the percent sign and the letter. */
  predicate IsFlag(c: char) { IsDigit(c) || c == '.' || c == 'l' }

  /** One more digit of a number that may not have begun. */
  function Longer(n: int, c: char): int
    requires IsDigit(c)
  {
    (if n < 0 then 0 else n * 10) + (c - '0') as int
  }

  function Noted(f: Flags, c: char): Flags {
    if c == '.' then f.(fraction := 0)
    else if !IsDigit(c) then f
    else if f.fraction < 0 then f.(width := Longer(f.width, c))
    else f.(fraction := Longer(f.fraction, c))
  }

  /** The pieces of a format string; an unfinished conversion at the end is dropped. */
  function Pieces(fmt: string): seq<Piece>
    decreases |fmt|, 0
  {
    if fmt == [] then []
    else if fmt[0] != '%' then [Literal(fmt[0])] + Pieces(fmt[1..])
    else if |fmt| > 1 && fmt[1] == '%' then [Literal('%')] + Pieces(fmt[2..])
    else if |fmt| > 1 && fmt[1] == '0' then PiecesWithin(NO_FLAGS.(zero := true), fmt[2..])
    else PiecesWithin(NO_FLAGS, fmt[1..])
  }

  function PiecesWithin(f: Flags, rest: string): seq<Piece>
    decreases |rest|, 1
  {
    if rest == [] then []
    else if IsFlag(rest[0]) then
      if InInt(Noted(f, rest[0])) then PiecesWithin(Noted(f, rest[0]), rest[1..]) else [TooLarge]
    else [Conversion(f.zero, f.width, rest[0])] + Pieces(rest[1..])
  }

  // ---------------------------------------------------------------- what is printed

  predicate TakesWord(letter: char) { letter in "diuoxXc" }

  predicate TakesArg(p: Piece) { p.Conversion? && (TakesWord(p.letter) || p.letter == 's') }

  /** The arguments are the ones that the format string calls for, and no number in it is too large. */
  predicate Fits(ps: seq<Piece>, args: seq<Arg>) {
    if ps == [] then true
    else if ps[0].TooLarge? then false
    else if TakesArg(ps[0]) then
      args != [] && args[0].Word? == TakesWord(ps[0].letter) && Fits(ps[1..], args[1..])
    else Fits(ps[1..], args)
  }

  function BaseOf(letter: char): nat {
    if letter == 'o' then 8 else if letter == 'x' || letter == 'X' then 16 else 10
  }

  predicate IsSigned(letter: char) { letter == 'd' || letter == 'i' }

  /** The word as the conversion reads it. */
  function Meaning(letter: char, v: u32): int {
    if IsSigned(letter) && v >= 0x8000_0000 then v - 0x1_0000_0000 else v
  }

  function NumberField(zero: bool, width: int, letter: char, v: u32): string {
    var n := Meaning(letter, v);
    Field(zero, width, n < 0, Digits(Magnitude(n), BaseOf(letter), letter == 'X'))
  }

  function LowByte(v: u32): char { (v % 256) as char }

  /** What one piece prints; a letter that is not known prints nothing. */
  function Printed(p: Piece, args: seq<Arg>): string
    requires !p.TooLarge? && (TakesArg(p) ==> args != [] && args[0].Word? == TakesWord(p.letter))
  {
    if p.Literal? then [p.c]
    else if p.letter == 'c' then Repeat(' ', p.width - 1) + [LowByte(args[0].value)]
    else if p.letter == 's' then Repeat(' ', p.width - |args[0].text|) + args[0].text
    else if TakesWord(p.letter) then NumberField(p.zero, p.width, p.letter, args[0].value)
    else []
  }

  function Left(p: Piece, args: seq<Arg>): seq<Arg>
    requires TakesArg(p) ==> args != []
  {
    if TakesArg(p) then args[1..] else args
  }

  function Output(ps: seq<Piece>, args: seq<Arg>): string
    requires Fits(ps, args)
  {
    if ps == [] then [] else Printed(ps[0], args) + Output(ps[1..], Left(ps[0], args))
  }

  /** The letters of the conversions that print numbers. */
  predicate IsNumber(letter: char) { letter in {'d', 'i', 'u', 'o', 'x', 'X'} }

  /** The letters d and i read the word as a signed number, the others as an unsigned one. */
  lemma MeaningOfWord(letter: char, v: u32)
    ensures Meaning(letter, v) % 0x1_0000_0000 == v
    ensures if letter == 'd' || letter == 'i' then -0x8000_0000 <= Meaning(letter, v) < 0x8000_0000
            else Meaning(letter, v) >= 0
  {
    if v >= 0x8000_0000 {
      Quotient(v - 0x1_0000_0000, WRAP, -1, v);
    }
    Quotient(v, WRAP, 0, v);
  }

  /** A digit of the base, in the case asked for. */
  predicate DigitIn(c: char, base: nat, upper: bool) {
    if base == 8 then '0' <= c <= '7'
    else '0' <= c <= '9' || (base == 16 && if upper then 'A' <= c <= 'F' else 'a' <= c <= 'f')
  }

  /** The digits of the number in the base, without a leading zero. */
  predicate IsNumeral(digits: string, m: nat, base: nat, upper: bool) {
    && digits != [] && Value(digits, base) == m && (digits[0] == '0' <==> m == 0)
    && (forall i :: 0 <= i < |digits| ==> DigitIn(digits[i], base, upper))
  }

  /**
   A number field says the number, for every word, width and flag, the most negative number included: o in base 8,
   x and X in base 16 and d, i and u in base 10.  It fills the width, or what it needs, with the numeral at its end.
   */
  lemma NumberReadsBack(zero: bool, width: int, letter: char, v: u32)
    ensures var n, base := Meaning(letter, v),
                           if letter == 'o' then 8 else if letter == 'x' || letter == 'X' then 16 else 10;
            var field, digits := NumberField(zero, width, letter, v), Digits(Magnitude(n), base, letter == 'X');
            && Read(field, base) == n && Fills(field, zero, width, n < 0, digits)
            && IsNumeral(digits, Magnitude(n), base, letter == 'X')
  {
    var n, base := Meaning(letter, v), BaseOf(letter);
    FieldReadsBack(zero, width, n, base, letter == 'X');
    NumeralReadsBack(Magnitude(n), base, letter == 'X');
  }

  lemma NumeralReadsBack(m: nat, base: nat, upper: bool)
    requires base in {8, 10, 16}
    ensures IsNumeral(Digits(m, base, upper), m, base, upper)
  {
    DigitsValue(m, base, upper);
    DigitsShape(m, base, upper);
    var digits := Digits(m, base, upper);
    forall i | 0 <= i < |digits|
      ensures DigitIn(digits[i], base, upper)
    {
      GlyphIn(DigitOf(digits[i]), base, upper);
    }
  }

  lemma GlyphIn(d: nat, base: nat, upper: bool)
    requires base in {8, 10, 16} && d < base
    ensures DigitIn(Glyph(d, upper), base, upper)
  {
  }

  /** Which conversions take an argument: those of numbers and characters take a word, s takes a string. */
  lemma LettersMeaning(p: Piece)
    requires p.Conversion?
    ensures TakesWord(p.letter) <==> IsNumber(p.letter) || p.letter == 'c'
    ensures TakesArg(p) <==> IsNumber(p.letter) || p.letter == 'c' || p.letter == 's'
  {
  }

  /** The text behind as many spaces as it takes to fill the width. */
  predicate RightAligned(field: string, width: int, text: string) {
    && |field| == Max(width, |text|) && field[|field| - |text|..] == text
    && (forall i :: 0 <= i < |field| - |text| ==> field[i] == ' ')
  }

  /**
   What the other pieces print: a literal prints itself, c the low byte of the word and s the string, both aligned
   to the right, and a letter that is not known prints nothing.
   */
  lemma OthersPrinted(p: Piece, args: seq<Arg>)
    requires Fits([p], args)
    ensures p.Literal? ==> Printed(p, args) == [p.c]
    ensures p.Conversion? && p.letter == 'c' ==>
              RightAligned(Printed(p, args), p.width, [(args[0].value % 256) as char])
    ensures p.Conversion? && p.letter == 's' ==> RightAligned(Printed(p, args), p.width, args[0].text)
    ensures p.Conversion? && !IsNumber(p.letter) && p.letter != 'c' && p.letter != 's' ==> Printed(p, args) == []
    ensures p.Conversion? && IsNumber(p.letter) ==>
              Printed(p, args) == NumberField(p.zero, p.width, p.letter, args[0].value)
  {
    if p.Conversion? {
      LettersMeaning(p);
      if p.letter == 'c' {
        RepeatMeans(' ', p.width - 1);
      } else if p.letter == 's' {
        RepeatMeans(' ', p.width - |args[0].text|);
      }
    }
  }

  /** Different words print differently under the same conversion. */
  lemma NumbersStayApart(zero: bool, width: int, letter: char, v: u32, w: u32)
    requires NumberField(zero, width, letter, v) == NumberField(zero, width, letter, w)
    ensures v == w
  {
    NumberReadsBack(zero, width, letter, v);
    NumberReadsBack(zero, width, letter, w);
  }

  // ---------------------------------------------------------------- the grammar reads back what it means

  /** Pieces that a format string can ask for. */
  predicate Expressible(p: Piece) {
    p.Literal? || (p.Conversion? && !IsFlag(p.letter) && -1 <= p.width <= INT_MAX)
  }

  predicate AllExpressible(ps: seq<Piece>) { forall i :: 0 <= i < |ps| ==> Expressible(ps[i]) }

  /** A format string for one piece; the letter l keeps a zero width or a percent sign from being misread. */
  function Unparsed(p: Piece): string
    requires Expressible(p)
  {
    if p == Literal('%') then "%%"
    else if p.Literal? then [p.c]
    else "%" + Mark(p) + WidthDigits(p) + [p.letter]
  }

  function Mark(p: Piece): string
    requires p.Conversion?
  {
    if p.zero then "0" else if p.width == 0 || p.letter == '%' then "l" else ""
  }

  function WidthDigits(p: Piece): string
    requires p.Conversion?
  {
    if p.width < 0 then "" else Digits(p.width, 10, false)
  }

  function UnparsedAll(ps: seq<Piece>): string
    requires AllExpressible(ps)
  {
    if ps == [] then [] else Unparsed(ps[0]) + UnparsedAll(ps[1..])
  }

  /** A decimal numeral among the flags is read as the width. */
  lemma {:induction false} WidthRead(f: Flags, n: nat, rest: string)
    requires f.width == -1 && f.fraction < 0 && n <= INT_MAX
    ensures PiecesWithin(f, Digits(n, 10, false) + rest) == PiecesWithin(f.(width := n), rest)
    decreases n
  {
    if n < 10 {
      OneFlag(f, Glyph(n, false), rest);
    } else {
      Shrinks(n, 10);
      var c := Glyph(n % 10, false);
      var s := Digits(n / 10, 10, false);
      WidthRead(f, n / 10, [c] + rest);
      assert s + [c] + rest == s + ([c] + rest);
      OneFlag(f.(width := n / 10), c, rest);
      assert n / 10 * 10 + n % 10 == n;
    }
  }

  lemma OneFlag(f: Flags, c: char, rest: string)
    requires IsFlag(c) && InInt(Noted(f, c))
    ensures PiecesWithin(f, [c] + rest) == PiecesWithin(Noted(f, c), rest)
  {
    assert ([c] + rest)[1..] == rest;
  }

  /** A numeral that no int can hold stops the reading. */
  lemma {:induction false} WidthTooLarge(f: Flags, n: nat, rest: string)
    requires f.width == -1 && f.fraction < 0 && n > INT_MAX
    ensures PiecesWithin(f, Digits(n, 10, false) + rest) == [TooLarge]
    decreases n
  {
    Shrinks(n, 10);
    var c := Glyph(n % 10, false);
    var s := Digits(n / 10, 10, false);
    assert s + [c] + rest == s + ([c] + rest);
    if n / 10 > INT_MAX {
      WidthTooLarge(f, n / 10, [c] + rest);
    } else {
      WidthRead(f, n / 10, [c] + rest);
      assert n / 10 * 10 + n % 10 == n;
      assert ([c] + rest)[0] == c && !InInt(Noted(f.(width := n / 10), c));
    }
  }

  /** A number behind a full stop is read, and does not change the width. */
  lemma {:induction false} FractionRead(f: Flags, n: nat, rest: string)
    requires f.fraction == 0 && f.width <= INT_MAX && n <= INT_MAX
    ensures PiecesWithin(f, Digits(n, 10, false) + rest) == PiecesWithin(f.(fraction := n), rest)
    decreases n
  {
    if n < 10 {
      OneFlag(f, Glyph(n, false), rest);
    } else {
      Shrinks(n, 10);
      var c := Glyph(n % 10, false);
      var s := Digits(n / 10, 10, false);
      FractionRead(f, n / 10, [c] + rest);
      assert s + [c] + rest == s + ([c] + rest);
      OneFlag(f.(fraction := n / 10), c, rest);
      assert n / 10 * 10 + n % 10 == n;
    }
  }

  /** What follows the flag of a conversion that has a width, a fraction and a length letter. */
  function Tail(width: nat, fraction: nat, letter: char, rest: string): string {
    Digits(width, 10, false) + (['.'] + (Digits(fraction, 10, false) + (['l'] + ([letter] + rest))))
  }

  /** A conversion with a fraction and a length letter is the conversion without them. */
  lemma FractionIgnored(zero: bool, width: nat, fraction: nat, letter: char, rest: string)
    requires zero || width > 0
    requires width <= INT_MAX && fraction <= INT_MAX && !IsFlag(letter)
    ensures Pieces((if zero then "%0" else "%") + Tail(width, fraction, letter, rest))
         == [Conversion(zero, width, letter)] + Pieces(rest)
  {
    var tail := Tail(width, fraction, letter, rest);
    TailIgnored(NO_FLAGS.(zero := zero), width, fraction, letter, rest);
    if zero {
      assert ("%0" + tail)[2..] == tail;
    } else {
      DigitsShape(width, 10, false);
      assert ("%" + tail)[1..] == tail;
    }
  }

  lemma TailIgnored(f: Flags, width: nat, fraction: nat, letter: char, rest: string)
    requires f.width == -1 && f.fraction < 0
    requires width <= INT_MAX && fraction <= INT_MAX && !IsFlag(letter)
    ensures PiecesWithin(f, Tail(width, fraction, letter, rest)) == [Conversion(f.zero, width, letter)] + Pieces(rest)
  {
    var end := ['l'] + ([letter] + rest);
    var g := f.(width := width);
    WidthRead(f, width, ['.'] + (Digits(fraction, 10, false) + end));
    OneFlag(g, '.', Digits(fraction, 10, false) + end);
    FractionRead(g.(fraction := 0), fraction, end);
    OneFlag(g.(fraction := fraction), 'l', [letter] + rest);
    OneLetter(g.(fraction := fraction), letter, rest);
  }

  lemma OneLetter(f: Flags, c: char, rest: string)
    requires !IsFlag(c)
    ensures PiecesWithin(f, [c] + rest) == [Conversion(f.zero, f.width, c)] + Pieces(rest)
  {
    assert ([c] + rest)[1..] == rest;
  }

  /** From behind the first flag of a written conversion on. */
  lemma TailRead(p: Piece, rest: string)
    requires p.Conversion? && Expressible(p)
    ensures PiecesWithin(NO_FLAGS.(zero := p.zero), WidthDigits(p) + [p.letter] + rest) == [p] + Pieces(rest)
  {
    var f, digits := NO_FLAGS.(zero := p.zero), WidthDigits(p);
    if p.width < 0 {
      assert digits + [p.letter] + rest == [p.letter] + rest;
      OneLetter(f, p.letter, rest);
    } else {
      assert digits + [p.letter] + rest == digits + ([p.letter] + rest);
      WidthRead(f, p.width, [p.letter] + rest);
      OneLetter(f.(width := p.width), p.letter, rest);
    }
  }

  /** Behind the percent sign, a zero, a letter l, or neither. */
  lemma ConversionRead(p: Piece, tail: string, rest: string)
    requires p.Conversion? && Expressible(p) && tail == WidthDigits(p) + [p.letter] + rest
    ensures Pieces("%" + (Mark(p) + tail)) == [p] + Pieces(rest)
  {
    var all := "%" + (Mark(p) + tail);
    TailRead(p, rest);
    if p.zero {
      assert all[2..] == tail;
    } else if Mark(p) == "l" {
      assert all[1..] == ['l'] + tail;
      OneFlag(NO_FLAGS, 'l', tail);
    } else {
      StartsWith(p);
      assert all[1..] == tail;
    }
  }

  lemma StartsWith(p: Piece)
    requires p.Conversion? && Expressible(p) && p.width != 0 && p.letter != '%'
    ensures (WidthDigits(p) + [p.letter])[0] != '0' && (WidthDigits(p) + [p.letter])[0] != '%'
  {
    if p.width > 0 {
      DigitsShape(p.width, 10, false);
    }
  }

  lemma Regrouped(mark: string, digits: string, letter: char, rest: string)
    ensures "%" + mark + digits + [letter] + rest == "%" + (mark + (digits + [letter] + rest))
  {
  }

  lemma PieceRead(p: Piece, rest: string)
    requires Expressible(p)
    ensures Pieces(Unparsed(p) + rest) == [p] + Pieces(rest)
  {
    if p.Literal? {
      LiteralRead(p.c, rest);
    } else {
      Regrouped(Mark(p), WidthDigits(p), p.letter, rest);
      ConversionRead(p, WidthDigits(p) + [p.letter] + rest, rest);
    }
  }

  lemma LiteralRead(c: char, rest: string)
    ensures Pieces(Unparsed(Literal(c)) + rest) == [Literal(c)] + Pieces(rest)
  {
    var all := Unparsed(Literal(c)) + rest;
    if c == '%' {
      assert all[2..] == rest;
    } else {
      assert all[1..] == rest;
    }
  }

  /** Writing pieces down and reading them gives the same pieces. */
  lemma {:induction false} UnparsedReads(ps: seq<Piece>)
    requires AllExpressible(ps)
    ensures Pieces(UnparsedAll(ps)) == ps
  {
    if ps != [] {
      PieceRead(ps[0], UnparsedAll(ps[1..]));
      UnparsedReads(ps[1..]);
      assert [ps[0]] + ps[1..] == ps;
    }
  }

  /** And only such pieces are ever read, unless a number is too large. */
  lemma {:induction false} ReadsExpressible(fmt: string)
    ensures TooLarge in Pieces(fmt) || AllExpressible(Pieces(fmt))
    decreases |fmt|, 0
  {
    if fmt == [] {
    } else if fmt[0] != '%' {
      ReadsExpressible(fmt[1..]);
    } else if |fmt| > 1 && fmt[1] == '%' {
      ReadsExpressible(fmt[2..]);
    } else if |fmt| > 1 && fmt[1] == '0' {
      ReadsExpressibleWithin(NO_FLAGS.(zero := true), fmt[2..]);
    } else {
      ReadsExpressibleWithin(NO_FLAGS, fmt[1..]);
    }
  }

  lemma {:induction false} ReadsExpressibleWithin(f: Flags, rest: string)
    requires -1 <= f.width <= INT_MAX
    ensures TooLarge in PiecesWithin(f, rest) || AllExpressible(PiecesWithin(f, rest))
    decreases |rest|, 1
  {
    if rest == [] {
    } else if IsFlag(rest[0]) && InInt(Noted(f, rest[0])) {
      ReadsExpressibleWithin(Noted(f, rest[0]), rest[1..]);
    } else if !IsFlag(rest[0]) {
      ReadsExpressible(rest[1..]);
    }
  }

  // ---------------------------------------------------------------- the smaller printf

  /** A letter that the smaller printf knows. */
  predicate Known(c: char) { c == 'c' || c == 'x' || c == 's' }

  /** The pieces as the smaller printf reads them: there are no flags. */
  function PlainPieces(fmt: string): seq<Piece>
    decreases |fmt|
  {
    if fmt == [] then []
    else if fmt[0] != '%' then [Literal(fmt[0])] + PlainPieces(fmt[1..])
    else if |fmt| == 1 then []
    else if fmt[1] == '%' then [Literal('%')] + PlainPieces(fmt[2..])
    else (if Known(fmt[1]) then [Conversion(false, -1, fmt[1])] else []) + PlainPieces(fmt[2..])
  }

  /** No conversion has a flag, or a letter that only the larger printf knows. */
  predicate Plain(fmt: string)
    decreases |fmt|
  {
    if fmt == [] then true
    else if fmt[0] != '%' then Plain(fmt[1..])
    else |fmt| > 1 ==> !IsFlag(fmt[1]) && fmt[1] !in {'d', 'i', 'u', 'o', 'X'} && Plain(fmt[2..])
  }

  /** On plain format strings the two printf functions call for the same arguments and print the same. */
  lemma {:induction false} PrintersAgree(fmt: string, args: seq<Arg>)
    requires Plain(fmt)
    ensures Fits(Pieces(fmt), args) <==> Fits(PlainPieces(fmt), args)
    ensures Fits(Pieces(fmt), args) ==> Output(Pieces(fmt), args) == Output(PlainPieces(fmt), args)
    decreases |fmt|
  {
    if fmt == [] {
    } else if fmt[0] != '%' {
      OutputNext(Literal(fmt[0]), Pieces(fmt[1..]), args);
      OutputNext(Literal(fmt[0]), PlainPieces(fmt[1..]), args);
      PrintersAgree(fmt[1..], args);
    } else if |fmt| == 1 {
    } else if fmt[1] == '%' {
      OutputNext(Literal('%'), Pieces(fmt[2..]), args);
      OutputNext(Literal('%'), PlainPieces(fmt[2..]), args);
      PrintersAgree(fmt[2..], args);
    } else {
      var p := Conversion(false, -1, fmt[1]);
      assert fmt[1..][1..] == fmt[2..];
      assert Pieces(fmt) == [p] + Pieces(fmt[2..]);
      OutputNext(p, Pieces(fmt[2..]), args);
      if Known(fmt[1]) {
        OutputNext(p, PlainPieces(fmt[2..]), args);
        if args != [] {
          PrintersAgree(fmt[2..], args[1..]);
        }
      } else {
        assert PlainPieces(fmt) == PlainPieces(fmt[2..]);
        PrintersAgree(fmt[2..], args);
      }
    }
  }

  lemma OutputNext(p: Piece, ps: seq<Piece>, args: seq<Arg>)
    ensures Fits([p] + ps, args)
       <==> !p.TooLarge? && (TakesArg(p) ==> args != [] && args[0].Word? == TakesWord(p.letter))
            && Fits(ps, if TakesArg(p) && args != [] then args[1..] else args)
    ensures Fits([p] + ps, args) ==> Output([p] + ps, args) == Printed(p, args) + Output(ps, Left(p, args))
  {
    assert ([p] + ps)[1..] == ps;
  }
}
