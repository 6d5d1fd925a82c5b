/**
 The two small printf functions, one character of the format string after the other, on a port that
 takes one character at a time.
 */
module Printf {
  import opened Arithmetic
  import opened Numerals
  import opened FormatStrings

  datatype State = Chars | FirstFmtChar | OtherFmtChar

  /** The pieces still to come, in the middle of a format string. */
  function Pending(state: State, f: Flags, rest: string): seq<Piece> {
    match state
    case Chars => Pieces(rest)
    case FirstFmtChar => Pieces("%" + rest)
    case OtherFmtChar => PiecesWithin(f, rest)
  }

  lemma PendingFirst(f: Flags, rest: string)
    requires rest != []
    ensures Pending(FirstFmtChar, f, rest)
         == if rest[0] == '%' then [Literal('%')] + Pieces(rest[1..])
            else if rest[0] == '0' then PiecesWithin(NO_FLAGS.(zero := true), rest[1..])
            else PiecesWithin(NO_FLAGS, rest)
  {
    var all := "%" + rest;
    assert all[1..] == rest && all[2..] == rest[1..];
  }

  /** A lone percent sign at the end asks for nothing. */
  lemma PendingAtEnd(state: State, f: Flags)
    ensures Pending(state, f, []) == []
  {
    assert "%" + [] == "%" && "%"[1..] == [];
  }

  /** The digits that are left, and the place value of the first of them. */
  ghost predicate DigitsLeft(whole: string, done: string, v: nat, p: nat, k: nat, b: nat, upper: bool) {
    && 2 <= b <= 16 && v < Power(b, k) && p == (if k == 0 then 0 else Power(b, k - 1))
    && whole == done + Fixed(v, k, b, upper)
  }

  lemma NextDigitLeft(whole: string, done: string, v: nat, p: nat, k: nat, b: nat, upper: bool)
    requires DigitsLeft(whole, done, v, p, k, b, upper) && k > 0 && p > 0 && b > 0
    ensures 0 <= v / p < b
    ensures DigitsLeft(whole, done + [Glyph(v / p, upper)], v % p, p / b, k - 1, b, upper)
  {
    TopDigit(v, k, b);
    PowerDown(b, k - 1);
    var d := [Glyph(v / p, upper)];
    assert done + (d + Fixed(v % p, k - 1, b, upper)) == done + d + Fixed(v % p, k - 1, b, upper);
  }

  /** In the middle of counting digits: q is what dividing has left of v. */
  ghost predicate Counted(v: nat, q: nat, p: nat, count: nat, b: nat) {
    && 2 <= b && count > 0 && p == Power(b, count - 1) && q == v / p && (count == 1 || p <= v)
  }

  lemma CountOneMore(v: nat, q: nat, p: nat, count: nat, b: nat)
    requires Counted(v, q, p, count, b) && q / b > 0
    ensures Counted(v, q / b, p * b, count + 1, b) && p * b <= v && 0 <= q / b < q
  {
    DivMod(q, b);
    Divides(v, p, b);
    assert b <= q by {
      if q < b {
        Quotient(q, b, 0, q);
      }
    }
    Shrinks(q, b);
    assert Power(b, count) == p * b;
    Covers(v, p * b);
  }

  lemma Covers(v: nat, p: nat)
    requires p > 0 && v / p > 0
    ensures p <= v
  {
    DivMod(v, p);
    Times(1, v / p, p);
  }

  lemma CountedAll(v: nat, q: nat, p: nat, count: nat, b: nat, upper: bool)
    requires Counted(v, q, p, count, b) && b <= 16 && q / b == 0
    ensures v < Power(b, count) && Fixed(v, count, b, upper) == Digits(v, b, upper)
  {
    DivMod(q, b);
    DivMod(v, p);
    BelowPower(q, v % p, b, p);
    FixedIsDigits(v, count, b, upper);
  }

  /** The place value of the nibble at a shift. */
  function Place(shift: int): nat
    requires shift in {0, 4, 8, 12, 16, 20, 24, 28}
  {
    if shift == 0 then 0x1 else if shift == 4 then 0x10 else if shift == 8 then 0x100
    else if shift == 12 then 0x1000 else if shift == 16 then 0x1_0000 else if shift == 20 then 0x10_0000
    else if shift == 24 then 0x100_0000 else 0x1000_0000
  }

  /** (v & (0xF << shift)) >> shift */
  function Nibble(v: u32, shift: int): (d: nat)
    requires shift in {0, 4, 8, 12, 16, 20, 24, 28}
    ensures d < 16
  {
    v / Place(shift) % 16
  }

  lemma PlaceIsPower(k: nat)
    requires k < 8
    ensures Place(4 * k) == Power(16, k)
  {
    if k > 0 {
      PlaceIsPower(k - 1);
    }
  }

  lemma TopNibbleClear(v: u32, k: nat)
    requires k < 8 && v < Power(16, k + 1) && Nibble(v, 4 * k) == 0
    ensures v < Power(16, k)
  {
    PlaceIsPower(k);
    TopDigit(v, k + 1, 16);
    DivMod(v, Power(16, k));
    Quotient(v / Power(16, k), 16, 0, v / Power(16, k));
  }

  lemma TopNibbleSet(v: u32, k: nat)
    requires k < 8 && v < Power(16, k + 1) && Nibble(v, 4 * k) != 0
    ensures Fixed(v, k + 1, 16, false) == Digits(v, 16, false)
  {
    PlaceIsPower(k);
    TopDigit(v, k + 1, 16);
    var p := Power(16, k);
    DivMod(v, p);
    Quotient(v / p, 16, 0, v / p);
    Times(1, v / p, p);
    FixedIsDigits(v, k + 1, 16, false);
  }

  /** The nibbles from k - 1 down are still to be printed. */
  ghost predicate NibblesLeft(whole: string, done: string, v: u32, k: nat) {
    v % Power(16, k) < Power(16, k) && whole == done + Fixed(v % Power(16, k), k, 16, false)
  }

  lemma NextNibble(whole: string, done: string, v: u32, k: nat)
    requires k < 8 && NibblesLeft(whole, done, v, k + 1)
    ensures NibblesLeft(whole, done + [Glyph(Nibble(v, 4 * k), false)], v, k)
  {
    var p := Power(16, k);
    var w := v % Power(16, k + 1);
    PlaceIsPower(k);
    SplitNibble(v, w, p);
    DivMod(v, p);
    var d := [Glyph(w / p, false)];
    assert done + (d + Fixed(w % p, k, 16, false)) == done + d + Fixed(w % p, k, 16, false);
  }

  lemma SplitNibble(v: nat, w: nat, p: nat)
    requires p > 0 && w == v % (16 * p)
    ensures w / p == v / p % 16 && w % p == v % p
  {
    var q := v / (16 * p);
    DivMod(v, 16 * p);
    DivMod(w, p);
    assert q * (16 * p) == q * 16 * p;
    assert (q * 16 + w / p) * p == q * 16 * p + w / p * p;
    Quotient(v, p, q * 16 + w / p, w % p);
    Fewer(w / p, 16, p);
    Quotient(v / p, 16, q, w / p);
  }

  lemma PlainAfterPercent(fmt: string)
    requires |fmt| > 1 && fmt[0] == '%'
    ensures var later := PlainPieces(fmt[2..]);
            PlainPieces(fmt) == if fmt[1] == '%' then [Literal('%')] + later
                                else if Known(fmt[1]) then [Conversion(false, -1, fmt[1])] + later
                                else later
  {
  }

  lemma PlainHex(v: u32)
    ensures NumberField(false, -1, 'x', v) == Digits(v, 16, false)
  {
  }

  /** What was sent, what the next piece prints, and what comes behind it. */
  lemma SplitOutput(whole: string, sent: string, p: Piece, ps: seq<Piece>, args: seq<Arg>)
    requires Fits([p] + ps, args) && whole == sent + Output([p] + ps, args)
    ensures TakesArg(p) ==> args != [] && args[0].Word? == TakesWord(p.letter)
    ensures Fits(ps, Left(p, args)) && whole == sent + Printed(p, args) + Output(ps, Left(p, args))
    ensures TakesArg(p) ==> Printed(p, args) == Printed(p, [args[0]])
  {
    OutputNext(p, ps, args);
    assert sent + (Printed(p, args) + Output(ps, Left(p, args))) == sent + Printed(p, args) + Output(ps, Left(p, args));
  }

  lemma OneFits(p: Piece, args: seq<Arg>)
    requires !p.TooLarge? && (TakesArg(p) ==> args != [] && args[0].Word? == TakesWord(p.letter))
    ensures Fits([p], args)
  {
    assert [p][1..] == [];
  }

  // ---------------------------------------------------------------- the port

  class Port {
    var sent: string

    constructor ()
      ensures sent == []
    {
      sent := [];
    }

    method TxChar(c: char)
      modifies this
      ensures sent == old(sent) + [c]
    {
      sent := sent + [c];
    }

    method RepChar(c: char, r: int)
      modifies this
      ensures sent == old(sent) + Repeat(c, r)
    {
      var left := r;
      while left > 0
        invariant left <= r && (r >= 0 ==> left >= 0)
        invariant sent == old(sent) + Repeat(c, if r < 0 then r else r - left)
      {
        TxChar(c);
        left := left - 1;
      }
    }

    method Puts(s: string)
      modifies this
      ensures sent == old(sent) + s
    {
      var i := 0;
      while i < |s|
        invariant 0 <= i <= |s| && sent == old(sent) + s[..i]
      {
        TxChar(s[i]);
        i := i + 1;
      }
    }

    // ------------------------------------------------------------ integers

    /** Counts the digits, and finds the place value of the first one. */
    method CountDigits(v: u32, base: nat, ghost upper: bool) returns (digitCount: nat, p: u32)
      requires 2 <= base <= 16
      ensures digitCount == |Digits(v, base, upper)|
      ensures DigitsLeft(Digits(v, base, upper), [], v, p, digitCount, base, upper)
    {
      var shrink: nat := v;
      p, digitCount := 1, 1;
      Quotient(v, 1, v, 0);
      while shrink / base > 0
        invariant Counted(v, shrink, p, digitCount, base)
        decreases shrink
      {
        CountOneMore(v, shrink, p, digitCount, base);
        shrink := shrink / base;
        digitCount := digitCount + 1;
        p := p * base;
      }
      DivMod(shrink, base);
      CountedAll(v, shrink, p, digitCount, base, upper);
    }

    /** Prints one digit. */
    method PutDigit(d: nat, upper: bool)
      requires d < 16
      modifies this
      ensures sent == old(sent) + [Glyph(d, upper)]
    {
      var c := '0' + d as char;
      if c > '9' {
        c := c + (if upper then 'A' else 'a') - '0' - 10 as char;
      }
      TxChar(c);
    }

    /** Prints the digits from the place value p down. */
    method PutDigits(v: u32, p: u32, base: nat, upper: bool, ghost whole: string, ghost count: nat)
      requires DigitsLeft(whole, [], v, p, count, base, upper)
      modifies this
      ensures sent == old(sent) + whole
    {
      var v, p := v, p;
      ghost var k, done := count, [];
      while p != 0
        invariant DigitsLeft(whole, done, v, p, k, base, upper) && sent == old(sent) + done
        decreases k
      {
        v, p, done := NextDigit(v, p, base, upper, whole, done, k);
        k := k - 1;
      }
      assert whole == done;
    }

    method NextDigit(v: u32, p: u32, base: nat, upper: bool, ghost whole: string, ghost done: string, ghost k: nat)
      returns (v': u32, p': u32, ghost done': string)
      requires DigitsLeft(whole, done, v, p, k, base, upper) && k > 0 && p > 0
      modifies this
      ensures DigitsLeft(whole, done', v', p', k - 1, base, upper)
      ensures exists c :: done' == done + [c] && sent == old(sent) + [c]
    {
      NextDigitLeft(whole, done, v, p, k, base, upper);
      DivMod(v, p);
      DivMod(p, base);
      PutDigit(v / p, upper);
      done' := done + [Glyph(v / p, upper)];
      v', p' := v % p, p / base;
    }

    /** Prints leading characters and the sign. */
    method PutLead(leadingZero: bool, sign: bool, room: int, ghost width: int, ghost digitCount: nat)
      requires room == width - digitCount
      modifies this
      ensures sent == old(sent) + Lead(leadingZero, width, sign, digitCount)
    {
      var before := room;
      if leadingZero {
        if sign {
          TxChar('-');
          before := before - 1;
        }
        RepChar('0', before);
      } else {
        if sign {
          before := before - 1;
        }
        RepChar(' ', before);
        if sign {
          TxChar('-');
        }
      }
    }

    method StripSign(value: u32, signed: bool) returns (v: u32, sign: bool)
      ensures sign == (signed && value >= 0x8000_0000)
      ensures v == if sign then 0x1_0000_0000 - value else value
    {
      v, sign := value, false;
      if signed && v >= 0x8000_0000 {
        v := 0xFFFF_FFFF - v + 1;
        sign := true;
      }
    }

    method PutInteger(value: u32, base: nat, signed: bool, upper: bool, leadingZero: bool, width: int)
      requires 2 <= base <= 16
      modifies this
      ensures var n := if signed && value >= 0x8000_0000 then value - 0x1_0000_0000 else value;
              sent == old(sent) + Field(leadingZero, width, n < 0, Digits(Magnitude(n), base, upper))
    {
      var v, sign := StripSign(value, signed);
      var digitCount, p := CountDigits(v, base, upper);
      PutLead(leadingZero, sign, width - digitCount, width, digitCount);
      PutDigits(v, p, base, upper, Digits(v, base, upper), digitCount);
    }

    method PutNumber(letter: char, leadingZero: bool, width: int, v: u32)
      requires TakesWord(letter) && letter != 'c'
      modifies this
      ensures sent == old(sent) + NumberField(leadingZero, width, letter, v)
    {
      match letter {
        case 'd' | 'i' => PutInteger(v, 10, true, false, leadingZero, width);
        case 'u' => PutInteger(v, 10, false, false, leadingZero, width);
        case 'o' => PutInteger(v, 8, false, false, leadingZero, width);
        case 'x' => PutInteger(v, 16, false, false, leadingZero, width);
        case 'X' => PutInteger(v, 16, false, true, leadingZero, width);
      }
    }

    /** One conversion, from its letter on; "used" tells how many arguments it took. */
    method Convert(letter: char, leadingZero: bool, width: int, args: seq<Arg>) returns (used: nat)
      requires Fits([Conversion(leadingZero, width, letter)], args)
      modifies this
      ensures used <= |args|
      ensures var p := Conversion(leadingZero, width, letter);
              sent == old(sent) + Printed(p, args) && args[used..] == Left(p, args)
    {
      used := if TakesArg(Conversion(leadingZero, width, letter)) then 1 else 0;
      if letter == 'c' {
        RepChar(' ', width - 1);
        TxChar(LowByte(args[0].value));
      } else if letter == 's' {
        RepChar(' ', width - |args[0].text|);
        Puts(args[0].text);
      } else if TakesWord(letter) {
        PutNumber(letter, leadingZero, width, args[0].value);
      }
    }

    /** The private printf of the log. */
    method LogPrintf(fmt: string, args: seq<Arg>)
      requires Fits(Pieces(fmt), args)
      modifies this
      ensures sent == old(sent) + Output(Pieces(fmt), args)
    {
      var state, i, args' := Chars, 0, args;
      var leadingZero, before: cint, after: cint := false, -1, -1;
      ghost var whole := sent + Output(Pieces(fmt), args);
      assert fmt[0..] == fmt;
      while i < |fmt|
        invariant 0 <= i <= |fmt|
        invariant ToCome(whole, state, Flags(leadingZero, before, after), fmt[i..], args')
        invariant state == FirstFmtChar ==> Flags(leadingZero, before, after) == NO_FLAGS
      {
        assert fmt[i..][1..] == fmt[i + 1..];
        state, leadingZero, before, after, args' :=
          NextChar(fmt[i], state, leadingZero, before, after, fmt[i..], args', whole);
        i := i + 1;
      }
      assert fmt[i..] == [];
      PendingAtEnd(state, Flags(leadingZero, before, after));
    }

    /** One character of the format string, in any state. */
    method NextChar(c: char, state: State, leadingZero: bool, before: cint, after: cint, ghost rest: string,
                    args: seq<Arg>, ghost whole: string)
      returns (state': State, leadingZero': bool, before': cint, after': cint, args': seq<Arg>)
      requires rest != [] && rest[0] == c
      requires ToCome(whole, state, Flags(leadingZero, before, after), rest, args)
      requires state == FirstFmtChar ==> Flags(leadingZero, before, after) == NO_FLAGS
      modifies this
      ensures ToCome(whole, state', Flags(leadingZero', before', after'), rest[1..], args')
      ensures state' == FirstFmtChar ==> Flags(leadingZero', before', after') == NO_FLAGS
    {
      state', leadingZero', before', after', args' := state, leadingZero, before, after, args;
      match state {
        case Chars =>
          if c == '%' {
            leadingZero', before', after' := false, -1, -1;
            state' := FirstFmtChar;
            assert "%" + rest[1..] == rest;
          } else {
            PutLiteral(c, rest[1..], args, whole);
          }
        case FirstFmtChar =>
          PendingFirst(NO_FLAGS, rest);
          if c == '0' {
            leadingZero' := true;
            state' := OtherFmtChar;
          } else if c == '%' {
            PutLiteral(c, rest[1..], args, whole);
            state' := Chars;
          } else {
            state', before', after', args' := OtherChar(c, leadingZero, before, after, rest, args, whole);
          }
        case OtherFmtChar =>
          state', before', after', args' := OtherChar(c, leadingZero, before, after, rest, args, whole);
      }
    }

    method PutLiteral(c: char, ghost rest: string, args: seq<Arg>, ghost whole: string)
      requires Fits([Literal(c)] + Pieces(rest), args)
      requires whole == sent + Output([Literal(c)] + Pieces(rest), args)
      modifies this
      ensures forall f :: ToCome(whole, Chars, f, rest, args)
    {
      SplitOutput(whole, sent, Literal(c), Pieces(rest), args);
      TxChar(c);
    }

    /** What was sent and what is still to come make up the whole output. */
    ghost predicate ToCome(whole: string, state: State, f: Flags, rest: string, args: seq<Arg>)
      reads this
    {
      Fits(Pending(state, f, rest), args) && whole == sent + Output(Pending(state, f, rest), args)
    }

    /** A character between the percent sign and the letter, or the letter. */
    method OtherChar(c: char, leadingZero: bool, before: cint, after: cint, ghost rest: string, args: seq<Arg>,
                     ghost whole: string)
      returns (state: State, before': cint, after': cint, args': seq<Arg>)
      requires rest != [] && rest[0] == c
      requires ToCome(whole, OtherFmtChar, Flags(leadingZero, before, after), rest, args)
      modifies this
      ensures state != FirstFmtChar
      ensures ToCome(whole, state, Flags(leadingZero, before', after'), rest[1..], args')
    {
      if IsFlag(c) {
        before', after' := FlagChar(c, leadingZero, before, after);
        state, args' := OtherFmtChar, args;
      } else {
        ghost var p := Conversion(leadingZero, before, c);
        SplitOutput(whole, sent, p, Pieces(rest[1..]), args);
        OneFits(p, args);
        var used := Convert(c, leadingZero, before, args);
        state, before', after', args' := Chars, before, after, args[used..];
      }
    }

    /** A point, a digit, or the letter l, which changes nothing: a long is as wide as an int. */
    method FlagChar(c: char, leadingZero: bool, before: cint, after: cint) returns (before': cint, after': cint)
      requires IsFlag(c) && InInt(Noted(Flags(leadingZero, before, after), c))
      ensures Flags(leadingZero, before', after') == Noted(Flags(leadingZero, before, after), c)
    {
      before', after' := before, after;
      if c == '.' {
        after' := 0;
      } else if '0' <= c <= '9' {
        before', after' := DigitChar(c, before, after);
      }
    }

    /** A digit belongs to the width, or behind the point. */
    method DigitChar(c: char, before: cint, after: cint) returns (before': cint, after': cint)
      requires IsDigit(c) && (if after < 0 then Longer(before, c) else Longer(after, c)) <= INT_MAX
      ensures before' == if after < 0 then Longer(before, c) else before
      ensures after' == if after < 0 then after else Longer(after, c)
    {
      before', after' := before, after;
      if after < 0 {
        if before < 0 {
          before' := 0;
        } else {
          before' := before' * 10;
        }
        before' := before' + (c - '0') as int;
      } else {
        after' := after * 10 + (c - '0') as int;
      }
    }

    // ------------------------------------------------------------ the smaller printf

    /** Finds the first non-zero nibble. */
    method FirstNibble(v: u32) returns (shift: int, ghost k: nat)
      requires v != 0
      ensures k < 8 && shift == 4 * k && NibblesLeft(Digits(v, 16, false), [], v, k + 1)
    {
      shift, k := 28, 7;
      assert Power(16, 8) == 0x1_0000_0000;
      while Nibble(v, shift) == 0
        invariant k < 8 && shift == 4 * k && v < Power(16, k + 1)
        decreases k
      {
        TopNibbleClear(v, k);
        assert Power(16, 0) == 1;
        shift, k := shift - 4, k - 1;
      }
      TopNibbleSet(v, k);
      Quotient(v, Power(16, k + 1), 0, v);
    }

    /** Prints a word in hexadecimal, nibble by nibble. */
    method PutHex(v: u32)
      modifies this
      ensures sent == old(sent) + Digits(v, 16, false)
    {
      if v == 0 {
        TxChar('0');
        return;
      }
      var shift;
      ghost var n, done: string;
      shift, n := FirstNibble(v);
      n, done := n + 1, [];
      while shift >= 0
        invariant 0 <= n <= 8 && shift + 4 == 4 * n
        invariant NibblesLeft(Digits(v, 16, false), done, v, n) && sent == old(sent) + done
        decreases n
      {
        assert n > 0;
        done := PutNibble(v, shift, n - 1, Digits(v, 16, false), done);
        shift, n := shift - 4, n - 1;
      }
      assert Digits(v, 16, false) == done;
    }

    method PutNibble(v: u32, shift: int, ghost k: nat, ghost whole: string, ghost done: string)
      returns (ghost done': string)
      requires k < 8 && shift == 4 * k && NibblesLeft(whole, done, v, k + 1)
      modifies this
      ensures NibblesLeft(whole, done', v, k)
      ensures exists c :: done' == done + [c] && sent == old(sent) + [c]
    {
      NextNibble(whole, done, v, k);
      var digit := Nibble(v, shift);
      TxChar(if digit <= 9 then '0' + digit as char else 'a' + digit as char - 10 as char);
      done' := done + [Glyph(digit, false)];
    }

    method AltPrintf(fmt: string, args: seq<Arg>)
      requires Fits(PlainPieces(fmt), args)
      modifies this
      ensures sent == old(sent) + Output(PlainPieces(fmt), args)
    {
      var i, args' := 0, args;
      ghost var whole := sent + Output(PlainPieces(fmt), args);
      assert fmt[0..] == fmt;
      while i < |fmt|
        invariant 0 <= i <= |fmt| && PlainToCome(whole, fmt[i..], args')
      {
        var c := fmt[i];
        ghost var rest := fmt[i..];
        i := i + 1;
        if c != '%' {
          assert rest[1..] == fmt[i..];
          AltLiteral(c, rest, args', whole);
        } else {
          if i == |fmt| {
            assert rest == "%";
            break;
          }
          c := fmt[i];
          i := i + 1;
          assert rest[2..] == fmt[i..];
          args' := AltConvert(c, rest, args', whole);
        }
      }
    }

    ghost predicate PlainToCome(whole: string, rest: string, args: seq<Arg>)
      reads this
    {
      Fits(PlainPieces(rest), args) && whole == sent + Output(PlainPieces(rest), args)
    }

    method AltLiteral(c: char, ghost rest: string, args: seq<Arg>, ghost whole: string)
      requires rest != [] && rest[0] == c && c != '%' && PlainToCome(whole, rest, args)
      modifies this
      ensures PlainToCome(whole, rest[1..], args)
    {
      SplitOutput(whole, sent, Literal(c), PlainPieces(rest[1..]), args);
      TxChar(c);
    }

    /** The character behind a percent sign. */
    method AltConvert(c: char, ghost rest: string, args: seq<Arg>, ghost whole: string) returns (args': seq<Arg>)
      requires |rest| > 1 && rest[0] == '%' && rest[1] == c && PlainToCome(whole, rest, args)
      modifies this
      ensures PlainToCome(whole, rest[2..], args')
    {
      PlainAfterPercent(rest);
      args' := args;
      if c == '%' {
        SplitOutput(whole, sent, Literal(c), PlainPieces(rest[2..]), args);
        TxChar(c);
      } else if Known(c) {
        SplitOutput(whole, sent, Conversion(false, -1, c), PlainPieces(rest[2..]), args);
        PutKnown(c, args[0]);
        args' := args[1..];
      }
    }

    method PutKnown(c: char, arg: Arg)
      requires Known(c) && arg.Word? == (c != 's')
      modifies this
      ensures sent == old(sent) + Printed(Conversion(false, -1, c), [arg])
    {
      if c == 'c' {
        TxChar(LowByte(arg.value));
      } else if c == 'x' {
        PlainHex(arg.value);
        PutHex(arg.value);
      } else {
        Puts(arg.text);
      }
    }
  }

  /** On a plain format string it makes no difference which printf is called. */
  method PrintBoth(fmt: string, args: seq<Arg>) returns (log: string, alt: string)
    requires Plain(fmt) && Fits(Pieces(fmt), args)
    ensures log == alt == Output(Pieces(fmt), args)
  {
    PrintersAgree(fmt, args);
    var port := new Port();
    port.LogPrintf(fmt, args);
    log := port.sent;
    port := new Port();
    port.AltPrintf(fmt, args);
    alt := port.sent;
  }
}
