/**
 Numbers written out in a base, and fields padded to a width.

 The words are 32 bits wide; bases are 8, 10 and 16 in the program, but nothing here needs that.
 */
module Numerals {
  import opened Arithmetic

  // ---------------------------------------------------------------- digits

  function Glyph(d: nat, upper: bool): char
    requires d < 16
  {
    if d < 10 then '0' + d as char else (if upper then 'A' else 'a') + (d - 10) as char
  }

  function DigitOf(c: char): nat {
    if '0' <= c <= '9' then (c - '0') as nat
    else if 'a' <= c <= 'f' then (c - 'a') as nat + 10
    else if 'A' <= c <= 'F' then (c - 'A') as nat + 10
    else 0
  }

  lemma GlyphDigit(d: nat, upper: bool)
    requires d < 16
    ensures DigitOf(Glyph(d, upper)) == d && Glyph(d, upper) != ' ' && Glyph(d, upper) != '-'
    ensures Glyph(d, upper) == '0' <==> d == 0
  {
  }

  /** The numeral of a number. */
  function Digits(v: nat, b: nat, upper: bool): (s: string)
    requires 2 <= b <= 16
    ensures |s| >= 1
  {
    if v < b then [Glyph(v, upper)]
    else
      Shrinks(v, b);
      Digits(v / b, b, upper) + [Glyph(v % b, upper)]
  }

  /** The number of a numeral. */
  function Value(s: string, b: nat): nat {
    if s == [] then 0 else Value(s[..|s| - 1], b) * b + DigitOf(s[|s| - 1])
  }

  lemma Shrinks(v: nat, b: nat)
    requires 2 <= b <= v
    ensures 0 < v / b < v && v % b < b
  {
    DivMod(v, b);
    Fewer(0, v / b, b);
    Times(2, b, v / b);
  }

  lemma {:induction false} DigitsValue(v: nat, b: nat, upper: bool)
    requires 2 <= b <= 16
    ensures Value(Digits(v, b, upper), b) == v
  {
    if v < b {
      GlyphDigit(v, upper);
      ValueOfOne(Glyph(v, upper), b);
    } else {
      Shrinks(v, b);
      DivMod(v, b);
      GlyphDigit(v % b, upper);
      DigitsValue(v / b, b, upper);
      ValueOfMore(Digits(v / b, b, upper), Glyph(v % b, upper), b);
    }
  }

  lemma ValueOfOne(c: char, b: nat)
    ensures Value([c], b) == DigitOf(c)
  {
    assert [c][..0] == [];
    assert Value([], b) * b == 0;
  }

  lemma ValueOfMore(s: string, c: char, b: nat)
    ensures Value(s + [c], b) == Value(s, b) * b + DigitOf(c)
  {
    assert (s + [c])[..|s|] == s;
  }

  /** All glyphs are digits of the base, and only the number 0 starts with a zero. */
  lemma {:induction false} DigitsShape(v: nat, b: nat, upper: bool)
    requires 2 <= b <= 16
    ensures var s := Digits(v, b, upper);
            && (forall i :: 0 <= i < |s| ==> DigitOf(s[i]) < b && s[i] == Glyph(DigitOf(s[i]), upper))
            && (s[0] == '0' <==> v == 0)
  {
    if v < b {
      GlyphDigit(v, upper);
    } else {
      Shrinks(v, b);
      GlyphDigit(v % b, upper);
      DigitsShape(v / b, b, upper);
    }
  }

  lemma {:induction false} StartsWithDigit(v: nat, b: nat, upper: bool)
    requires 2 <= b <= 16
    ensures Digits(v, b, upper)[0] != ' ' && Digits(v, b, upper)[0] != '-'
  {
    if v < b {
      GlyphDigit(v, upper);
    } else {
      Shrinks(v, b);
      StartsWithDigit(v / b, b, upper);
    }
  }

  // ---------------------------------------------------------------- place values

  function Power(b: nat, k: nat): (p: nat)
    requires b > 0
    ensures p > 0
  {
    if k == 0 then 1
    else
      Product(b, Power(b, k - 1));
      b * Power(b, k - 1)
  }

  lemma PowerDown(b: nat, k: nat)
    requires b >= 2
    ensures Power(b, k) / b == if k == 0 then 0 else Power(b, k - 1)
  {
    if k > 0 {
      Quotient(Power(b, k), b, Power(b, k - 1), 0);
    }
  }

  /** The lowest k digits of a number, most significant first. */
  function Fixed(v: nat, k: nat, b: nat, upper: bool): (s: string)
    requires 2 <= b <= 16 && v < Power(b, k)
    ensures |s| == k
  {
    if k == 0 then []
    else
      TopDigit(v, k, b);
      [Glyph(v / Power(b, k - 1), upper)] + Fixed(v % Power(b, k - 1), k - 1, b, upper)
  }

  lemma TopDigit(v: nat, k: nat, b: nat)
    requires 2 <= b && k > 0 && v < Power(b, k)
    ensures 0 <= v / Power(b, k - 1) < b && 0 <= v % Power(b, k - 1) < Power(b, k - 1)
  {
    var p := Power(b, k - 1);
    DivMod(v, p);
    Fewer(v / p, b, p);
  }

  /** Taking the digits from the other end. */
  lemma {:induction false} FixedFromBelow(v: nat, k: nat, b: nat, upper: bool)
    requires 2 <= b <= 16 && k > 0 && v < Power(b, k)
    ensures 0 <= v / b < Power(b, k - 1) && 0 <= v % b < b
    ensures Fixed(v, k, b, upper) == Fixed(v / b, k - 1, b, upper) + [Glyph(v % b, upper)]
    decreases k
  {
    if k == 1 {
      OneDigit(v, b, upper);
    } else {
      TopDigit(v, k, b);
      var q, r := v / Power(b, k - 1), v % Power(b, k - 1);
      FixedFromBelow(r, k - 1, b, upper);
      SplitAgain(v, b, Power(b, k - 2), q, r);
      BelowPower(q, r / b, b, Power(b, k - 2));
      TwoEnds(v, v / b, r, r / b, q, v % b, k, b, upper);
    }
  }

  /** v and w have the same top digit q; r and s are what is below it, and end in the digit c in v and r only. */
  lemma TwoEnds(v: nat, w: nat, r: nat, s: nat, q: nat, c: nat, k: nat, b: nat, upper: bool)
    requires 2 <= b <= 16 && k > 1 && q < b && c < b
    requires v < Power(b, k) && q == v / Power(b, k - 1) && r == v % Power(b, k - 1)
    requires w < Power(b, k - 1) && q == w / Power(b, k - 2) && s == w % Power(b, k - 2)
    requires r < Power(b, k - 1) && s < Power(b, k - 2)
    requires Fixed(r, k - 1, b, upper) == Fixed(s, k - 2, b, upper) + [Glyph(c, upper)]
    ensures Fixed(v, k, b, upper) == Fixed(w, k - 1, b, upper) + [Glyph(c, upper)]
  {
    var rest := Fixed(s, k - 2, b, upper);
    assert Fixed(v, k, b, upper) == [Glyph(q, upper)] + (rest + [Glyph(c, upper)]);
    assert Fixed(w, k - 1, b, upper) == [Glyph(q, upper)] + rest;
  }

  lemma OneDigit(v: nat, b: nat, upper: bool)
    requires 2 <= b <= 16 && v < Power(b, 1)
    ensures v < b && v / b == 0 && v % b == v && Fixed(v, 1, b, upper) == [Glyph(v, upper)]
  {
    assert Power(b, 1) == b * Power(b, 0) == b;
    Quotient(v, b, 0, v);
    Quotient(v, 1, v, 0);
    assert Fixed(v, 1, b, upper) == [Glyph(v, upper)] + Fixed(0, 0, b, upper);
  }

  lemma SplitAgain(v: nat, b: nat, p: nat, q: nat, r: nat)
    requires b >= 2 && p > 0 && b * p > 0 && q == v / (b * p) && r == v % (b * p) && r / b < p
    ensures v / b == q * p + r / b && v % b == r % b && 0 <= r / b
    ensures v / b / p == q && v / b % p == r / b
  {
    DivMod(v, b * p);
    DivMod(r, b);
    Regroup(q, p, r / b, b);
    Quotient(v, b, q * p + r / b, r % b);
    Quotient(v / b, p, q, r / b);
  }

  /** With as many places as the number needs, this is the numeral. */
  lemma {:induction false} FixedIsDigits(v: nat, k: nat, b: nat, upper: bool)
    requires 2 <= b <= 16 && k > 0 && v < Power(b, k) && (k == 1 || Power(b, k - 1) <= v)
    ensures Fixed(v, k, b, upper) == Digits(v, b, upper)
    decreases k
  {
    if k == 1 {
      OneDigit(v, b, upper);
    } else {
      FixedFromBelow(v, k, b, upper);
      AtLeast(v, b, Power(b, k - 2));
      FixedIsDigits(v / b, k - 1, b, upper);
    }
  }

  lemma AtLeast(v: nat, b: nat, p: nat)
    requires b >= 2 && p > 0 && b * p <= v
    ensures p <= v / b && b <= v
  {
    DivMod(v, b);
    assert (v / b + 1) * b == v / b * b + b;
    Fewer(p, v / b + 1, b);
    Times(1, p, b);
  }

  // ---------------------------------------------------------------- fields

  function Repeat(c: char, n: int): (s: string)
    ensures |s| == if n < 0 then 0 else n
  {
    if n <= 0 then [] else Repeat(c, n - 1) + [c]
  }

  function Magnitude(n: int): nat { if n < 0 then -n else n }

  function Sign(negative: bool): string { if negative then "-" else "" }

  /** What comes before the digits: zeros go behind the sign, spaces before it. */
  function Lead(zero: bool, width: int, negative: bool, digitCount: nat): string {
    var pad := width - digitCount - |Sign(negative)|;
    if zero then Sign(negative) + Repeat('0', pad) else Repeat(' ', pad) + Sign(negative)
  }

  function Field(zero: bool, width: int, negative: bool, digits: string): string {
    Lead(zero, width, negative, |digits|) + digits
  }

  lemma {:induction false} RepeatMeans(c: char, n: int)
    ensures forall i :: 0 <= i < |Repeat(c, n)| ==> Repeat(c, n)[i] == c
  {
    if n > 0 {
      RepeatMeans(c, n - 1);
    }
  }

  /**
   The field is as wide as asked for or as it needs to be and ends in the digits; before them come zeros behind the
   sign, or spaces and then the sign.
   */
  predicate Fills(field: string, zero: bool, width: int, negative: bool, digits: string) {
    var room := |field| - |digits|;
    && |field| == Max(width, |digits| + if negative then 1 else 0) && field[room..] == digits
    && (forall i :: 0 <= i < room ==>
          field[i] == if negative && i == (if zero then 0 else room - 1) then '-' else if zero then '0' else ' ')
  }

  lemma FieldFills(zero: bool, width: int, negative: bool, digits: string)
    ensures Fills(Field(zero, width, negative, digits), zero, width, negative, digits)
  {
    RepeatMeans(if zero then '0' else ' ', width - |digits| - |Sign(negative)|);
  }

  /** What a field says: spaces are skipped, a minus sign counts. */
  function Read(field: string, b: nat): int
    decreases |field|
  {
    if field == [] then 0
    else if field[0] == ' ' then Read(field[1..], b)
    else if field[0] == '-' then 0 - Value(field[1..], b)
    else Value(field, b)
  }

  lemma {:induction false} SpacesSkipped(n: int, s: string, b: nat)
    ensures Read(Repeat(' ', n) + s, b) == Read(s, b)
    decreases n
  {
    if n <= 0 {
      assert Repeat(' ', n) + s == s;
    } else {
      var t := [' '] + s;
      assert Repeat(' ', n) + s == Repeat(' ', n - 1) + t;
      assert t[1..] == s;
      SpacesSkipped(n - 1, t, b);
    }
  }

  lemma {:induction false} ZerosCountNothing(n: int, s: string, b: nat)
    ensures Value(Repeat('0', n) + s, b) == Value(s, b)
    decreases |s|, n
  {
    var all := Repeat('0', n) + s;
    if s != [] {
      assert all[..|all| - 1] == Repeat('0', n) + s[..|s| - 1];
      ZerosCountNothing(n, s[..|s| - 1], b);
    } else if n > 0 {
      ZerosCountNothing(n - 1, s, b);
      assert all == Repeat('0', n - 1) + ['0'] && Repeat('0', n - 1) + s == Repeat('0', n - 1);
      ValueOfMore(Repeat('0', n - 1), '0', b);
      assert 0 * b == 0;
    } else {
      assert all == s;
    }
  }

  /** A padded field reads back as the number and has the shape asked for. */
  lemma FieldReadsBack(zero: bool, width: int, n: int, b: nat, upper: bool)
    requires 2 <= b <= 16
    ensures var digits := Digits(Magnitude(n), b, upper);
            var field := Field(zero, width, n < 0, digits);
            Read(field, b) == n && Fills(field, zero, width, n < 0, digits)
  {
    var digits := Digits(Magnitude(n), b, upper);
    DigitsValue(Magnitude(n), b, upper);
    StartsWithDigit(Magnitude(n), b, upper);
    FieldReads(zero, width, n < 0, digits, b);
    FieldFills(zero, width, n < 0, digits);
  }

  lemma FieldReads(zero: bool, width: int, negative: bool, digits: string, b: nat)
    requires digits != [] && digits[0] != ' ' && digits[0] != '-'
    ensures Read(Field(zero, width, negative, digits), b)
         == if negative then 0 - Value(digits, b) else Value(digits, b)
  {
    var pad := width - |digits| - |Sign(negative)|;
    if zero {
      var body := Repeat('0', pad) + digits;
      assert Field(zero, width, negative, digits) == Sign(negative) + body;
      ZerosOnly(pad, digits);
      ReadUnsigned(negative, body, b);
      ZerosCountNothing(pad, digits, b);
    } else {
      var body := Sign(negative) + digits;
      assert Field(zero, width, negative, digits) == Repeat(' ', pad) + body;
      SpacesSkipped(pad, body, b);
      ReadUnsigned(negative, digits, b);
    }
  }

  lemma ZerosOnly(n: int, s: string)
    requires s != []
    ensures (Repeat('0', n) + s)[0] == if n > 0 then '0' else s[0]
    decreases n
  {
    if n > 1 {
      ZerosOnly(n - 1, s);
    }
  }

  lemma ReadUnsigned(negative: bool, s: string, b: nat)
    requires s != [] && s[0] != ' ' && s[0] != '-'
    ensures Read(Sign(negative) + s, b) == (if negative then 0 - Value(s, b) else Value(s, b))
  {
    if negative {
      assert (Sign(negative) + s)[1..] == s;
    } else {
      assert Sign(negative) + s == s;
    }
  }
}
