/** Numbers as the machine has them, and division by a number that is not a constant. */
module Arithmetic {
  /** 2^32 */
  const WRAP := 0x1_0000_0000

  const INT_MAX := 0x7FFF_FFFF

  type byte = b: int | 0 <= b < 256

  type u32 = x: int | 0 <= x < WRAP

  /** The values of a C int. */
  type cint = x: int | -INT_MAX - 1 <= x <= INT_MAX

  /** The unsigned 32-bit number an integer wraps to. */
  function Unsigned32(x: int): (r: int)
    ensures 0 <= r < WRAP
  {
    x % WRAP
  }

  function Min(a: int, b: int): int { if a <= b then a else b }

  function Max(a: int, b: int): int { if a >= b then a else b }

  lemma DivMod(v: int, b: nat)
    requires b > 0
    ensures v / b * b + v % b == v && 0 <= v % b < b && (v >= 0 ==> v / b >= 0)
  {
  }

  lemma Times(a: int, c: int, b: nat)
    requires a <= c
    ensures a * b <= c * b
  {
  }

  lemma Product(a: nat, b: nat)
    requires a > 0 && b > 0
    ensures a * b > 0
  {
  }

  /** Fewer multiples of b fit in a smaller number. */
  lemma Fewer(q: int, q': int, b: nat)
    requires q * b < q' * b
    ensures q < q'
  {
    if q >= q' {
      Times(q', q, b);
      assert false;
    }
  }

  /** Quotient and remainder are the only numbers of their kind. */
  lemma Quotient(v: int, b: nat, q: int, r: nat)
    requires b > 0 && v == q * b + r && r < b
    ensures v / b == q && v % b == r
  {
    DivMod(v, b);
    Unique(v / b, v % b, q, r, b);
  }

  lemma Unique(q: int, r: nat, q': int, r': nat, b: nat)
    requires q * b + r == q' * b + r' && r < b && r' < b
    ensures q == q' && r == r'
  {
    assert (q + 1) * b == q * b + b && (q' + 1) * b == q' * b + b;
    Fewer(q, q' + 1, b);
    Fewer(q', q + 1, b);
  }

  lemma SmallRemainder(x: nat, m: nat)
    requires x < m
    ensures x % m == x && x / m == 0
  {
    Quotient(x, m, 0, x);
  }

  lemma BelowPower(q: nat, r: nat, b: nat, p: nat)
    requires q < b && r < p
    ensures q * p + r < b * p
  {
    assert q * p + p == (q + 1) * p;
    assert (q + 1) * p <= b * p;
  }

  lemma Regroup(q: nat, a: nat, r: nat, b: nat)
    ensures (q * a + r) * b == q * (a * b) + r * b && a * b == b * a
  {
  }

  /** Dividing twice is dividing by the product. */
  lemma Divides(v: nat, p: nat, b: nat)
    requires p > 0 && b > 0
    ensures p * b > 0 && v / (p * b) == v / p / b
  {
    Product(p, b);
    var q := v / p;
    DivMod(v, p);
    DivMod(q, b);
    var r := q % b * p + v % p;
    Regroup(q / b, b, q % b, p);
    BelowPower(q % b, v % p, b, p);
    Quotient(v, p * b, q / b, r);
  }

  /** A remainder of a multiple of the size leaves the same remainder. */
  lemma RemainderTwice(v: nat, multiple: nat, size: nat)
    requires size > 0 && multiple > 0 && multiple % size == 0
    ensures v % multiple % size == v % size
  {
    var times, q, low := multiple / size, v / multiple, v % multiple;
    DivMod(v, multiple);
    DivMod(multiple, size);
    DivMod(low, size);
    Regroup(q, times, low / size, size);
    Quotient(v, size, q * times + low / size, low % size);
  }
}
