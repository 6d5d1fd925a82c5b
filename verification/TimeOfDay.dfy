/**
 The time of day: a reset time that settimeofday keeps, plus what the tick counter shows.

 Seconds and microseconds are signed 32-bit numbers, tick counts and rates unsigned ones; every
 operation that can leave its range is wrapped as the hardware does.
 */
module TimeOfDay {
  import opened Arithmetic
  import opened Errno

  const ALT_US := 1_000_000

  datatype Timeval = Timeval(sec: int, usec: int)
  datatype Timezone = Timezone(minuteswest: int, dsttime: int)

  /** The signed 32-bit number an integer wraps to. */
  function Signed(x: int): (r: int)
    ensures -0x8000_0000 <= r < 0x8000_0000
  {
    var u := x % WRAP;
    if u < 0x8000_0000 then u else u - WRAP
  }

  predicate Normalised(t: Timeval) { 0 <= t.usec < ALT_US }

  /** Microseconds since the epoch. */
  function Micros(t: Timeval): int { t.sec * ALT_US + t.usec }

  /** Microseconds a tick stands for, as the source computes them. */
  function UsPerTick(rate: int): int
    requires rate > 0
  {
    ALT_US / rate
  }

  /** The part below a second of the time the counter shows, with all bits kept. */
  function UsPart(nticks: int, rate: int): (u: int)
    requires nticks >= 0 && rate > 0
    ensures 0 <= u < ALT_US
  {
    nticks * UsPerTick(rate) % ALT_US
  }

  /** The same, but with the product cut to 32 bits. */
  function UsPart32(nticks: int, rate: int): (u: int)
    requires nticks >= 0 && rate > 0
    ensures 0 <= u < ALT_US
  {
    Unsigned32(nticks * UsPerTick(rate)) % ALT_US
  }

  /** The reset time that settimeofday stores. */
  function ResetTime(t: Timeval, nticks: int, rate: int): Timeval
    requires nticks >= 0 && rate > 0
  {
    Timeval(Signed(t.sec - nticks / rate), Signed(t.usec - UsPart32(nticks, rate)))
  }

  /** Reset time plus counter, before the microseconds are brought into range. */
  function RawTime(reset: Timeval, nticks: int, rate: int): Timeval
    requires nticks >= 0 && rate > 0
  {
    Timeval(Signed(reset.sec + nticks / rate), Signed(reset.usec + UsPart(nticks, rate)))
  }

  /** Borrows from the seconds, or stops at zero when there is nothing to borrow from. */
  function Borrow(t: Timeval): (r: Timeval)
    ensures r.usec >= 0
    decreases if t.usec < 0 then -t.usec else 0
  {
    if t.usec >= 0 then t
    else if t.sec <= 0 then Timeval(0, 0)
    else Borrow(Timeval(t.sec - 1, t.usec + ALT_US))
  }

  /** Carries whole seconds. */
  function Carry(t: Timeval): (r: Timeval)
    requires t.usec >= 0
    ensures Normalised(r) && Micros(r) == Micros(t)
    decreases t.usec
  {
    if t.usec < ALT_US then t else Carry(Timeval(t.sec + 1, t.usec - ALT_US))
  }

  function Normalise(t: Timeval): (r: Timeval)
    ensures Normalised(r)
  {
    Carry(Borrow(t))
  }

  /** When borrowing never runs dry, normalising keeps the time. */
  lemma {:induction false} NormaliseKeepsTime(t: Timeval)
    requires t.usec >= 0 || Micros(t) >= 0
    ensures Micros(Normalise(t)) == Micros(t)
    decreases if t.usec < 0 then -t.usec else 0
  {
    if t.usec < 0 {
      var t' := Timeval(t.sec - 1, t.usec + ALT_US);
      assert Micros(t') == Micros(t);
      NormaliseKeepsTime(t');
      assert Normalise(t) == Normalise(t');
    }
  }

  /** A normalised time is known by its microseconds. */
  lemma MicrosUnique(a: Timeval, b: Timeval)
    requires Normalised(a) && Normalised(b) && Micros(a) == Micros(b)
    ensures a == b
  {
  }

  // ---------------------------------------------------------------- the 32-bit product

  /** Exactly when cutting the product to 32 bits does no harm. */
  predicate ProductFits(nticks: int, rate: int)
    requires nticks >= 0 && rate > 0
  {
    nticks * UsPerTick(rate) / WRAP % 15625 == 0
  }

  /** 10^6 = 2^6 * 15625, and 2^6 divides 2^32. */
  lemma ProductFitsMeans(nticks: int, rate: int)
    requires nticks >= 0 && rate > 0
    ensures UsPart32(nticks, rate) == UsPart(nticks, rate) <==> ProductFits(nticks, rate)
    ensures nticks * UsPerTick(rate) < WRAP ==> ProductFits(nticks, rate)
  {
    var x := nticks * UsPerTick(rate);
    assert x >= 0;
    CutProduct(x);
  }

  lemma CutProduct(x: int)
    requires x >= 0
    ensures x % WRAP % ALT_US == x % ALT_US <==> x / WRAP % 15625 == 0
    ensures x < WRAP ==> x / WRAP == 0
  {
    var high, low := x / WRAP, x % WRAP;
    var q, r := high / 15625, high % 15625;
    assert x == (q * 15625 + r) * WRAP + low;
    // 15625 * 2^32 is a multiple of 10^6
    assert 15625 * WRAP == 67108864 * ALT_US;
    assert x == (q * 67108864) * ALT_US + (r * WRAP + low);
    assert x % ALT_US == (r * WRAP + low) % ALT_US by {
      AddMultiple(r * WRAP + low, q * 67108864);
    }
    if r == 0 {
    } else if (r * WRAP + low) % ALT_US == low % ALT_US {
      DifferenceDivides(r * WRAP + low, low);
      NotDivisible(r);
      assert false;
    }
  }

  lemma AddMultiple(x: int, k: int)
    ensures (k * ALT_US + x) % ALT_US == x % ALT_US
  {
  }

  lemma DifferenceDivides(x: int, y: int)
    requires x % ALT_US == y % ALT_US
    ensures (x - y) % ALT_US == 0
  {
  }

  /** 12659 * 2^26 is 1 modulo 15625, so only multiples of 15625 become multiples of it. */
  lemma Inverse(r: int, k: int)
    requires r * 67108864 == k * 15625
    ensures r == (12659 * k - 54369991 * r) * 15625
  {
  }

  /** No multiple of 2^32 by 1 .. 15624 is a multiple of 10^6. */
  lemma NotDivisible(r: int)
    requires 0 < r < 15625
    ensures (r * WRAP) % ALT_US != 0
  {
    if (r * WRAP) % ALT_US == 0 {
      Inverse(r, r * WRAP / ALT_US);
      assert false;
    }
  }

  // ---------------------------------------------------------------- set, then get

  /** The time read at counter n1 when t was set at counter n0. */
  function ReadBack(t: Timeval, n0: int, n1: int, rate: int): (r: Timeval)
    requires n0 >= 0 && n1 >= 0 && rate > 0
    ensures Normalised(r)
  {
    Normalise(RawTime(ResetTime(t, n0, rate), n1, rate))
  }

  /** The time can be set, and is before 2038 when it is read. */
  predicate InTime(t: Timeval, n0: int, n1: int, rate: int)
    requires rate > 0
  {
    && Normalised(t) && 0 <= n0 <= n1 < WRAP
    && 0 <= t.sec && t.sec + n1 / rate - n0 / rate < 0x7FFF_FFFF
  }

  lemma SignedSum(x: int, a: int, b: int)
    requires -0x8000_0000 <= x - a + b < 0x8000_0000
    ensures Signed(Signed(x - a) + b) == x - a + b
  {
  }

  lemma QuotientsAscend(n0: int, n1: int, rate: int)
    requires 0 <= n0 <= n1 && rate > 0
    ensures n0 / rate <= n1 / rate
  {
    var q0, q1 := n0 / rate, n1 / rate;
    assert q0 * rate <= n0 && n1 < q1 * rate + rate;
    if q1 < q0 {
      Times(q1 + 1, q0, rate);
      assert false;
    }
  }

  lemma RawAfterReset(t: Timeval, n0: int, n1: int, rate: int)
    requires rate > 0 && InTime(t, n0, n1, rate)
    ensures RawTime(ResetTime(t, n0, rate), n1, rate)
         == Timeval(t.sec - n0 / rate + n1 / rate, t.usec - UsPart32(n0, rate) + UsPart(n1, rate))
  {
    QuotientsAscend(n0, n1, rate);
    SignedSum(t.sec, n0 / rate, n1 / rate);
    SignedSum(t.usec, UsPart32(n0, rate), UsPart(n1, rate));
  }

  /** A raw time that is off by less than a second: normalising keeps it, or stops it at zero. */
  lemma NormaliseOffset(t: Timeval)
    requires t.sec >= 0 && -ALT_US < t.usec
    ensures Micros(Normalise(t)) == if Micros(t) < 0 then 0 else Micros(t)
  {
    if Micros(t) >= 0 {
      NormaliseKeepsTime(t);
    } else {
      assert t.sec == 0;
    }
  }

  /**
   An immediate gettimeofday returns the time just set, at any rate, exactly when the product fits
   (or when the error runs into the stop at zero of a clock set to zero).
   */
  lemma ImmediateReadBack(t: Timeval, n: int, rate: int)
    requires rate > 0 && InTime(t, n, n, rate)
    ensures ReadBack(t, n, n, rate) == t
       <==> ProductFits(n, rate) || (t == Timeval(0, 0) && UsPart(n, rate) < UsPart32(n, rate))
  {
    RawAfterReset(t, n, n, rate);
    ProductFitsMeans(n, rate);
    var raw := Timeval(t.sec, t.usec - UsPart32(n, rate) + UsPart(n, rate));
    NormaliseOffset(raw);
    if ReadBack(t, n, n, rate) != t {
      assert Micros(ReadBack(t, n, n, rate)) != Micros(t) by {
        if Micros(ReadBack(t, n, n, rate)) == Micros(t) {
          MicrosUnique(ReadBack(t, n, n, rate), t);
        }
      }
    }
  }

  /** A tick count is whole seconds and the part below, if a tick is a whole number of microseconds. */
  lemma TickMicros(n: int, rate: int)
    requires n >= 0 && rate > 0 && ALT_US % rate == 0
    ensures n * UsPerTick(rate) == (n / rate) * ALT_US + UsPart(n, rate)
  {
    var q, sec, low := UsPerTick(rate), n / rate, n % rate;
    assert q * rate == ALT_US;
    assert n * q == (sec * rate + low) * q == sec * (rate * q) + low * q;
    assert 0 <= low * q < rate * q;
    assert n * q == sec * ALT_US + low * q && 0 <= low * q < ALT_US;
    AddMultiple(low * q, sec);
  }

  /** The time that the counter shows, in microseconds since it was zero. */
  function Shown(n: int, rate: int): int
    requires n >= 0 && rate > 0
  {
    n / rate * ALT_US + UsPart(n, rate)
  }

  /** The counter shows every tick as the time it stands for exactly if a tick is a whole number of microseconds. */
  lemma ShownIsTime(rate: int)
    requires 0 < rate < WRAP
    ensures (forall n :: 0 <= n < WRAP ==> Shown(n, rate) == n * UsPerTick(rate)) <==> ALT_US % rate == 0
  {
    if ALT_US % rate == 0 {
      forall n | 0 <= n < WRAP
        ensures Shown(n, rate) == n * UsPerTick(rate)
      {
        TickMicros(n, rate);
      }
    } else {
      ShownAtOneSecond(rate);
      assert Shown(rate, rate) != rate * UsPerTick(rate);
    }
  }

  /** After "rate" ticks the counter shows a second too much, if a tick is cut to whole microseconds. */
  lemma ShownAtOneSecond(rate: int)
    requires rate > 0 && ALT_US % rate != 0
    ensures Shown(rate, rate) == ALT_US + rate * UsPerTick(rate)
  {
    DivMod(ALT_US, rate);
    Quotient(rate, rate, 1, 0);
    assert rate * UsPerTick(rate) == UsPerTick(rate) * rate;
    NotNegative(rate, UsPerTick(rate));
    SmallRemainder(rate * UsPerTick(rate), ALT_US);
  }

  lemma NotNegative(a: int, b: int)
    requires a >= 0 && b >= 0
    ensures a * b >= 0
  {
  }

  /**
   At any rate, the time read at a later tick is the time set plus what the counter has moved on by,
   precisely when that is not before zero and the product fitted at the time it was set (or when it is zero
   and the error runs into the stop at zero).
   */
  lemma ElapsedReadBack(t: Timeval, n0: int, n1: int, rate: int)
    requires rate > 0 && InTime(t, n0, n1, rate)
    ensures var right := Micros(t) + Shown(n1, rate) - Shown(n0, rate);
            Micros(ReadBack(t, n0, n1, rate)) == right
            <==> right >= 0 && (ProductFits(n0, rate) || (right == 0 && UsPart(n0, rate) < UsPart32(n0, rate)))
  {
    RawAfterReset(t, n0, n1, rate);
    QuotientsAscend(n0, n1, rate);
    ProductFitsMeans(n0, rate);
    NormaliseOffset(Timeval(t.sec - n0 / rate + n1 / rate, t.usec - UsPart32(n0, rate) + UsPart(n1, rate)));
  }

  /** With a tick of whole microseconds that is exactly the time the ticks between took. */
  lemma ElapsedTime(n0: int, n1: int, rate: int)
    requires rate > 0 && ALT_US % rate == 0 && 0 <= n0 <= n1
    ensures Shown(n1, rate) - Shown(n0, rate) == (n1 - n0) * UsPerTick(rate)
  {
    TickMicros(n0, rate);
    TickMicros(n1, rate);
    assert (n1 - n0) * UsPerTick(rate) == n1 * UsPerTick(rate) - n0 * UsPerTick(rate);
  }

  /** A tick counts a whole number of microseconds, or none at all. */
  predicate Steady(rate: int)
    requires rate > 0
  {
    ALT_US % rate == 0 || rate > ALT_US
  }

  lemma ShownAscends(n1: int, n2: int, rate: int)
    requires rate > 0 && 0 <= n1 <= n2 && Steady(rate)
    ensures Shown(n1, rate) <= Shown(n2, rate)
  {
    if rate > ALT_US {
      SmallRemainder(ALT_US, rate);
      QuotientsAscend(n1, n2, rate);
    } else {
      TickMicros(n1, rate);
      TickMicros(n2, rate);
      DivMod(ALT_US, rate);
      Times(n1, n2, UsPerTick(rate));
    }
  }

  /** Of two reads the later one shows no earlier time, whatever was lost when the clock was set. */
  lemma ReadBackMonotone(t: Timeval, n0: int, n1: int, n2: int, rate: int)
    requires rate > 0 && Steady(rate) && n1 <= n2
    requires InTime(t, n0, n1, rate) && InTime(t, n0, n2, rate)
    ensures Micros(ReadBack(t, n0, n1, rate)) <= Micros(ReadBack(t, n0, n2, rate))
  {
    ReadsAs(t, n0, n1, rate);
    ReadsAs(t, n0, n2, rate);
    ShownAscends(n1, n2, rate);
  }

  /** What is read, in terms of what the counter shows. */
  lemma ReadsAs(t: Timeval, n0: int, n1: int, rate: int)
    requires rate > 0 && InTime(t, n0, n1, rate)
    ensures var m := Micros(t) - n0 / rate * ALT_US - UsPart32(n0, rate) + Shown(n1, rate);
            Micros(ReadBack(t, n0, n1, rate)) == if m < 0 then 0 else m
  {
    RawAfterReset(t, n0, n1, rate);
    QuotientsAscend(n0, n1, rate);
    NormaliseOffset(Timeval(t.sec - n0 / rate + n1 / rate, t.usec - UsPart32(n0, rate) + UsPart(n1, rate)));
  }

  /** A clock that was set without loss never shows a time before the one it was set to. */
  lemma ReadBackNotBefore(t: Timeval, n0: int, n1: int, rate: int)
    requires rate > 0 && Steady(rate) && InTime(t, n0, n1, rate) && ProductFits(n0, rate)
    ensures Micros(t) <= Micros(ReadBack(t, n0, n1, rate))
  {
    ElapsedReadBack(t, n0, n1, rate);
    ShownAscends(n0, n1, rate);
  }

  // ---------------------------------------------------------------- rates at which the clock steps back

  /** The first tick at which the microseconds of all ticks add up to a second. */
  function FirstPast(rate: int): int
    requires 0 < rate <= ALT_US
  {
    DivMod(ALT_US, rate);
    OneTickCounts(rate);
    (ALT_US + UsPerTick(rate) - 1) / UsPerTick(rate)
  }

  lemma OneTickCounts(rate: int)
    requires 0 < rate <= ALT_US
    ensures UsPerTick(rate) >= 1
  {
    DivMod(ALT_US, rate);
    if UsPerTick(rate) == 0 {
      assert false;
    }
  }

  /** It comes after the tick at which the counter shows the second, and before the next second. */
  lemma FirstPastMeans(rate: int)
    requires 0 < rate <= ALT_US && ALT_US % rate != 0
    ensures var n, p := FirstPast(rate), UsPerTick(rate);
            rate < n < 2 * rate && (n - 1) * p < ALT_US <= n * p && 0 < p < ALT_US
  {
    var p, r := UsPerTick(rate), ALT_US % rate;
    OneTickCounts(rate);
    DivMod(ALT_US, rate);
    assert rate != 1;
    TickBelowSecond(rate, p, r);
    CeilMeans(ALT_US, p);
    var n := FirstPast(rate);
    PastTheSecond(n, p, rate, r);
  }

  lemma TickBelowSecond(rate: int, p: int, r: int)
    requires rate > 1 && p >= 1 && 0 < r && p * rate + r == ALT_US
    ensures p < ALT_US
  {
    Times(1, rate, p);
    assert p * rate == rate * p;
  }

  lemma CeilMeans(v: int, p: int)
    requires v > 0 && p > 0
    ensures var n := (v + p - 1) / p; (n - 1) * p < v <= n * p
  {
    DivMod(v + p - 1, p);
    var n := (v + p - 1) / p;
    assert (n - 1) * p == n * p - p;
  }

  lemma PastTheSecond(n: int, p: int, rate: int, r: int)
    requires p >= 1 && 0 < r < rate && p * rate + r == ALT_US && (n - 1) * p < ALT_US <= n * p
    ensures rate < n < 2 * rate
  {
    if n <= rate {
      Times(n, rate, p);
      assert false;
    }
    if 2 * rate <= n {
      Times(2 * rate - 1, n - 1, p);
      assert (2 * rate - 1) * p == 2 * (p * rate) - p;
      Times(1, p, rate - 1);
      assert false;
    }
  }

  /** There the counter shows almost a second less than one tick before; up to there it never goes back. */
  lemma ShownStepsBack(rate: int)
    requires 0 < rate <= ALT_US && ALT_US % rate != 0
    ensures var n := FirstPast(rate);
            rate < n < 2 * rate
            && Shown(n, rate) == Shown(n - 1, rate) - (ALT_US - UsPerTick(rate)) < Shown(n - 1, rate)
  {
    var n, p := FirstPast(rate), UsPerTick(rate);
    FirstPastMeans(rate);
    assert n * p == (n - 1) * p + p;
    NotNegative(n - 1, p);
    SmallRemainder((n - 1) * p, ALT_US);
    Quotient(n * p, ALT_US, 1, n * p - ALT_US);
    Quotient(n, rate, 1, n - rate);
    Quotient(n - 1, rate, 1, n - 1 - rate);
  }

  lemma ShownAscendsBefore(n1: int, n2: int, rate: int)
    requires 0 < rate <= ALT_US && ALT_US % rate != 0 && 0 <= n1 <= n2 < FirstPast(rate)
    ensures Shown(n1, rate) <= Shown(n2, rate)
  {
    var n, p := FirstPast(rate), UsPerTick(rate);
    FirstPastMeans(rate);
    Times(n2, n - 1, p);
    Times(n1, n2, p);
    NotNegative(n1, p);
    SmallRemainder(n1 * p, ALT_US);
    SmallRemainder(n2 * p, ALT_US);
    QuotientsAscend(n1, n2, rate);
  }

  /** Two reads, the later of which shows no earlier time. */
  predicate NoStepBack(t: Timeval, n0: int, n1: int, n2: int, rate: int)
    requires rate > 0
  {
    n1 <= n2 && InTime(t, n0, n1, rate) && InTime(t, n0, n2, rate) ==>
      Micros(ReadBack(t, n0, n1, rate)) <= Micros(ReadBack(t, n0, n2, rate))
  }

  /** The clock never steps back exactly at the rates that divide a million, or exceed it. */
  lemma MonotoneExactly(rate: int)
    requires 0 < rate < WRAP
    ensures (forall t, n0, n1, n2 :: NoStepBack(t, n0, n1, n2, rate)) <==> Steady(rate)
  {
    if Steady(rate) {
      forall t, n0, n1, n2
        ensures NoStepBack(t, n0, n1, n2, rate)
      {
        if n1 <= n2 && InTime(t, n0, n1, rate) && InTime(t, n0, n2, rate) {
          ReadBackMonotone(t, n0, n1, n2, rate);
        }
      }
    } else {
      StepsBackAtFirstPast(rate);
      assert !NoStepBack(Timeval(0, 0), 0, FirstPast(rate) - 1, FirstPast(rate), rate);
    }
  }

  /** At the other rates it does so within two seconds of being set to zero at reset. */
  lemma StepsBackAtFirstPast(rate: int)
    requires 0 < rate <= ALT_US && ALT_US % rate != 0
    ensures var n := FirstPast(rate);
            && InTime(Timeval(0, 0), 0, n - 1, rate) && InTime(Timeval(0, 0), 0, n, rate)
            && Micros(ReadBack(Timeval(0, 0), 0, n, rate))
               == Micros(ReadBack(Timeval(0, 0), 0, n - 1, rate)) - (ALT_US - UsPerTick(rate))
               < Micros(ReadBack(Timeval(0, 0), 0, n - 1, rate))
  {
    var n := FirstPast(rate);
    FirstPastMeans(rate);
    ShownStepsBack(rate);
    Quotient(n, rate, 1, n - rate);
    Quotient(n - 1, rate, 1, n - 1 - rate);
    SmallRemainder(0, rate);
    ReadsAs(Timeval(0, 0), 0, n - 1, rate);
    ReadsAs(Timeval(0, 0), 0, n, rate);
  }

  /** At 1024 ticks a second the clock goes back by almost a second from tick 1024 to tick 1025. */
  lemma StepBackExample()
    ensures ReadBack(Timeval(0, 0), 0, 1024, 1024) == Timeval(1, 999424)
    ensures ReadBack(Timeval(0, 0), 0, 1025, 1024) == Timeval(1, 400)
  {
    assert UsPerTick(1024) == 976 && 1025 * 976 == 1000400 && 1024 * 976 == 999424;
    RawAfterReset(Timeval(0, 0), 0, 1024, 1024);
    RawAfterReset(Timeval(0, 0), 0, 1025, 1024);
  }

  /** At 1000 ticks a second, a clock set at tick 4294968 is already wrong when read at once. */
  lemma CutProductLosesTime()
    ensures ReadBack(Timeval(1, 0), 4294968, 4294968, 1000) != Timeval(1, 0)
  {
    ImmediateReadBack(Timeval(1, 0), 4294968, 1000);
    assert UsPerTick(1000) == 1000 && 4294968 * 1000 / WRAP == 1;
  }

  // ---------------------------------------------------------------- the clock

  class Clock {
    var resettime: Timeval
    var timezone: Timezone
    var nticks: int
    var tickRate: int

    constructor (rate: int)
      ensures resettime == Timeval(0, 0) && timezone == Timezone(0, 0) && nticks == 0 && tickRate == rate
    {
      resettime, timezone, nticks, tickRate := Timeval(0, 0), Timezone(0, 0), 0, rate;
    }

    predicate Valid()
      reads this
    {
      0 <= nticks < WRAP && 0 <= tickRate < WRAP
    }

    /** Sets the time; fails when there is no system clock. */
    method SetTimeOfDay(t: Timeval, tz: Timezone) returns (rc: int)
      requires Valid()
      modifies `resettime, `timezone
      ensures tickRate == 0 ==> rc == -1 && resettime == old(resettime) && timezone == old(timezone)
      ensures tickRate != 0 ==> rc == 0 && resettime == ResetTime(t, nticks, tickRate) && timezone == tz
    {
      if tickRate != 0 {
        resettime := Timeval(Signed(t.sec - nticks / tickRate),
                             Signed(t.usec - Unsigned32(nticks * (ALT_US / tickRate)) % ALT_US));
        timezone := tz;
        rc := 0;
      } else {
        rc := -1;
      }
    }

    /** Reads the time; fails when there is no system clock. */
    method GetTimeOfDay() returns (rc: int, t: Timeval, tz: Timezone)
      requires Valid()
      ensures rc == if tickRate == 0 then -ENOTSUP else 0
      ensures rc == 0 ==> t == Normalise(RawTime(resettime, nticks, tickRate)) && tz == timezone
    {
      t, tz := Timeval(0, 0), Timezone(0, 0);
      if tickRate != 0 {
        var sec := Signed(resettime.sec + nticks / tickRate);
        var usec := Signed(resettime.usec + nticks * (ALT_US / tickRate) % ALT_US);
        ghost var raw := Timeval(sec, usec);
        while usec < 0
          invariant Borrow(Timeval(sec, usec)) == Borrow(raw)
          decreases if usec < 0 then -usec else 0
        {
          if sec <= 0 {
            sec := 0;
            usec := 0;
            break;
          } else {
            sec := sec - 1;
            usec := usec + ALT_US;
          }
        }
        while usec >= ALT_US
          invariant usec >= 0 && Carry(Timeval(sec, usec)) == Normalise(raw)
        {
          sec := sec + 1;
          usec := usec - ALT_US;
        }
        t, tz := Timeval(sec, usec), timezone;
        return 0, t, tz;
      }
      rc := -ENOTSUP;
    }
  }

  /** Setting the clock and reading it some ticks later, as one program. */
  method SetThenGet(clock: Clock, t: Timeval, tz: Timezone, later: int) returns (r: Timeval)
    requires clock.Valid() && clock.tickRate > 0 && clock.nticks <= later < WRAP
    modifies clock
    ensures r == ReadBack(t, old(clock.nticks), later, old(clock.tickRate))
  {
    var rc := clock.SetTimeOfDay(t, tz);
    clock.nticks := later;
    var tz';
    rc, r, tz' := clock.GetTimeOfDay();
  }
}
