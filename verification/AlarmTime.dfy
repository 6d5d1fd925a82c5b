/**
 When an alarm goes off: 32-bit times with a rollover flag against unbounded deadlines.

 The system counts ticks in 32 bits.  An alarm keeps the low 32 bits of the tick it waits for and a
 flag that holds it back until the counter has wrapped to zero.  Here "ticks" is the true number of
 ticks since reset, of which the counter is the remainder modulo 2^32.
 */
module AlarmTime {
  import opened Arithmetic

  /** What an alarm remembers: 0 <= time < 2^32. */
  datatype Timer = Timer(time: int, rollover: bool)

  predicate InRange(t: Timer) { 0 <= t.time < WRAP }

  /** Starting an alarm n ticks ahead when the counter shows "nticks". */
  function StartTimer(nticks: int, n: int): Timer {
    var time := (n + nticks + 1) % WRAP;
    Timer(time, time < nticks)
  }

  /** The flag after the counter has moved on to "nticks". */
  function Cleared(t: Timer, nticks: int): Timer {
    if t.rollover && nticks == 0 then t.(rollover := false) else t
  }

  /** Whether the alarm's callback is made when the counter has moved on to "nticks". */
  predicate Fires(t: Timer, nticks: int) {
    Cleared(t, nticks).time <= nticks && !Cleared(t, nticks).rollover
  }

  /** The timer after a callback asked to be called again in "interval" ticks. */
  function Rearmed(t: Timer, nticks: int, interval: int): Timer {
    var time := (t.time + interval) % WRAP;
    Timer(time, if time < nticks then true else Cleared(t, nticks).rollover)
  }

  // ---------------------------------------------------------------- the deadline behind a timer

  /** The tick a timer waits for, as an unbounded number. */
  function Deadline(ticks: nat, t: Timer): int {
    (ticks / WRAP + if t.rollover then 1 else 0) * WRAP + t.time
  }

  /** The deadline lies ahead, and close enough for 32 bits and a flag to tell. */
  predicate OnTime(ticks: nat, t: Timer) {
    InRange(t) && ticks < Deadline(ticks, t) < ticks + WRAP
  }

  lemma CounterSteps(ticks: nat)
    ensures if (ticks + 1) % WRAP == 0
            then (ticks + 1) / WRAP == ticks / WRAP + 1 && ticks % WRAP == WRAP - 1
            else (ticks + 1) / WRAP == ticks / WRAP && (ticks + 1) % WRAP == ticks % WRAP + 1
  {
  }

  /**
   One tick of the counter: the callback is made exactly when the deadline is reached.  Until then
   the deadline stays what it was; after it, the next one is exactly the interval away.
   */
  lemma TickIsExact(ticks: nat, t: Timer)
    requires OnTime(ticks, t)
    ensures var now := (ticks + 1) % WRAP;
            && (Fires(t, now) <==> Deadline(ticks, t) == ticks + 1)
            && (!Fires(t, now) ==>
                  OnTime(ticks + 1, Cleared(t, now)) && Deadline(ticks + 1, Cleared(t, now)) == Deadline(ticks, t))
  {
    CounterSteps(ticks);
  }

  lemma RearmIsExact(ticks: nat, t: Timer, interval: int)
    requires OnTime(ticks, t) && 0 < interval < WRAP
    requires Fires(t, (ticks + 1) % WRAP)
    ensures var t' := Rearmed(t, (ticks + 1) % WRAP, interval);
            OnTime(ticks + 1, t') && Deadline(ticks + 1, t') == ticks + 1 + interval
  {
    CounterSteps(ticks);
    TickIsExact(ticks, t);
    var low := (ticks + 1) % WRAP;
    assert t.time == low;
    assert (low + interval) % WRAP == if low + interval < WRAP then low + interval else low + interval - WRAP;
  }

  /** A start sets the deadline it was asked for, unless it was asked for 2^32 - 1 ticks. */
  lemma StartIsExact(ticks: nat, n: int)
    requires 0 <= n < WRAP
    ensures var t := StartTimer(ticks % WRAP, n);
            InRange(t) && (OnTime(ticks, t) <==> n <= WRAP - 2)
    ensures n <= WRAP - 2 ==> Deadline(ticks, StartTimer(ticks % WRAP, n)) == ticks + n + 1
  {
    var low := ticks % WRAP;
    var sum := n + low + 1;
    assert sum % WRAP == if sum < WRAP then sum else if sum < 2 * WRAP then sum - WRAP else sum - 2 * WRAP;
    if n == WRAP - 1 {
      assert StartTimer(low, n) == Timer(low, false);
    }
  }

  // ---------------------------------------------------------------- the first callback

  /** The timer after k ticks without a callback. */
  function Waited(ticks: nat, t: Timer, k: nat): Timer {
    if k == 0 then t else Cleared(Waited(ticks, t, k - 1), (ticks + k) % WRAP)
  }

  /** The callback would be made at the k-th tick from now. */
  predicate FiresAt(ticks: nat, t: Timer, k: nat)
    requires 0 < k
  {
    Fires(Waited(ticks, t, k - 1), (ticks + k) % WRAP)
  }

  /** The first callback is made at the k-th tick from now. */
  ghost predicate FirstFires(ticks: nat, t: Timer, k: nat)
    requires 0 < k
  {
    FiresAt(ticks, t, k) && forall m: nat :: 0 < m < k ==> !FiresAt(ticks, t, m)
  }

  lemma {:induction false} WaitingKeepsDeadline(ticks: nat, t: Timer, k: nat)
    requires OnTime(ticks, t) && ticks + k < Deadline(ticks, t)
    ensures OnTime(ticks + k, Waited(ticks, t, k))
    ensures Deadline(ticks + k, Waited(ticks, t, k)) == Deadline(ticks, t)
    ensures forall m: nat :: 0 < m <= k ==> !FiresAt(ticks, t, m)
    decreases k
  {
    if k > 0 {
      WaitingKeepsDeadline(ticks, t, k - 1);
      TickIsExact(ticks + k - 1, Waited(ticks, t, k - 1));
    }
  }

  /** Through any number of wraps, the first callback comes exactly at the deadline. */
  lemma FirstFiresAtDeadline(ticks: nat, t: Timer)
    requires OnTime(ticks, t)
    ensures FirstFires(ticks, t, Deadline(ticks, t) - ticks)
  {
    var k := Deadline(ticks, t) - ticks;
    WaitingKeepsDeadline(ticks, t, k - 1);
    TickIsExact(ticks + k - 1, Waited(ticks, t, k - 1));
  }

  /**
   An alarm started at tick N for n ticks has its first callback at tick N + n + 1 exactly when n
   is less than 2^32 - 1, or the counter is about to wrap.
   */
  lemma StartedAlarmFirstFires(ticks: nat, n: int)
    requires 0 <= n < WRAP
    ensures FirstFires(ticks, StartTimer(ticks % WRAP, n), n + 1)
       <==> n <= WRAP - 2 || ticks % WRAP == WRAP - 1
  {
    var t := StartTimer(ticks % WRAP, n);
    StartIsExact(ticks, n);
    CounterSteps(ticks);
    if n <= WRAP - 2 {
      FirstFiresAtDeadline(ticks, t);
    } else {
      assert Waited(ticks, t, 0) == t == Timer(ticks % WRAP, false);
      if ticks % WRAP != WRAP - 1 {
        assert FiresAt(ticks, t, 1);
      } else {
        MaximalWaitAtWrap(ticks, t);
      }
    }
  }

  /** After a callback that asked for an interval, the next callback comes exactly that much later. */
  lemma RearmedAlarmFirstFires(ticks: nat, t: Timer, interval: int)
    requires OnTime(ticks, t) && 0 < interval < WRAP
    requires Fires(t, (ticks + 1) % WRAP)
    ensures FirstFires(ticks + 1, Rearmed(t, (ticks + 1) % WRAP, interval), interval)
  {
    RearmIsExact(ticks, t, interval);
    FirstFiresAtDeadline(ticks + 1, Rearmed(t, (ticks + 1) % WRAP, interval));
  }

  /** With the counter about to wrap, the longest wait is not cut short. */
  lemma MaximalWaitAtWrap(ticks: nat, t: Timer)
    requires ticks % WRAP == WRAP - 1 && t == Timer(WRAP - 1, false)
    ensures FirstFires(ticks, t, WRAP)
  {
    CounterSteps(ticks);
    assert (ticks + 1) % WRAP == 0;
    assert Waited(ticks, t, 0) == t && Waited(ticks, t, 1) == t;
    assert Cleared(t, 0) == t && !Fires(t, 0);
    assert !FiresAt(ticks, t, 1);
    assert Deadline(ticks + 1, t) == ticks + WRAP;
    FirstFiresAtDeadline(ticks + 1, t);
    forall m: nat | 1 < m <= WRAP
      ensures FiresAt(ticks, t, m) <==> FiresAt(ticks + 1, t, m - 1)
    {
      WaitedLater(ticks, t, m - 2);
    }
  }

  lemma {:induction false} WaitedLater(ticks: nat, t: Timer, k: nat)
    ensures Waited(ticks, t, k + 1) == Waited(ticks + 1, Waited(ticks, t, 1), k)
    decreases k
  {
    if k > 0 {
      WaitedLater(ticks, t, k - 1);
    }
  }

  /** The longest interval, started right after reset, gives a callback at the very next tick. */
  lemma LongestStartFiresEarly()
    ensures var t := StartTimer(0, WRAP - 1); FiresAt(0, t, 1) && !FirstFires(0, t, WRAP)
  {
    StartedAlarmFirstFires(0, WRAP - 1);
    assert Waited(0, StartTimer(0, WRAP - 1), 0) == Timer(0, false);
  }
}
