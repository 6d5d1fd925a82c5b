/**
 The registered alarms: an intrusive circular doubly linked list, walked at every tick.
 */
module Alarms {
  import opened Arithmetic
  import opened Errno
  import opened AlarmCourse
  import opened AlarmPass
  import opened AlarmSchedule
  import opened AlarmTime

  class Alarm {
    var next: Alarm
    var previous: Alarm
    var timer: Timer

    constructor ()
      ensures next == this && previous == this
    {
      next, previous, timer := this, this, Timer(0, false);
    }
  }

  /** The list element and its neighbours, going once round from the head. */
  function Round(head: Alarm, list: seq<Alarm>): seq<Alarm> {
    [head] + list + [head]
  }

  ghost predicate Distinct(head: Alarm, list: seq<Alarm>) {
    && head !in list
    && forall i, j :: 0 <= i < |list| && 0 <= j < |list| && i != j ==> Apart(list, i, j)
  }

  /** Two places of a list hold different alarms. */
  ghost predicate Apart(list: seq<Alarm>, i: int, j: int)
    requires 0 <= i < |list| && 0 <= j < |list|
  {
    list[i] != list[j]
  }

  lemma OthersDiffer(head: Alarm, list: seq<Alarm>, p: nat)
    requires Distinct(head, list) && p < |list|
    ensures forall k :: 0 <= k < |list| && k != p ==> list[k] != list[p]
  {
    forall k | 0 <= k < |list| && k != p
      ensures list[k] != list[p]
    {
      assert Apart(list, k, p);
    }
  }

  lemma DistinctCons(head: Alarm, list: seq<Alarm>, entry: Alarm)
    requires Distinct(head, list) && entry != head && entry !in list
    ensures Distinct(head, [entry] + list)
  {
    var list' := [entry] + list;
    forall i, j | 0 <= i < |list'| && 0 <= j < |list'| && i != j
      ensures Apart(list', i, j)
    {
      if i > 0 && j > 0 {
        assert Apart(list, i - 1, j - 1);
      }
    }
  }

  lemma DistinctWithout(head: Alarm, list: seq<Alarm>, p: nat)
    requires Distinct(head, list)
    ensures Distinct(head, Without(list, p))
  {
    var list' := Without(list, p);
    forall i, j | 0 <= i < |list'| && 0 <= j < |list'| && i != j
      ensures Apart(list', i, j)
    {
      assert Apart(list, if i < p then i else if p < |list| then i + 1 else i,
                         if j < p then j else if p < |list| then j + 1 else j);
    }
  }

  /** The links of the head and of the list are those of one circle, in both directions. */
  ghost predicate Linked(head: Alarm, list: seq<Alarm>)
    reads head, list
  {
    && Distinct(head, list)
    && (forall i {:trigger Round(head, list)[i].next} :: 0 <= i <= |list| ==>
          Round(head, list)[i].next == Round(head, list)[i + 1])
    && (forall i {:trigger Round(head, list)[i].previous} :: 0 < i <= |list| + 1 ==>
          Round(head, list)[i].previous == Round(head, list)[i - 1])
  }

  /** Inserts the entry as the first one of the list. */
  method Insert(head: Alarm, entry: Alarm, ghost list: seq<Alarm>)
    requires Linked(head, list) && entry != head && entry !in list
    modifies head, list, entry
    ensures Linked(head, [entry] + list)
    ensures entry.timer == old(entry.timer) && head.timer == old(head.timer)
    ensures forall a :: a in list ==> a.timer == old(a.timer)
  {
    ghost var round, round' := Round(head, list), Round(head, [entry] + list);
    DistinctCons(head, list, entry);
    if list != [] {
      OthersDiffer(head, list, 0);
    }
    assert round[0] == head && round[|list| + 1] == head;
    assert forall i :: 2 <= i < |round'| ==> round'[i] == round[i - 1];
    Link(head, entry);
  }

  method Link(head: Alarm, entry: Alarm)
    requires entry != head
    modifies head, entry, head.next
    ensures head.next == entry && entry.next == old(head.next) && old(head.next).previous == entry
    ensures old(head.next) != entry ==> entry.previous == head && old(head.next).timer == old(head.next.timer)
    ensures old(head.next) != entry && old(head.next) != head ==>
              head.previous == old(head.previous) && old(head.next).next == old(head.next.next)
    ensures entry.timer == old(entry.timer) && head.timer == old(head.timer)
  {
    entry.previous := head;
    entry.next := head.next;
    head.next.previous := entry;
    head.next := entry;
  }

  /**
   Inserting an entry that is in the list already: the links lead from the head to the entry, on to the
   alarms that were in front of it, and back to the entry, never to the head again.
   */
  method InsertAgain(head: Alarm, entry: Alarm, ghost list: seq<Alarm>, ghost p: nat)
    requires Linked(head, list) && p < |list| && list[p] == entry
    modifies head, list
    ensures head.next == entry && entry.next == (if p == 0 then entry else list[0])
    ensures forall i :: 0 <= i < p ==> list[i].next == list[i + 1]
    ensures forall a :: a in list[..p + 1] ==> a.next in list[..p + 1] && a != head
  {
    ghost var round := Round(head, list);
    OthersDiffer(head, list, p);
    assert round[0] == head && round[p + 1] == entry;
    assert forall i :: 0 <= i < |list| ==> round[i + 1] == list[i];
    Link(head, entry);
    forall i | 0 <= i < p
      ensures list[i].next == list[i + 1]
    {
      assert round[i + 1].next == round[i + 2];
    }
    forall a | a in list[..p + 1]
      ensures a.next in list[..p + 1] && a != head
    {
      ghost var i :| 0 <= i < p + 1 && list[i] == a;
      assert list[..p + 1][if i < p then i + 1 else 0] == a.next;
    }
  }

  /** The list without its element number p, if there is one. */
  function Without(list: seq<Alarm>, p: nat): seq<Alarm> {
    if p < |list| then list[..p] + list[p + 1..] else list
  }

  lemma LeavesList(head: Alarm, list: seq<Alarm>, p: nat)
    requires Distinct(head, list) && p < |list|
    ensures list[p] !in Without(list, p) && list[p] != head
  {
    OthersDiffer(head, list, p);
  }

  /** Element i of the round without element p + 1. */
  lemma RoundWithout(head: Alarm, list: seq<Alarm>, p: nat, i: nat)
    requires p < |list| && i <= |list|
    ensures Round(head, Without(list, p))[i] == Round(head, list)[if i <= p then i else i + 1]
  {
  }

  /** In a round without repetitions, only the neighbours of element p + 1 are the neighbours. */
  lemma NeighboursDiffer(head: Alarm, list: seq<Alarm>, p: nat, i: nat)
    requires Distinct(head, list) && p < |list| && i <= |list|
    ensures i != p && i != p + 1 ==> Round(head, list)[i] != Round(head, list)[p]
    ensures i != p + 1 ==> Round(head, list)[i] != list[p]
    ensures 0 < i && i != p + 1 && i != p + 2 ==> Round(head, list)[i] != Round(head, list)[p + 2]
  {
    if 0 < i {
      if p != i - 1 {
        assert Apart(list, i - 1, p);
      }
      if 0 < p && i - 1 != p - 1 {
        assert Apart(list, i - 1, p - 1);
      }
      if p + 1 < |list| && i - 1 != p + 1 {
        assert Apart(list, i - 1, p + 1);
      }
    }
  }

  /**
   Removes the entry and links it to itself.  It is number p of the list, or an entry that is in no
   list, in which case nothing changes.
   */
  method Remove(entry: Alarm, ghost head: Alarm, ghost list: seq<Alarm>, ghost p: nat)
    requires Linked(head, list) && entry != head
    requires if p < |list| then list[p] == entry
             else entry !in list && entry.next == entry && entry.previous == entry
    modifies head, list, entry
    ensures Linked(head, Without(list, p))
    ensures entry.next == entry && entry.previous == entry
    ensures entry.timer == old(entry.timer) && head.timer == old(head.timer)
    ensures forall a :: a in list ==> a.timer == old(a.timer)
  {
    ghost var round, round' := Round(head, list), Round(head, Without(list, p));
    DistinctWithout(head, list, p);
    if p < |list| {
      NeighboursDiffer(head, list, p, p);
      assert round[p + 1] == entry && round[p + 2] in list + [head] && round[p] in list + [head];
      assert entry.next == round[p + 2] && entry.previous == round[p] && round[p + 2] != entry;
    } else {
      assert forall i :: 0 <= i < |round| ==> round[i] != entry;
    }
    Unlink(entry);
    if p < |list| {
      forall i | 0 <= i < |list|
        ensures round'[i].next == round'[i + 1] && round'[i + 1].previous == round'[i]
      {
        RoundWithout(head, list, p, i);
        RoundWithout(head, list, p, i + 1);
        ghost var n := if i <= p then i else i + 1;
        NeighboursDiffer(head, list, p, n);
        if n < |list| {
          NeighboursDiffer(head, list, p, n + 1);
        }
      }
    }
  }

  method Unlink(entry: Alarm)
    modifies entry, entry.next, entry.previous
    ensures entry.next == entry && entry.previous == entry
    ensures old(entry.next) != entry && old(entry.previous) != entry ==>
              old(entry.next).previous == old(entry.previous) && old(entry.previous).next == old(entry.next)
    ensures old(entry.next) != entry && old(entry.next) != old(entry.previous) ==>
              old(entry.next).next == old(entry.next.next)
    ensures old(entry.previous) != entry && old(entry.next) != old(entry.previous) ==>
              old(entry.previous).previous == old(entry.previous.previous)
    ensures entry.timer == old(entry.timer) && old(entry.next).timer == old(entry.next.timer)
            && old(entry.previous).timer == old(entry.previous.timer)
  {
    entry.next.previous := entry.previous;
    entry.previous.next := entry.next;
    entry.previous := entry;
    entry.next := entry;
  }

  // ---------------------------------------------------------------- lists and what is in them

  /** The alarms of a list with their timers, as they are now. */
  ghost function WaitsIn(list: seq<Alarm>): (e: seq<Wait<Alarm, Timer>>)
    reads list
    ensures |e| == |list| && forall k :: 0 <= k < |list| ==> e[k] == Wait(list[k], list[k].timer)
  {
    seq(|list|, i requires 0 <= i < |list| reads list => Wait(list[i], list[i].timer))
  }

  /** A wait taken out at its place. */
  lemma {:induction false} KeptAt(waits: seq<Wait<Alarm, Timer>>, a: Alarm, p: nat)
    requires forall k :: 0 <= k < |waits| ==> (waits[k].alarm == a <==> k == p)
    ensures Kept(waits, [Stops(a)]) == if p < |waits| then waits[..p] + waits[p + 1..] else waits
  {
    if p < |waits| {
      assert waits == waits[..p] + [waits[p]] + waits[p + 1..];
      KeptBetween(waits[..p], [waits[p]], waits[p + 1..], a);
    } else {
      KeptOthers(waits, a);
    }
  }

  lemma {:induction false} KeptOthers(waits: seq<Wait<Alarm, Timer>>, a: Alarm)
    requires Absent(waits, a)
    ensures Kept(waits, [Stops(a)]) == waits
    decreases |waits|
  {
    if waits != [] {
      assert Absent(waits[1..], a);
      KeptOthers(waits[1..], a);
    }
  }

  class AlarmSystem {
    const head: Alarm
    var tickRate: int
    var nticks: int
    ghost var ticks: nat                       // ticks since reset; the counter shows the low 32 bits
    ghost var list: seq<Alarm>                 // the registered alarms, in list order
    ghost var calls: seq<Alarm>                // the callbacks made so far
    ghost var history: seq<Event<Alarm>>       // all that has happened since reset

    constructor ()
      ensures Valid() && Punctual() && list == [] && calls == [] && tickRate == 0 && ticks == 0 && history == []
      ensures fresh(head)
    {
      var h := new Alarm();
      head, tickRate, nticks := h, 0, 0;
      ticks, list, calls, history := 0, [], [], [];
    }

    ghost function Waits(): (e: seq<Wait<Alarm, Timer>>)
      reads `list, list
      ensures |e| == |list|
    {
      WaitsIn(list)
    }

    ghost function PendingAlarms(): (p: seq<Wait<Alarm, int>>)
      reads `list, `ticks, list
      ensures |p| == |list|
    {
      PendingOf(Waits(), ticks)
    }

    /** Every registered alarm still waits for a tick that lies ahead. */
    ghost predicate Punctual()
      reads `list, `ticks, list
    {
      AllOnTime(ticks, Waits())
    }

    /** All that has happened led to just what the unbounded schedule says. */
    ghost predicate Exact()
      reads this, list
    {
      Punctual() && Now() == Replay(history)
    }

    /** The list is well linked, and the counter and the times are in range. */
    ghost predicate Sound()
      reads this, head, list
    {
      && Linked(head, list)
      && nticks == ticks % WRAP
      && AllInRange(Waits())
      && (list != [] ==> tickRate != 0)
    }

    /** And unless an alarm was started for the longest wait, all is as scheduled. */
    ghost predicate Valid()
      reads this, head, list
    {
      Sound() && (ShortHistory(history) ==> Exact())
    }

    /** What the system has come to, to be compared with the schedule. */
    ghost function Now(): Schedule<Alarm>
      reads this, list
    {
      Schedule(ticks, PendingAlarms(), calls)
    }

    /** One more event goes on record. */
    ghost method Record(e: Event<Alarm>)
      requires Sound() && (ShortHistory(history + [e]) ==> Punctual() && Now() == Replay(history + [e]))
      modifies `history
      ensures Valid() && history == old(history) + [e]
    {
      history := history + [e];
    }

    /** Sets the clock rate, once. */
    method SysclkInit(rate: int) returns (rc: int)
      requires Valid()
      modifies `tickRate
      ensures Valid()
      ensures old(tickRate) == 0 ==> rc == 0 && tickRate == rate
      ensures old(tickRate) != 0 ==> rc == -1 && tickRate == old(tickRate)
    {
      if tickRate == 0 {
        tickRate := rate;
        rc := 0;
      } else {
        rc := -1;
      }
    }

    /** Sets the alarm's time and flag, and puts it in front of the list. */
    method Register(alarm: Alarm, n: u32)
      requires Linked(head, list) && alarm != head && alarm !in list
      modifies `list, head, list, alarm
      ensures Linked(head, list) && list == [alarm] + old(list)
      ensures Waits() == [Wait(alarm, StartTimer(nticks, n))] + old(Waits())
      ensures forall a :: a in old(list) || a == head ==> a.timer == old(a.timer)
    {
      var time := (n + nticks + 1) % WRAP;
      if time < nticks {
        alarm.timer := Timer(time, true);
      } else {
        alarm.timer := Timer(time, false);
      }
      Insert(head, alarm, list);
      list := [alarm] + list;
    }

    /** Takes the alarm, which is at place p or in no list, out of the list. */
    method TakeOut(alarm: Alarm, ghost p: nat)
      requires Linked(head, list) && alarm != head
      requires if p < |list| then list[p] == alarm
               else alarm !in list && alarm.next == alarm && alarm.previous == alarm
      modifies `list, head, list, alarm
      ensures Linked(head, list) && list == Without(old(list), p)
      ensures Waits() == if p < |old(list)| then old(Waits())[..p] + old(Waits())[p + 1..] else old(Waits())
      ensures alarm.next == alarm && alarm.previous == alarm
      ensures head.timer == old(head.timer) && alarm.timer == old(alarm.timer)
      ensures forall a :: a in old(list) ==> a.timer == old(a.timer)
    {
      ghost var waits := Waits();
      Remove(alarm, head, list, p);
      assert Waits() == waits;
      list := Without(list, p);
    }

    /** Takes the alarm out of the list, if it is in it. */
    method Unregister(alarm: Alarm)
      requires Linked(head, list) && alarm != head
      requires alarm in list || (alarm.next == alarm && alarm.previous == alarm)
      modifies `list, head, list, alarm
      ensures Linked(head, list) && alarm.next == alarm && alarm.previous == alarm
      ensures forall a :: a in list <==> a in old(list) && a != alarm
      ensures Waits() == Kept(old(Waits()), [Stops(alarm)])
      ensures head.timer == old(head.timer) && alarm.timer == old(alarm.timer)
      ensures forall a :: a in old(list) ==> a.timer == old(a.timer)
    {
      ghost var p := PlaceOf(list, alarm);
      OnlyPlace(head, list, alarm);
      KeptAt(Waits(), alarm, p);
      TakeOut(alarm, p);
    }

    /** Registers an alarm, and puts that on record. */
    method Enlist(alarm: Alarm, n: u32)
      requires Valid() && tickRate != 0 && alarm != head && alarm !in list
      modifies `list, `history, head, list, alarm
      ensures Valid() && list == [alarm] + old(list)
      ensures Waits() == [Wait(alarm, StartTimer(nticks, n))] + old(Waits())
      ensures PendingAlarms()[1..] == old(PendingAlarms())
      ensures history == old(history) + [Started(Request(alarm, n))]
      ensures n <= WRAP - 2 ==> PendingAlarms()[0] == Wait(alarm, ticks + n + 1)
      ensures Punctual() <==> n <= WRAP - 2 && old(Punctual())
    {
      ghost var waits, e := Waits(), Started(Request(alarm, n));
      RecordNext(history, e);
      Register(alarm, n);
      Registered(waits, alarm, n);
      Record(e);
    }

    /** Registers an alarm, to be called n + 1 ticks after the current one. */
    method Start(alarm: Alarm?, n: u32) returns (rc: int)
      requires Valid() && (alarm != null ==> alarm != head && alarm !in list)
      modifies this, head, list, alarm
      ensures Valid() && ticks == old(ticks) && calls == old(calls) && tickRate == old(tickRate)
      ensures rc == if tickRate == 0 then -ENOTSUP else if alarm == null then -EINVAL else 0
      ensures rc != 0 ==> list == old(list) && PendingAlarms() == old(PendingAlarms()) && history == old(history)
      ensures rc == 0 ==> alarm != null && list == [alarm] + old(list)
                          && Waits() == [Wait(alarm as Alarm, StartTimer(nticks, n))] + old(Waits())
                          && PendingAlarms()[1..] == old(PendingAlarms())
                          && history == old(history) + [Started(Request(alarm, n))]
      // all 2^32 waits but the longest end when they were asked to
      ensures rc == 0 && n <= WRAP - 2 ==> PendingAlarms()[0] == Wait(alarm as Alarm, ticks + n + 1)
      ensures rc == 0 && n <= WRAP - 2 && old(Punctual()) ==> Punctual()
      ensures rc == 0 && n == WRAP - 1 ==> !Punctual()
    {
      if tickRate != 0 {
        if alarm != null {
          Enlist(alarm, n);
          rc := 0;
        } else {
          rc := -EINVAL;
        }
      } else {
        rc := -ENOTSUP;
      }
    }

    /** What a registration has come to, in terms of the schedule. */
    lemma Registered(waits: seq<Wait<Alarm, Timer>>, alarm: Alarm, n: u32)
      requires Waits() == [Wait(alarm, StartTimer(nticks, n))] + waits && nticks == ticks % WRAP
      requires AllInRange(waits)
      ensures AllInRange(Waits()) && PendingAlarms()[1..] == PendingOf(waits, ticks)
      ensures Punctual() <==> n <= WRAP - 2 && AllOnTime(ticks, waits)
      ensures n <= WRAP - 2 ==>
                Now() == Next(Schedule(ticks, PendingOf(waits, ticks), calls), Started(Request(alarm, n)))
                && PendingAlarms()[0] == Wait(alarm, ticks + n + 1)
    {
      StartOutcome(waits, ticks, alarm, n);
    }

    /** Unregisters an alarm; one that is not registered stays as it is. */
    method Stop(alarm: Alarm)
      requires Valid() && alarm != head
      requires alarm in list || (alarm.next == alarm && alarm.previous == alarm)
      modifies this, head, list, alarm
      ensures Valid() && ticks == old(ticks) && nticks == old(nticks) && calls == old(calls)
      ensures Waits() == Kept(old(Waits()), [Stops(alarm)])
      ensures forall a :: a in list <==> a in old(list) && a != alarm
      ensures alarm.next == alarm && alarm.previous == alarm
      ensures history == old(history) + [Stopped(alarm)]
      ensures old(Punctual()) ==> Punctual()
    {
      ghost var waits := Waits();
      RecordNext(history, Stopped(alarm));
      KeptRefines(waits, [Stops(alarm)], ticks);
      KeptInTime(waits, [Stops(alarm)], ticks);
      Unregister(alarm);
      Record(Stopped(alarm));
    }

    // ------------------------------------------------------------ a callback

    /** Those of the alarms that are not in the list are linked to themselves. */
    ghost predicate Idle(alarms: set<Alarm>)
      reads `list, alarms
    {
      forall a :: a in alarms ==> a != head && (a in list || (a.next == a && a.previous == a))
    }

    /** The list is well linked; its alarms, and all that callbacks may start or stop, are among the nodes. */
    ghost predicate Ready(nodes: set<Alarm>, stoppable: set<Alarm>)
      reads `list, head, list, nodes
    {
      && Linked(head, list) && head !in nodes && (forall a :: a in list ==> a in nodes)
      && stoppable <= nodes && Idle(stoppable)
    }

    /** One act of a callback. */
    method Do(act: Act<Alarm>, ghost nodes: set<Alarm>, ghost stoppable: set<Alarm>)
      requires Ready(nodes, stoppable) && AlarmOf(act) in nodes
      requires if act.Starts? then AlarmOf(act) !in list else AlarmOf(act) in stoppable
      modifies `list, head, nodes
      ensures Ready(nodes, stoppable) && Waits() == ActedOnce(TimerClock(nticks), old(Waits()), act)
      ensures forall a :: a in nodes && (act.Starts? ==> a != AlarmOf(act)) ==> a.timer == old(a.timer)
    {
      match act {
        case Starts(r) => Register(r.alarm, r.n);
        case Stops(a) => Unregister(a);
      }
    }

    /** All acts of a callback, in order; "own" are alarms that it does not start. */
    method DoAll(acts: seq<Act<Alarm>>, ghost nodes: set<Alarm>, ghost stoppable: set<Alarm>, ghost own: set<Alarm>)
      requires Ready(nodes, stoppable) && Within(acts, nodes, stoppable)
      requires LegalActs(TimerClock(nticks), Waits(), acts, own)
      modifies `list, head, nodes
      ensures Ready(nodes, stoppable) && Waits() == Acted(TimerClock(nticks), old(Waits()), acts)
      ensures forall a :: a in own && a in nodes ==> a.timer == old(a.timer)
    {
      ghost var clock, waits := TimerClock(nticks), Waits();
      var j := 0;
      while j < |acts|
        invariant 0 <= j <= |acts| && Ready(nodes, stoppable) && Waits() == Acted(clock, waits, acts[..j])
        invariant forall a :: a in own && a in nodes ==> a.timer == old(a.timer)
      {
        LegalNow(clock, waits, acts, own, j);
        assert acts[j] in acts;
        Do(acts[j], nodes, stoppable);
        assert acts[..j + 1][..j] == acts[..j];
        j := j + 1;
      }
      assert acts[..j] == acts;
    }

    /** The alarm that is next to be started is not in the list, and not one of its own. */
    lemma LegalNow(clock: Clock<Timer>, waits: seq<Wait<Alarm, Timer>>, acts: seq<Act<Alarm>>, own: set<Alarm>, j: nat)
      requires LegalActs(clock, waits, acts, own) && j < |acts| && Waits() == Acted(clock, waits, acts[..j])
      ensures acts[j].Starts? ==> AlarmOf(acts[j]) !in list && AlarmOf(acts[j]) !in own
    {
      if acts[j].Starts? {
        LegalUpTo(clock, waits, acts, own, j);
        forall k | 0 <= k < |list|
          ensures list[k] != AlarmOf(acts[j])
        {
          assert Waits()[k].alarm == list[k];
        }
      }
    }

    // ------------------------------------------------------------ a visit

    /** Moves the alarm's time on. */
    method Rearm(alarm: Alarm, interval: u32, ghost p: nat)
      requires Linked(head, list) && alarm != head && if p < |list| then list[p] == alarm else alarm !in list
      modifies alarm`timer
      ensures Linked(head, list)
      ensures !old(alarm.timer.rollover) ==> alarm.timer == Rearmed(old(alarm.timer), nticks, interval)
      ensures Waits() == if p < |list| then old(Waits())[p := Wait(alarm, alarm.timer)] else old(Waits())
    {
      if p < |list| {
        OthersDiffer(head, list, p);
      }
      alarm.timer := alarm.timer.(time := (alarm.timer.time + interval) % WRAP);
      if alarm.timer.time < nticks {
        alarm.timer := alarm.timer.(rollover := true);
      }
    }

    /** The alarm is registered, between these, or linked to itself. */
    ghost predicate Between(alarm: Alarm, front: seq<Wait<Alarm, Timer>>, own: seq<Wait<Alarm, Timer>>,
                            rest: seq<Wait<Alarm, Timer>>)
      reads `list, list, alarm
    {
      && Waits() == front + own + rest && Absent(front, alarm) && Absent(rest, alarm)
      && (own == [Wait(alarm, alarm.timer)] || (own == [] && alarm.next == alarm && alarm.previous == alarm))
    }

    /** Where in the list it is. */
    lemma BetweenPlace(alarm: Alarm, front: seq<Wait<Alarm, Timer>>, own: seq<Wait<Alarm, Timer>>,
                       rest: seq<Wait<Alarm, Timer>>)
      requires Between(alarm, front, own, rest)
      ensures own == [] ==> alarm !in list
      ensures own != [] ==> |front| < |list| && list[|front|] == alarm
    {
      if own == [] {
        forall k | 0 <= k < |list|
          ensures list[k] != alarm
        {
          assert Waits()[k].alarm == list[k];
        }
      } else {
        assert Waits()[|front|] == own[0];
      }
    }

    /** Clears the flag on a wrap. */
    method ClearFlag(alarm: Alarm, ghost front: seq<Wait<Alarm, Timer>>, ghost own: seq<Wait<Alarm, Timer>>,
                     ghost rest: seq<Wait<Alarm, Timer>>)
      requires Linked(head, list) && alarm != head && Between(alarm, front, own, rest)
      modifies alarm`timer
      ensures Linked(head, list) && alarm.timer == Cleared(old(alarm.timer), nticks)
      ensures Between(alarm, front, if own == [] then [] else [Wait(alarm, alarm.timer)], rest)
    {
      BetweenPlace(alarm, front, own, rest);
      Replaced(front, own, rest, alarm);
      if own != [] {
        OthersDiffer(head, list, |front|);
      }
      if alarm.timer.rollover && nticks == 0 {
        alarm.timer := alarm.timer.(rollover := false);
      }
    }

    /** The answer of a callback is followed: 0 takes the alarm out, anything else moves its time on. */
    method Follow(alarm: Alarm, interval: u32, ghost front: seq<Wait<Alarm, Timer>>,
                  ghost own: seq<Wait<Alarm, Timer>>, ghost rest: seq<Wait<Alarm, Timer>>,
                  ghost nodes: set<Alarm>, ghost stoppable: set<Alarm>)
      requires Ready(nodes, stoppable) && alarm in nodes && Between(alarm, front, own, rest) && !alarm.timer.rollover
      modifies `list, head, nodes
      ensures Ready(nodes, stoppable)
      ensures alarm.timer == if interval == 0 then old(alarm.timer) else Rearmed(old(alarm.timer), nticks, interval)
      ensures Between(alarm, front, if interval == 0 || own == [] then [] else [Wait(alarm, alarm.timer)], rest)
      ensures forall a :: a in nodes && a != alarm ==> a.timer == old(a.timer)
    {
      BetweenPlace(alarm, front, own, rest);
      if interval == 0 {
        KeptBetween(front, own, rest, alarm);
        assert Idle(stoppable + {alarm});
        Do(Stops(alarm), nodes, stoppable + {alarm});
        assert alarm in stoppable + {alarm};
      } else {
        ghost var p := if own == [] then |list| else |front|;
        Replaced(front, own, rest, alarm);
        if own != [] {
          OthersDiffer(head, list, p);
        }
        Rearm(alarm, interval, p);
      }
    }

    /** The callback is made, with all that it starts and stops, and its answer followed. */
    method Callback(alarm: Alarm, answer: Answer<Alarm>, ghost front: seq<Wait<Alarm, Timer>>,
                    ghost own: seq<Wait<Alarm, Timer>>, ghost rest: seq<Wait<Alarm, Timer>>,
                    ghost nodes: set<Alarm>, ghost stoppable: set<Alarm>, ghost barred: set<Alarm>)
      requires Ready(nodes, stoppable) && Between(alarm, front, own, rest) && !alarm.timer.rollover
      requires alarm in nodes && alarm in barred && (own == [] ==> alarm in stoppable)
      requires Within(answer.acts, nodes, stoppable)
      requires LegalActs(TimerClock(nticks), front + own + rest, answer.acts, barred)
      modifies `list, head, nodes
      ensures Ready(nodes, stoppable)
      ensures var own' := if own == [] || Stops(alarm) in answer.acts || answer.interval == 0 then []
                          else [Wait(alarm, alarm.timer)];
              Between(alarm, Acted(TimerClock(nticks), front, answer.acts), own', Kept(rest, answer.acts))
      ensures alarm.timer == if answer.interval == 0 then old(alarm.timer)
                             else Rearmed(old(alarm.timer), nticks, answer.interval)
      ensures forall a :: a in barred && a in nodes && a != alarm ==> a.timer == old(a.timer)
    {
      ActedParts(TimerClock(nticks), front, own, rest, answer.acts, barred, alarm);
      DoAll(answer.acts, nodes, stoppable, barred);
      ghost var own' := if own == [] || Stops(alarm) in answer.acts then [] else own;
      StillBetween(alarm, answer.acts, Acted(TimerClock(nticks), front, answer.acts), own',
                   Kept(rest, answer.acts), nodes, stoppable);
      Follow(alarm, answer.interval, Acted(TimerClock(nticks), front, answer.acts), own', Kept(rest, answer.acts),
             nodes, stoppable);
    }

    /** The callback has stopped its own alarm, or it has not. */
    lemma StillBetween(alarm: Alarm, acts: seq<Act<Alarm>>, front: seq<Wait<Alarm, Timer>>,
                       own: seq<Wait<Alarm, Timer>>, rest: seq<Wait<Alarm, Timer>>, nodes: set<Alarm>,
                       stoppable: set<Alarm>)
      requires Ready(nodes, stoppable) && Within(acts, nodes, stoppable)
      requires Waits() == front + own + rest && Absent(front, alarm) && Absent(rest, alarm)
      requires own == [Wait(alarm, alarm.timer)] || (own == [] && alarm in stoppable)
      ensures Between(alarm, front, own, rest)
    {
      if own == [] {
        forall k | 0 <= k < |list|
          ensures list[k] != alarm
        {
          assert Waits()[k].alarm == list[k];
        }
      }
    }

    /**
     Visits the alarm: clears its flag on a wrap and, if its time has come, makes the callback and follows
     its answer.  The alarm may be one that is no longer registered.
     */
    method Visit(alarm: Alarm, answer: Answer<Alarm>, ghost front: seq<Wait<Alarm, Timer>>,
                 ghost own: seq<Wait<Alarm, Timer>>, ghost rest: seq<Wait<Alarm, Timer>>,
                 ghost nodes: set<Alarm>, ghost stoppable: set<Alarm>, ghost barred: set<Alarm>)
      returns (made: bool)
      requires Ready(nodes, stoppable) && Between(alarm, front, own, rest)
      requires alarm in nodes && alarm in barred && (own == [] ==> alarm in stoppable)
      requires MayAct(TimerClock(nticks), Wait(alarm, alarm.timer), answer, front, own, rest, nodes, stoppable, barred)
      modifies `list, `calls, head, nodes
      ensures Ready(nodes, stoppable)
      ensures var clock, w := TimerClock(nticks), Wait(alarm, old(alarm.timer));
              && made == clock.due(w.time) && calls == old(calls) + CallOf(clock, w)
              && Between(alarm, Acted(clock, front, Made(clock, w, answer)),
                         if own == [] then [] else OwnAfter(clock, w, answer), Kept(rest, Made(clock, w, answer)))
              && alarm.timer == StrayAfter(clock, w, answer).time
      ensures forall a :: a in barred && a in nodes && a != alarm ==> a.timer == old(a.timer)
    {
      ClearFlag(alarm, front, own, rest);
      made := alarm.timer.time <= nticks && !alarm.timer.rollover;
      if made {
        calls := calls + [alarm];
        ghost var own' := if own == [] then [] else [Wait(alarm, alarm.timer)];
        Callback(alarm, answer, front, own', rest, nodes, stoppable, barred);
      } else {
        KeptNone(rest);
      }
    }

    // ------------------------------------------------------------ the walk

    /** Element p of a list, or the head beyond its ends. */
    ghost function At(l: seq<Alarm>, p: int): Alarm {
      if 0 <= p < |l| then l[p] else head
    }

    method NextOf(alarm: Alarm, ghost p: int) returns (next: Alarm)
      requires Linked(head, list) && -1 <= p < |list| && alarm == At(list, p)
      ensures next == At(list, p + 1)
    {
      assert Round(head, list)[p + 1] == alarm;
      next := alarm.next;
    }

    /** The first of these alarms, or the head. */
    ghost function FirstOf(behind: seq<Wait<Alarm, Timer>>): Alarm {
      if behind == [] then head else behind[0].alarm
    }

    /** The alarm visited and the next one, as the waits have them. */
    lemma AboutTwo(front: seq<Wait<Alarm, Timer>>, behind: seq<Wait<Alarm, Timer>>)
      requires Linked(head, list) && Waits() == front + behind && behind != []
      ensures |front| < |list| && list[|front|] == behind[0].alarm
      ensures At(list, |front| + 1) == FirstOf(behind[1..])
      ensures Between(behind[0].alarm, front, [behind[0]], behind[1..])
      ensures |behind| > 1 ==> behind[1].time == behind[1].alarm.timer && Absent(front, behind[1].alarm)
                               && behind[1].alarm != behind[0].alarm
    {
      assert Waits()[|front|] == behind[0];
      assert front + behind == front + [behind[0]] + behind[1..];
      NowhereElse(head, list, front, behind, 0);
      if |behind| > 1 {
        assert Waits()[|front| + 1] == behind[1];
        NowhereElse(head, list, front, behind, 1);
      }
    }

    /** The alarm is in no list, and can be stopped again. */
    ghost predicate Stray(alarm: Alarm, stoppable: set<Alarm>)
      reads `list
    {
      alarm in stoppable && alarm !in list
    }

    /** What has become of the alarm that the link leads to. */
    lemma NextAfter(clock: Clock<Timer>, answers: map<Alarm, Answer<Alarm>>, front: seq<Wait<Alarm, Timer>>,
                    behind: seq<Wait<Alarm, Timer>>, nodes: set<Alarm>, stoppable: set<Alarm>, next: Alarm)
      requires Ready(nodes, stoppable) && behind != [] && next == FirstOf(behind[1..])
      requires Within(ActsOf(clock, answers, behind[0]), nodes, stoppable)
      requires Waits() == FrontAfter(clock, answers, front, behind[0]) + BehindAfter(clock, answers, behind)
      requires |behind| > 1 ==> Absent(front, next) && next != behind[0].alarm
      requires LegalActs(clock, front + [Seen(clock, behind[0])] + behind[1..], ActsOf(clock, answers, behind[0]),
                         {head} + Close(behind))
      ensures StopsNextNow(clock, answers, behind) <==> Stops(next) in ActsOf(clock, answers, behind[0])
      ensures if StopsNextNow(clock, answers, behind) then Stray(next, stoppable)
              else next == FirstOf(BehindAfter(clock, answers, behind))
    {
      if |behind| > 1 && StopsNextNow(clock, answers, behind) {
        StoppedIsGone(clock, answers, front, behind, {head} + Close(behind));
        forall k | 0 <= k < |list|
          ensures list[k] != next
        {
          assert Waits()[k].alarm == list[k];
        }
      } else if |behind| > 1 {
        KeptFirst(behind[1..], ActsOf(clock, answers, behind[0]));
      }
    }

    /** One turn of the walk; the next link is taken before the callback may change the list. */
    method WalkOne(alarm: Alarm, answers: map<Alarm, Answer<Alarm>>, ghost front: seq<Wait<Alarm, Timer>>,
                   ghost behind: seq<Wait<Alarm, Timer>>, ghost nodes: set<Alarm>, ghost stoppable: set<Alarm>)
      returns (next: Alarm, stuck: bool)
      requires Ready(nodes, stoppable) && Waits() == front + behind && behind != [] && alarm == behind[0].alarm
      requires AllWithin(answers, nodes, stoppable) && Legal(TimerClock(nticks), answers, front, behind, {head})
      modifies `list, `calls, head, nodes
      ensures Ready(nodes, stoppable)
      ensures var clock := TimerClock(nticks);
              && stuck == StopsNextNow(clock, answers, behind)
              && calls == old(calls) + CallOf(clock, behind[0])
              && Waits() == FrontAfter(clock, answers, front, behind[0]) + BehindAfter(clock, answers, behind)
              && (!stuck ==> next == FirstOf(BehindAfter(clock, answers, behind)))
              && (stuck ==> Stray(next, stoppable) && Wait(next, next.timer) == behind[1])
    {
      ghost var clock, w := TimerClock(nticks), behind[0];
      AboutTwo(front, behind);
      next := NextOf(alarm, |front|);
      var answer := AnswerOf(answers, alarm);
      WithinAnswer(answers, nodes, stoppable, alarm);
      var made := Visit(alarm, answer, front, [w], behind[1..], nodes, stoppable, {head} + Close(behind));
      stuck := made && Stops(next) in answer.acts;
      NextAfter(clock, answers, front, behind, nodes, stoppable, next);
    }

    /** The walk has come to the alarm; what is still to come completes the plan. */
    ghost predicate Walking(alarm: Alarm, answers: map<Alarm, Answer<Alarm>>, before: seq<Alarm>,
                            done: Course<Alarm, Timer>, front: seq<Wait<Alarm, Timer>>,
                            behind: seq<Wait<Alarm, Timer>>, plan: Plan, nodes: set<Alarm>, stoppable: set<Alarm>)
      reads `nticks, `calls, `list, head, list, nodes
    {
      && Ready(nodes, stoppable) && Waits() == front + behind && alarm == FirstOf(behind)
      && calls == before + done.calls
      && OnCourse(TimerClock(nticks), answers, head, done, front, behind, plan)
    }

    /** The last callback has stopped the alarm that the walk has the link to. */
    ghost predicate Stuck(alarm: Alarm, before: seq<Alarm>, plan: Plan, nodes: set<Alarm>, stoppable: set<Alarm>)
      reads `calls, `list, head, list, nodes, alarm
    {
      && Ready(nodes, stoppable) && Waits() == plan.course.list && Stray(alarm, stoppable)
      && calls == before + plan.course.calls && plan.stuck == [Wait(alarm, alarm.timer)]
    }

    /** One turn, in terms of the plan. */
    method Turn(alarm: Alarm, answers: map<Alarm, Answer<Alarm>>, ghost before: seq<Alarm>,
                ghost done: Course<Alarm, Timer>, ghost front: seq<Wait<Alarm, Timer>>,
                ghost behind: seq<Wait<Alarm, Timer>>, ghost plan: Plan, ghost nodes: set<Alarm>,
                ghost stoppable: set<Alarm>)
      returns (next: Alarm, stuck: bool, ghost done': Course<Alarm, Timer>, ghost front': seq<Wait<Alarm, Timer>>,
               ghost behind': seq<Wait<Alarm, Timer>>)
      requires Walking(alarm, answers, before, done, front, behind, plan, nodes, stoppable) && alarm != head
      requires AllWithin(answers, nodes, stoppable)
      modifies `list, `calls, head, nodes
      ensures |behind'| < |behind| && done'.visits == done.visits + [alarm]
      ensures if stuck then Stuck(next, before, plan, nodes, stoppable) && done' == plan.course
              else Walking(next, answers, before, done', front', behind', plan, nodes, stoppable)
    {
      ghost var clock := TimerClock(nticks);
      CourseNext(clock, answers, head, before, done, front, behind, plan);
      next, stuck := WalkOne(alarm, answers, front, behind, nodes, stoppable);
      front', behind' := FrontAfter(clock, answers, front, behind[0]), BehindAfter(clock, answers, behind);
      done' := Joined(done, VisitOf(clock, answers, front, behind));
    }

    /** The head of the list comes after the last alarm only. */
    lemma WalkEnds(alarm: Alarm, answers: map<Alarm, Answer<Alarm>>, before: seq<Alarm>,
                   done: Course<Alarm, Timer>, front: seq<Wait<Alarm, Timer>>, behind: seq<Wait<Alarm, Timer>>,
                   plan: Plan, nodes: set<Alarm>, stoppable: set<Alarm>)
      requires Walking(alarm, answers, before, done, front, behind, plan, nodes, stoppable) && alarm == head
      ensures Ready(nodes, stoppable) && Waits() == plan.course.list && calls == before + plan.course.calls
      ensures done.visits == plan.course.visits && plan.stuck == []
    {
      if behind != [] {
        AboutTwo(front, behind);
        assert false;
      }
    }

    /**
     Walks the list and makes the callbacks.  "answers" is what each alarm's callback does, if made; "later"
     is what further callbacks of one alarm do, turn by turn, if the walk does not get away from it.  The
     walk is followed until these are used up.
     */
    method Walk(answers: map<Alarm, Answer<Alarm>>, later: seq<Answer<Alarm>>, ghost plan: Plan,
                ghost nodes: set<Alarm>, ghost stoppable: set<Alarm>)
      returns (at: Alarm, ghost visits: seq<Alarm>)
      requires Ready(nodes, stoppable) && AllWithin(answers, nodes, stoppable)
      requires OnCourse(TimerClock(nticks), answers, head, Course([], [], [], []), [], Waits(), plan)
      requires LaterAllowed(TimerClock(nticks), plan, later, head, nodes, stoppable)
      modifies `list, `calls, head, nodes
      ensures Ready(nodes, stoppable) && visits == plan.course.visits
      ensures at == head <==> plan.stuck == []
      ensures at == head ==> Waits() == plan.course.list && calls == old(calls) + plan.course.calls
      ensures at != head ==> at == plan.stuck[0].alarm && at !in list && at.next == at
    {
      ghost var before, done: Course<Alarm, Timer>, front: seq<Wait<Alarm, Timer>>, behind :=
        calls, Course([], [], [], []), [], Waits();
      var stuck := false;
      at := FirstInWalk(behind);
      visits := [];
      assert calls == before + [];
      while at != head && !stuck
        invariant visits == done.visits
        invariant if stuck then Stuck(at, before, plan, nodes, stoppable) && done == plan.course
                  else Walking(at, answers, before, done, front, behind, plan, nodes, stoppable)
        decreases |behind|
      {
        visits := visits + [at];
        at, stuck, done, front, behind := Turn(at, answers, before, done, front, behind, plan, nodes, stoppable);
      }
      if stuck {
        WalkStray(at, later, nodes, stoppable);
      } else {
        WalkEnds(at, answers, before, done, front, behind, plan, nodes, stoppable);
      }
    }

    method FirstInWalk(ghost waits: seq<Wait<Alarm, Timer>>) returns (first: Alarm)
      requires Linked(head, list) && waits == Waits()
      ensures first == FirstOf(waits)
    {
      first := NextOf(head, -1);
    }

    /** The walk from an alarm that is linked to itself stays there, whatever the callbacks do. */
    method WalkStray(alarm: Alarm, later: seq<Answer<Alarm>>, ghost nodes: set<Alarm>, ghost stoppable: set<Alarm>)
      requires Ready(nodes, stoppable) && Stray(alarm, stoppable)
      requires forall i :: 0 <= i < |later| ==> Within(later[i].acts, nodes, stoppable)
      requires LegalLater(TimerClock(nticks), Waits(), Wait(alarm, alarm.timer), later, {head})
      modifies `list, `calls, head, nodes
      ensures Ready(nodes, stoppable) && Stray(alarm, stoppable) && alarm != head && alarm.next == alarm
    {
      var at, i := alarm, 0;
      while at != head && i < |later|
        invariant 0 <= i <= |later| && at == alarm && Ready(nodes, stoppable) && Stray(alarm, stoppable)
        invariant LegalLater(TimerClock(nticks), Waits(), Wait(alarm, alarm.timer), later[i..], {head})
      {
        at := StrayTurn(at, later[i], later[i..], nodes, stoppable);
        i := i + 1;
      }
    }

    lemma StrayBetween(alarm: Alarm, stoppable: set<Alarm>)
      requires Stray(alarm, stoppable) && Idle(stoppable)
      ensures Between(alarm, Waits(), [], [])
    {
      assert forall k :: 0 <= k < |list| ==> Waits()[k].alarm == list[k];
    }

    /** One turn of it. */
    method StrayTurn(alarm: Alarm, answer: Answer<Alarm>, ghost later: seq<Answer<Alarm>>, ghost nodes: set<Alarm>,
                     ghost stoppable: set<Alarm>) returns (next: Alarm)
      requires Ready(nodes, stoppable) && Stray(alarm, stoppable)
      requires later != [] && later[0] == answer && Within(answer.acts, nodes, stoppable)
      requires LegalLater(TimerClock(nticks), Waits(), Wait(alarm, alarm.timer), later, {head})
      modifies `list, `calls, head, nodes
      ensures Ready(nodes, stoppable) && Stray(alarm, stoppable) && next == alarm
      ensures LegalLater(TimerClock(nticks), Waits(), Wait(alarm, alarm.timer), later[1..], {head})
    {
      ghost var clock, waits, w := TimerClock(nticks), Waits(), Wait(alarm, alarm.timer);
      LaterNext(clock, waits, w, later, {head});
      StrayBetween(alarm, stoppable);
      next := alarm.next;
      var made := Visit(alarm, answer, waits, [], [], nodes, stoppable, {head} + {alarm});
      BetweenPlace(alarm, Acted(clock, waits, Made(clock, w, answer)), [], Kept([], Made(clock, w, answer)));
    }

    // ------------------------------------------------------------ a tick

    /**
     What callbacks may do at a tick with the counter at "now": they start no alarm that is registered then,
     nor their own alarm or the one right behind it, and stop no alarm that was never set up.
     */
    ghost predicate Allowed(now: int, answers: map<Alarm, Answer<Alarm>>, later: seq<Answer<Alarm>>)
      reads `list, list, Stoppable(answers, later)
    {
      && head !in Mentioned(answers, later) && Idle(Stoppable(answers, later))
      && Legal(TimerClock(now), answers, [], Waits(), {head})
      && (StopsNext(TimerClock(now), answers, Waits()) ==>
            LegalLater(TimerClock(now), CourseOf(TimerClock(now), answers, [], Waits()).list,
                       StuckAt(TimerClock(now), answers, Waits()), later, {head}))
    }

    /** The alarms that a tick may change. */
    ghost function Touched(answers: map<Alarm, Answer<Alarm>>, later: seq<Answer<Alarm>>): set<Alarm>
      reads `list
    {
      (set a | a in list) + Mentioned(answers, later)
    }

    /** The counter moves on. */
    method Advance()
      requires nticks == ticks % WRAP
      modifies `nticks, `ticks
      ensures nticks == (old(nticks) + 1) % WRAP && ticks == old(ticks) + 1 && nticks == ticks % WRAP
    {
      nticks := (nticks + 1) % WRAP;
      ticks := ticks + 1;
    }

    lemma ListedOnce()
      requires Linked(head, list)
      ensures NoRepeat(Waits())
    {
      forall i, j | 0 <= i < j < |list|
        ensures Waits()[i].alarm != Waits()[j].alarm
      {
        assert Apart(list, i, j);
      }
    }

    /** The walk at a tick, over all that is registered. */
    method WalkAll(answers: map<Alarm, Answer<Alarm>>, later: seq<Answer<Alarm>>)
      returns (ended: bool, ghost visits: seq<Alarm>)
      requires Linked(head, list) && Allowed(nticks, answers, later)
      modifies `list, `calls, head, Touched(answers, later)
      ensures Linked(head, list)
      ensures ended <==> !StopsNext(TimerClock(nticks), answers, old(Waits()))
      ensures var c := CourseOf(TimerClock(nticks), answers, [], old(Waits()));
              ended ==> Waits() == c.list && calls == old(calls) + c.calls
      ensures ended ==> visits == InTurn(TimerClock(nticks), answers, old(Waits()), old(Waits()), false)
    {
      ghost var clock, waits := TimerClock(nticks), Waits();
      ghost var plan, stoppable := PlanOf(clock, answers, [], waits), Stoppable(answers, later);
      MentionedWithin(answers, later, Touched(answers, later));
      PlanBegins(clock, answers, head, waits);
      ListedOnce();
      var at;
      at, visits := Walk(answers, later, plan, Touched(answers, later), stoppable);
      ended := at == head;
      if ended {
        EachHasItsTurn(clock, answers, [], waits);
      }
    }

    /** The counter moves on, and the list is walked. */
    method Pass(answers: map<Alarm, Answer<Alarm>>, later: seq<Answer<Alarm>>)
      returns (ended: bool, ghost visits: seq<Alarm>)
      requires Linked(head, list) && nticks == ticks % WRAP && Allowed((nticks + 1) % WRAP, answers, later)
      modifies `nticks, `ticks, `list, `calls, head, Touched(answers, later)
      ensures Linked(head, list)
      ensures nticks == (old(nticks) + 1) % WRAP && ticks == old(ticks) + 1 && nticks == ticks % WRAP
      ensures ended <==> !StopsNext(TimerClock(nticks), answers, old(Waits()))
      ensures var c := CourseOf(TimerClock(nticks), answers, [], old(Waits()));
              ended ==> Waits() == c.list && calls == old(calls) + c.calls
      ensures ended ==> visits == InTurn(TimerClock(nticks), answers, old(Waits()), old(Waits()), false)
    {
      Advance();
      ended, visits := WalkAll(answers, later);
    }

    /** What the walk at a tick has come to, in terms of the schedule. */
    lemma Advanced(waits: seq<Wait<Alarm, Timer>>, was: Schedule<Alarm>, answers: map<Alarm, Answer<Alarm>>)
      requires AllInRange(waits) && ticks == was.ticks + 1 && nticks == ticks % WRAP
      requires was.pending == PendingOf(waits, was.ticks) && !StopsNext(TimerClock(nticks), answers, waits)
      requires Waits() == CourseOf(TimerClock(nticks), answers, [], waits).list
      requires calls == was.calls + CourseOf(TimerClock(nticks), answers, [], waits).calls
      ensures AllInRange(Waits()) && (waits == [] ==> list == [])
      ensures AllOnTime(was.ticks, waits) ==>
                && calls == was.calls + TickOf(was, answers).calls
                && (ShortAnswers(answers) ==> Punctual() && Now() == Next(was, Ticked(answers)))
    {
      CourseInRange(answers, [], waits, ticks);
      if AllOnTime(was.ticks, waits) {
        TickOutcome(waits, was, answers);
      }
    }

    /** All of a tick but its record. */
    method TickUnrecorded(answers: map<Alarm, Answer<Alarm>>, later: seq<Answer<Alarm>>)
      returns (ended: bool, ghost visits: seq<Alarm>)
      requires Sound() && Allowed((nticks + 1) % WRAP, answers, later)
      modifies `nticks, `ticks, `list, `calls, head, Touched(answers, later)
      ensures ended <==> !StopsNext(TimerClock(nticks), answers, old(Waits()))
      ensures ticks == old(ticks) + 1 && nticks == (old(nticks) + 1) % WRAP
      ensures ended ==> visits == InTurn(TimerClock(nticks), answers, old(Waits()), old(Waits()), false)
      ensures ended ==> Sound() && Waits() == CourseOf(TimerClock(nticks), answers, [], old(Waits())).list
      ensures ended ==> calls == old(calls) + CourseOf(TimerClock(nticks), answers, [], old(Waits())).calls
      ensures old(Punctual()) && ended ==> calls == old(calls) + TickOf(old(Now()), answers).calls
      ensures old(Punctual()) && ended && ShortAnswers(answers) ==>
                Punctual() && Now() == Next(old(Now()), Ticked(answers))
    {
      ghost var was, waits := Now(), Waits();
      ended, visits := Pass(answers, later);
      if ended {
        Advanced(waits, was, answers);
      }
    }

    /**
     One tick of the system clock.  "answers" is what each alarm's callback does, if made.  The tick comes to
     an end exactly if no callback that is made stops the alarm right behind its own; else it is followed as
     long as "later" has something for the callback of the alarm that the walk does not get away from.
     */
    method Tick(answers: map<Alarm, Answer<Alarm>>, later: seq<Answer<Alarm>>)
      returns (ended: bool, ghost visits: seq<Alarm>)
      requires Valid() && Allowed((nticks + 1) % WRAP, answers, later)
      modifies this, head, Touched(answers, later)
      ensures ended <==> !StopsNext(TimerClock(nticks), answers, old(Waits()))
      ensures ticks == old(ticks) + 1 && nticks == (old(nticks) + 1) % WRAP && tickRate == old(tickRate)
      ensures ended ==> visits == InTurn(TimerClock(nticks), answers, old(Waits()), old(Waits()), false)
      ensures ended ==> Valid() && Waits() == CourseOf(TimerClock(nticks), answers, [], old(Waits())).list
      ensures ended ==> calls == old(calls) + CourseOf(TimerClock(nticks), answers, [], old(Waits())).calls
      ensures history == if ended then old(history) + [Ticked(answers)] else old(history)
      // with all deadlines ahead, this is what the unbounded schedule says
      ensures old(Punctual()) && ended ==> calls == old(calls) + TickOf(old(Now()), answers).calls
      ensures old(Punctual()) && ended && ShortAnswers(answers) ==>
                Punctual() && Now() == Next(old(Now()), Ticked(answers))
    {
      ended, visits := TickUnrecorded(answers, later);
      if ended {
        RecordNext(history, Ticked(answers));
        Record(Ticked(answers));
      }
    }

    /** Stops a registered alarm and starts it again. */
    method Restart(alarm: Alarm, n: u32, ghost p: nat)
      requires Linked(head, list) && p < |list| && list[p] == alarm
      modifies `list, head, list
      ensures Linked(head, list) && list == [alarm] + Without(old(list), p)
    {
      LeavesList(head, list, p);
      TakeOut(alarm, p);
      Register(alarm, n);
    }

    /**
     A callback that stops the alarm right behind its own and starts it again: the link that the walk has
     leads to the front of the list, and from there to the alarm that was the first.
     */
    method RestartNextInWalk(alarm: Alarm, n: u32, ghost p: nat) returns (next: Alarm, beyond: Alarm)
      requires Linked(head, list) && p + 1 < |list| && list[p] == alarm
      modifies `list, head, list
      ensures next == old(list[p + 1]) && list != [] && list[0] == next && beyond == old(list[0])
    {
      next := NextOf(alarm, p);
      Restart(next, n, p + 1);
      beyond := NextOf(next, 0);
    }

    // ------------------------------------------------------------ over the whole life of the system

    /** Without a longest wait on record, the state is the replay of the record. */
    lemma AsReplayed()
      requires Valid() && ShortHistory(history)
      ensures Now() == Replay(history)
    {
    }

    /**
     An alarm that was started for n ticks, and since then neither started again nor stopped, has not been
     called before n + 1 ticks were over, and has been called once they are.
     */
    lemma StartedIsCalledOnTime(i: nat, past: Schedule<Alarm>, r: Request<Alarm>)
      requires Now() == Replay(history) && i < |history| && past == Replay(history[..i])
      requires history[i] == Started(r) && Absent(past.pending, r.alarm)
      requires LeftAlone(Next(past, history[i]), history[i + 1..], r.alarm)
      ensures OnlyThen(past, Now(), Wait(r.alarm, past.ticks + r.n + 1), 0)
    {
      StartReplayed(history, i, past, r, Now());
    }

    /**
     An alarm that was called and answered an interval is called once then, not again before the interval is
     over, and again once it is, unless it is started or stopped.
     */
    lemma AnswerIsFollowed(i: nat, past: Schedule<Alarm>, a: Alarm, interval: int)
      requires Now() == Replay(history) && i < |history| && past == Replay(history[..i])
      requires CallsNow(past, history[i], a, interval)
      requires LeftAlone(Next(past, history[i]), history[i + 1..], a)
      ensures OnlyThen(past, Now(), Wait(a, past.ticks + 1 + interval), 1)
    {
      AnswerReplayed(history, i, past, a, interval, Now());
    }
  }

  /** Where the alarm is in the list, or beyond its end. */
  ghost function PlaceOf(list: seq<Alarm>, alarm: Alarm): (p: nat)
    ensures p <= |list| && (p < |list| ==> list[p] == alarm) && (p == |list| ==> alarm !in list)
  {
    if list == [] then 0 else if list[0] == alarm then 0 else 1 + PlaceOf(list[1..], alarm)
  }

  /** A distinct list has the alarm at this place only, and without it not at all. */
  lemma OnlyPlace(head: Alarm, list: seq<Alarm>, alarm: Alarm)
    requires Distinct(head, list)
    ensures var p := PlaceOf(list, alarm);
            && (forall k :: 0 <= k < |list| ==> (list[k] == alarm <==> k == p))
            && (forall a :: a in Without(list, p) <==> a in list && a != alarm)
  {
    var p := PlaceOf(list, alarm);
    if p < |list| {
      OthersDiffer(head, list, p);
      assert list == list[..p] + [alarm] + list[p + 1..];
    }
  }

  /** The acts are about alarms among the nodes, and stop only those that may be stopped. */
  ghost predicate Within(acts: seq<Act<Alarm>>, nodes: set<Alarm>, stoppable: set<Alarm>) {
    forall act :: act in acts ==> AlarmOf(act) in nodes && (act.Stops? ==> AlarmOf(act) in stoppable)
  }

  /** What a start does to the waits. */
  lemma StartOutcome(waits: seq<Wait<Alarm, Timer>>, ticks: nat, alarm: Alarm, n: u32)
    ensures var first := Wait(alarm, StartTimer(ticks % WRAP, n));
            && InRange(first.time)
            && (AllInRange(waits) ==> AllInRange([first] + waits))
            && PendingOf([first] + waits, ticks)[1..] == PendingOf(waits, ticks)
            && (n <= WRAP - 2 ==> PendingOf([first] + waits, ticks)
                                  == [Wait(alarm, ticks + n + 1)] + PendingOf(waits, ticks))
            && (AllOnTime(ticks, [first] + waits) <==> n <= WRAP - 2 && AllOnTime(ticks, waits))
  {
    var first := Wait(alarm, StartTimer(ticks % WRAP, n));
    StartIsExact(ticks, n);
    PendingSplit([first], waits, ticks);
    var all := [first] + waits;
    assert all[0] == first && all[1..] == waits;
    if AllOnTime(ticks, all) {
      assert OnTime(ticks, all[0].time);
      forall k | 0 <= k < |waits|
        ensures OnTime(ticks, waits[k].time)
      {
        assert OnTime(ticks, all[k + 1].time);
      }
    }
  }

  /** What goes on record with one more event. */
  lemma RecordNext(history: seq<Event<Alarm>>, e: Event<Alarm>)
    ensures ShortHistory(history + [e]) <==> ShortHistory(history) && ShortEvent(e)
    ensures Replay(history + [e]) == Next(Replay(history), e)
  {
    ReplayNext(history, e);
    ShortNext(history, e);
  }

  lemma ShortNext(history: seq<Event<Alarm>>, e: Event<Alarm>)
    ensures ShortHistory(history + [e]) <==> ShortHistory(history) && ShortEvent(e)
  {
    var all := history + [e];
    if ShortHistory(all) {
      assert ShortEvent(all[|history|]);
      forall i | 0 <= i < |history|
        ensures ShortEvent(history[i])
      {
        assert ShortEvent(all[i]);
      }
    }
  }

  /** Only its own wait goes. */
  lemma {:induction false} KeptBetween(front: seq<Wait<Alarm, Timer>>, own: seq<Wait<Alarm, Timer>>,
                                       rest: seq<Wait<Alarm, Timer>>, a: Alarm)
    requires Absent(front, a) && Absent(rest, a) && (own == [] || (|own| == 1 && own[0].alarm == a))
    ensures Kept(front + own + rest, [Stops(a)]) == front + [] + rest == front + rest
  {
    KeptThree(front, own, rest, [Stops(a)]);
    KeptOthers(front, a);
    KeptOthers(rest, a);
    KeptOwn(own, a);
  }

  lemma {:induction false} KeptThree(x: seq<Wait<Alarm, Timer>>, y: seq<Wait<Alarm, Timer>>,
                                     z: seq<Wait<Alarm, Timer>>, acts: seq<Act<Alarm>>)
    ensures Kept(x + y + z, acts) == Kept(x, acts) + Kept(y, acts) + Kept(z, acts)
  {
    KeptSplit(x + y, z, acts);
    KeptSplit(x, y, acts);
  }

  lemma {:induction false} KeptOwn(own: seq<Wait<Alarm, Timer>>, a: Alarm)
    requires own == [] || (|own| == 1 && own[0].alarm == a)
    ensures Kept(own, [Stops(a)]) == []
  {
    if own != [] {
      assert own == [own[0]];
      KeptOne(own[0], [Stops(a)]);
    }
  }

  lemma Replaced(front: seq<Wait<Alarm, Timer>>, own: seq<Wait<Alarm, Timer>>, rest: seq<Wait<Alarm, Timer>>, a: Alarm)
    ensures |own| == 1 ==> forall t :: (front + own + rest)[|front| := Wait(a, t)] == front + [Wait(a, t)] + rest
  {
  }

  /** What the callback of an alarm does, if it is made. */
  ghost function Made(clock: Clock<Timer>, w: Wait<Alarm, Timer>, answer: Answer<Alarm>): seq<Act<Alarm>> {
    if clock.due(w.time) then answer.acts else []
  }

  /** What a callback may do when the alarm is visited. */
  ghost predicate MayAct(clock: Clock<Timer>, w: Wait<Alarm, Timer>, answer: Answer<Alarm>,
                         front: seq<Wait<Alarm, Timer>>, own: seq<Wait<Alarm, Timer>>,
                         rest: seq<Wait<Alarm, Timer>>, nodes: set<Alarm>, stoppable: set<Alarm>, barred: set<Alarm>)
  {
    clock.due(w.time) ==>
      && Within(answer.acts, nodes, stoppable)
      && LegalActs(clock, front + (if own == [] then [] else [Seen(clock, w)]) + rest, answer.acts, barred)
  }

  /** The acts of a callback do not bring its own alarm back into the list. */
  lemma ActedParts(clock: Clock<Timer>, front: seq<Wait<Alarm, Timer>>, own: seq<Wait<Alarm, Timer>>,
                   rest: seq<Wait<Alarm, Timer>>, acts: seq<Act<Alarm>>, barred: set<Alarm>, a: Alarm)
    requires Absent(front, a) && Absent(rest, a) && (own == [] || (|own| == 1 && own[0].alarm == a)) && a in barred
    requires LegalActs(clock, front + own + rest, acts, barred)
    ensures Acted(clock, front + own + rest, acts) == Acted(clock, front, acts) + Kept(own, acts) + Kept(rest, acts)
    ensures Absent(Acted(clock, front, acts), a) && Absent(Kept(rest, acts), a)
    ensures Kept(own, acts) == if own == [] || Stops(a) in acts then [] else own
  {
    ActedSplit(clock, front + own, rest, acts);
    ActedSplit(clock, front, own, acts);
    KeptAbsent(rest, acts, a);
    ActedAbsent(clock, front, front + own + rest, acts, barred, a);
    if own != [] {
      KeptOne(own[0], acts);
      assert own == [own[0]];
    }
  }

  lemma {:induction false} ActedAbsent(clock: Clock<Timer>, list: seq<Wait<Alarm, Timer>>,
                                       whole: seq<Wait<Alarm, Timer>>, acts: seq<Act<Alarm>>, barred: set<Alarm>,
                                       a: Alarm)
    requires Absent(list, a) && a in barred && LegalActs(clock, whole, acts, barred)
    ensures Absent(Acted(clock, list, acts), a)
    decreases |acts|
  {
    if acts != [] {
      var before, last := acts[..|acts| - 1], acts[|acts| - 1];
      ActedAbsent(clock, list, whole, before, barred, a);
      if last.Stops? {
        KeptAbsent(Acted(clock, list, before), [last], a);
      }
    }
  }

  /** All that callbacks may do is within these alarms. */
  ghost predicate AllWithin(answers: map<Alarm, Answer<Alarm>>, nodes: set<Alarm>, stoppable: set<Alarm>) {
    forall a :: a in answers ==> Within(answers[a].acts, nodes, stoppable)
  }

  lemma WithinAnswer(answers: map<Alarm, Answer<Alarm>>, nodes: set<Alarm>, stoppable: set<Alarm>, a: Alarm)
    requires AllWithin(answers, nodes, stoppable)
    ensures Within(AnswerOf(answers, a).acts, nodes, stoppable)
  {
  }

  /** An alarm that is stopped by a callback that does not start it is gone. */
  lemma StoppedIsGone(clock: Clock<Timer>, answers: map<Alarm, Answer<Alarm>>, front: seq<Wait<Alarm, Timer>>,
                      behind: seq<Wait<Alarm, Timer>>, barred: set<Alarm>)
    requires StopsNextNow(clock, answers, behind) && behind[1].alarm != behind[0].alarm && Close(behind) <= barred
    requires Absent(front, behind[1].alarm)
    requires LegalActs(clock, front + [Seen(clock, behind[0])] + behind[1..], ActsOf(clock, answers, behind[0]), barred)
    ensures Absent(FrontAfter(clock, answers, front, behind[0]) + BehindAfter(clock, answers, behind), behind[1].alarm)
  {
    var acts, a := ActsOf(clock, answers, behind[0]), behind[1].alarm;
    ActedAbsent(clock, front, front + [Seen(clock, behind[0])] + behind[1..], acts, barred, a);
    KeptAbsent(behind[1..], acts, a);
  }

  /** In the waits of a distinct list, no other wait is of the same alarm. */
  lemma NowhereElse(head: Alarm, list: seq<Alarm>, front: seq<Wait<Alarm, Timer>>, behind: seq<Wait<Alarm, Timer>>,
                    k: nat)
    requires Distinct(head, list) && k < |behind| && |list| == |front| + |behind|
    requires forall i :: 0 <= i < |list| ==> (front + behind)[i].alarm == list[i]
    ensures Absent(front, behind[k].alarm) && Absent(behind[k + 1..], behind[k].alarm)
    ensures k > 0 ==> behind[0].alarm != behind[k].alarm
  {
    var p := |front| + k;
    OthersDiffer(head, list, p);
    assert (front + behind)[p] == behind[k];
    forall i | 0 <= i < |front|
      ensures front[i].alarm != behind[k].alarm
    {
      assert (front + behind)[i] == front[i];
    }
    forall i | 0 <= i < |behind| && i != k
      ensures behind[i].alarm != behind[k].alarm
    {
      assert (front + behind)[|front| + i] == behind[i];
    }
  }

  /** The course of a walk, and the alarm, if any, at which it does not go on. */
  datatype Plan = Plan(course: Course<Alarm, Timer>, stuck: seq<Wait<Alarm, Timer>>)

  ghost function PlanOf(clock: Clock<Timer>, answers: map<Alarm, Answer<Alarm>>, front: seq<Wait<Alarm, Timer>>,
                        behind: seq<Wait<Alarm, Timer>>): Plan
  {
    Plan(CourseOf(clock, answers, front, behind),
         if StopsNext(clock, answers, behind) then [StuckAt(clock, answers, behind)] else [])
  }

  /** What is done and what is still to come make up the plan. */
  ghost predicate OnCourse(clock: Clock<Timer>, answers: map<Alarm, Answer<Alarm>>, head: Alarm,
                           done: Course<Alarm, Timer>, front: seq<Wait<Alarm, Timer>>,
                           behind: seq<Wait<Alarm, Timer>>, plan: Plan)
  {
    && Legal(clock, answers, front, behind, {head})
    && plan.course == Joined(done, CourseOf(clock, answers, front, behind))
    && plan.stuck == PlanOf(clock, answers, front, behind).stuck
  }

  lemma CourseNext(clock: Clock<Timer>, answers: map<Alarm, Answer<Alarm>>, head: Alarm, before: seq<Alarm>,
                   done: Course<Alarm, Timer>, front: seq<Wait<Alarm, Timer>>, behind: seq<Wait<Alarm, Timer>>,
                   plan: Plan)
    requires OnCourse(clock, answers, head, done, front, behind, plan) && behind != []
    ensures var done' := Joined(done, VisitOf(clock, answers, front, behind));
            && done'.visits == done.visits + [behind[0].alarm]
            && before + done'.calls == before + done.calls + CallOf(clock, behind[0])
            && if StopsNextNow(clock, answers, behind) then done' == plan.course && plan.stuck == [behind[1]]
               else OnCourse(clock, answers, head, done', FrontAfter(clock, answers, front, behind[0]),
                             BehindAfter(clock, answers, behind), plan)
  {
    var visit := VisitOf(clock, answers, front, behind);
    JoinedThrice(done, visit, CourseOf(clock, answers, FrontAfter(clock, answers, front, behind[0]),
                                       BehindAfter(clock, answers, behind)));
  }

  lemma JoinedThrice(a: Course<Alarm, Timer>, b: Course<Alarm, Timer>, c: Course<Alarm, Timer>)
    ensures Joined(a, Joined(b, c)) == Joined(Joined(a, b), c)
  {
  }

  /** What further callbacks of an alarm may do that the walk does not get away from. */
  ghost predicate LaterAllowed(clock: Clock<Timer>, plan: Plan, later: seq<Answer<Alarm>>, head: Alarm,
                               nodes: set<Alarm>, stoppable: set<Alarm>)
  {
    plan.stuck != [] ==>
      && LegalLater(clock, plan.course.list, plan.stuck[0], later, {head})
      && forall i :: 0 <= i < |later| ==> Within(later[i].acts, nodes, stoppable)
  }

  lemma LaterNext(clock: Clock<Timer>, waits: seq<Wait<Alarm, Timer>>, at: Wait<Alarm, Timer>,
                  later: seq<Answer<Alarm>>, barred: set<Alarm>)
    requires LegalLater(clock, waits, at, later, barred) && later != []
    ensures clock.due(at.time) ==> LegalActs(clock, waits + [] + [], later[0].acts, barred + {at.alarm})
    ensures var acts := Made(clock, at, later[0]);
            LegalLater(clock, Acted(clock, waits, acts) + [] + Kept([], acts), StrayAfter(clock, at, later[0]),
                       later[1..], barred)
  {
    var acts := Made(clock, at, later[0]);
    assert waits + [] + [] == waits && Acted(clock, waits, acts) + [] + Kept([], acts) == Acted(clock, waits, acts);
  }

  /** The alarms that callbacks start or stop. */
  ghost function Mentioned(answers: map<Alarm, Answer<Alarm>>, later: seq<Answer<Alarm>>): set<Alarm> {
    (set a, act | a in answers && act in answers[a].acts :: AlarmOf(act))
    + (set answer, act | answer in later && act in answer.acts :: AlarmOf(act))
  }

  /** Those that they stop. */
  ghost function Stoppable(answers: map<Alarm, Answer<Alarm>>, later: seq<Answer<Alarm>>): set<Alarm> {
    (set a, act | a in answers && act in answers[a].acts && act.Stops? :: AlarmOf(act))
    + (set answer, act | answer in later && act in answer.acts && act.Stops? :: AlarmOf(act))
  }

  lemma MentionedWithin(answers: map<Alarm, Answer<Alarm>>, later: seq<Answer<Alarm>>, nodes: set<Alarm>)
    requires Mentioned(answers, later) <= nodes
    ensures Stoppable(answers, later) <= nodes && AllWithin(answers, nodes, Stoppable(answers, later))
    ensures forall i :: 0 <= i < |later| ==> Within(later[i].acts, nodes, Stoppable(answers, later))
  {
    forall a | a in answers
      ensures Within(answers[a].acts, nodes, Stoppable(answers, later))
    {
      forall act | act in answers[a].acts
        ensures AlarmOf(act) in nodes && (act.Stops? ==> AlarmOf(act) in Stoppable(answers, later))
      {
        assert AlarmOf(act) in Mentioned(answers, later);
      }
    }
    forall i | 0 <= i < |later|
      ensures Within(later[i].acts, nodes, Stoppable(answers, later))
    {
      forall act | act in later[i].acts
        ensures AlarmOf(act) in nodes && (act.Stops? ==> AlarmOf(act) in Stoppable(answers, later))
      {
        assert later[i] in later && AlarmOf(act) in Mentioned(answers, later);
      }
    }
  }

  lemma PlanBegins(clock: Clock<Timer>, answers: map<Alarm, Answer<Alarm>>, head: Alarm, waits: seq<Wait<Alarm, Timer>>)
    requires Legal(clock, answers, [], waits, {head})
    ensures OnCourse(clock, answers, head, Course([], [], [], []), [], waits, PlanOf(clock, answers, [], waits))
  {
  }

  /** A tick, with all deadlines ahead. */
  lemma TickOutcome(waits: seq<Wait<Alarm, Timer>>, was: Schedule<Alarm>, answers: map<Alarm, Answer<Alarm>>)
    requires AllOnTime(was.ticks, waits) && was.pending == PendingOf(waits, was.ticks)
    requires !StopsNext(TimerClock((was.ticks + 1) % WRAP), answers, waits)
    ensures var c, d := CourseOf(TimerClock((was.ticks + 1) % WRAP), answers, [], waits), TickOf(was, answers);
            && Next(was, Ticked(answers)) == Schedule(was.ticks + 1, d.list, was.calls + d.calls)
            && c.calls == d.calls
            && (ShortAnswers(answers) ==>
                  AllOnTime(was.ticks + 1, c.list) && PendingOf(c.list, was.ticks + 1) == d.list)
  {
    CourseRefines(answers, waits, was.ticks);
    NextTick(was, answers);
  }

  /** Callbacks that neither start nor stop anything may always be made. */
  lemma {:induction false} QuietLater(clock: Clock<Timer>, list: seq<Wait<Alarm, Timer>>, at: Wait<Alarm, Timer>,
                                      later: seq<Answer<Alarm>>, barred: set<Alarm>)
    requires forall i :: 0 <= i < |later| ==> later[i].acts == []
    ensures LegalLater(clock, list, at, later, barred)
    decreases |later|
  {
    if later != [] {
      QuietLater(clock, list, StrayAfter(clock, at, later[0]), later[1..], barred);
    }
  }

  /** Two alarms in the list, of which the first is due and stops the second. */
  lemma TwoAlarms(clock: Clock<Timer>, answers: map<Alarm, Answer<Alarm>>, a: Wait<Alarm, Timer>,
                  b: Wait<Alarm, Timer>, barred: set<Alarm>)
    requires clock.due(a.time) && AnswerOf(answers, a.alarm).acts == [Stops(b.alarm)]
    ensures StopsNextNow(clock, answers, [a, b]) && Legal(clock, answers, [], [a, b], barred)
  {
    assert LegalActs(clock, [] + [Seen(clock, a)] + [a, b][1..], [], barred + Close([a, b]));
    assert [Stops(b.alarm)][..0] == [];
  }

  /** Two started alarms, of which the one that is due stops the other: the tick may be made, and does not end. */
  lemma TwoAlarmsAllowed(system: AlarmSystem, answers: map<Alarm, Answer<Alarm>>, later: seq<Answer<Alarm>>,
                         a: Alarm, b: Alarm)
    requires system.nticks == 0 && system.list == [a, b] && Linked(system.head, system.list)
    requires a.timer == Timer(1, false) && answers == map[a := Answer([Stops(b)], 1)]
    requires forall i :: 0 <= i < |later| ==> later[i].acts == []
    ensures system.Allowed(1, answers, later) && StopsNext(TimerClock(1), answers, system.Waits())
    ensures system.Touched(answers, later) <= {a, b}
  {
    var clock, waits := TimerClock(1), system.Waits();
    assert waits == [waits[0], waits[1]];
    TwoAlarms(clock, answers, waits[0], waits[1], {system.head});
    QuietLater(clock, CourseOf(clock, answers, [], waits).list, StuckAt(clock, answers, waits), later, {system.head});
    forall x | x in Mentioned(answers, later)
      ensures x == b
    {
    }
    assert system.list[1] == b;
  }

  /** A start of an alarm that is set up and not registered. */
  method StartOn(system: AlarmSystem, alarm: Alarm, n: u32)
    requires system.Valid() && system.tickRate != 0 && alarm != system.head && alarm !in system.list
    modifies system, system.head, system.list, alarm
    ensures system.Valid() && system.tickRate == old(system.tickRate) && system.nticks == old(system.nticks)
    ensures system.list == [alarm] + old(system.list)
    ensures alarm.timer == StartTimer(system.nticks, n)
  {
    var rc := system.Start(alarm, n);
    assert system.Waits()[0] == Wait(alarm, alarm.timer);
  }

  /** A system with two started alarms. */
  method TwoStarted() returns (system: AlarmSystem, a: Alarm, b: Alarm)
    ensures fresh(system) && fresh(system.head) && fresh(a) && fresh(b)
    ensures system.Valid() && system.nticks == 0 && system.list == [a, b] && a.timer == Timer(1, false)
  {
    system := new AlarmSystem();
    a := new Alarm();
    b := new Alarm();
    var rc := system.SysclkInit(100);
    StartOn(system, b, 5);
    StartOn(system, a, 0);
  }

  /** A tick at which a callback that is made stops the alarm right behind its own. */
  method TickWithStop(system: AlarmSystem, answers: map<Alarm, Answer<Alarm>>, later: seq<Answer<Alarm>>)
    returns (ended: bool)
    requires system.Valid() && system.Allowed((system.nticks + 1) % WRAP, answers, later)
    requires StopsNext(TimerClock((system.nticks + 1) % WRAP), answers, system.Waits())
    modifies system, system.head, system.Touched(answers, later)
    ensures !ended
  {
    ghost var visits;
    ended, visits := system.Tick(answers, later);
  }

  /** A tick at which the first of two alarms is due and stops the other. */
  method TickOfTwo(system: AlarmSystem, a: Alarm, b: Alarm, later: seq<Answer<Alarm>>) returns (ended: bool)
    requires system.Valid() && system.nticks == 0 && system.list == [a, b] && a.timer == Timer(1, false)
    requires forall i :: 0 <= i < |later| ==> later[i].acts == []
    modifies system, system.head, a, b
    ensures !ended
  {
    var answers := map[a := Answer([Stops(b)], 1)];
    TwoAlarmsAllowed(system, answers, later, a, b);
    ended := TickWithStop(system, answers, later);
  }

  /**
   Two alarms, the callback of the first of which stops the other one: the tick does not end, however many
   turns it is followed.
   */
  method StopNextExample(intervals: seq<u32>) returns (ended: bool)
    ensures !ended
  {
    var system, a, b := TwoStarted();
    var later := seq(|intervals|, i requires 0 <= i < |intervals| => Answer([], intervals[i]));
    ended := TickOfTwo(system, a, b, later);
  }
}
