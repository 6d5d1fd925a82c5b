/**
 What the alarm system is to do, in terms of unbounded deadlines, over whole runs.
 */
module AlarmSchedule {
  import opened Arithmetic
  import opened AlarmCourse

  /** The clock at tick "now" of a system in which a time is the tick an alarm waits for. */
  function DeadlineClock(now: int): Clock<int> {
    Clock(d => d == now, d => d, (d: int, interval: u32) => d + interval, (n: u32) => now + n + 1)
  }

  datatype Event<A> = Started(request: Request<A>) | Stopped(alarm: A) | Ticked(answers: map<A, Answer<A>>)

  /** The ticks since reset, the alarms that wait, the newest first, and the callbacks made so far. */
  datatype Schedule<A> = Schedule(ticks: nat, pending: seq<Wait<A, int>>, calls: seq<A>)

  ghost function TickOf<A>(s: Schedule<A>, answers: map<A, Answer<A>>): Course<A, int> {
    CourseOf(DeadlineClock(s.ticks + 1), answers, [], s.pending)
  }

  /** The tick comes to an end: no callback that is made stops the alarm right behind its own. */
  ghost predicate Ends<A>(s: Schedule<A>, answers: map<A, Answer<A>>) {
    !StopsNext(DeadlineClock(s.ticks + 1), answers, s.pending)
  }

  ghost function Next<A>(s: Schedule<A>, e: Event<A>): Schedule<A> {
    match e
    case Started(r) => s.(pending := [Wait(r.alarm, s.ticks + r.n + 1)] + s.pending)
    case Stopped(a) => s.(pending := Kept(s.pending, [Stops(a)]))
    case Ticked(answers) =>
      if Ends(s, answers) then Schedule(s.ticks + 1, TickOf(s, answers).list, s.calls + TickOf(s, answers).calls)
      else s
  }

  lemma NextTick<A>(s: Schedule<A>, answers: map<A, Answer<A>>)
    requires Ends(s, answers)
    ensures Next(s, Ticked(answers))
         == Schedule(s.ticks + 1, TickOf(s, answers).list, s.calls + TickOf(s, answers).calls)
  {
  }

  ghost function Run<A>(s: Schedule<A>, events: seq<Event<A>>): Schedule<A> {
    if events == [] then s else Next(Run(s, events[..|events| - 1]), events[|events| - 1])
  }

  /** What a run from reset leads to. */
  ghost function Replay<A>(events: seq<Event<A>>): Schedule<A> {
    Run(Schedule(0, [], []), events)
  }

  lemma ReplayNext<A>(events: seq<Event<A>>, e: Event<A>)
    ensures Replay(events + [e]) == Next(Replay(events), e)
  {
    assert (events + [e])[..|events|] == events;
  }

  lemma {:induction false} RunSplit<A>(s: Schedule<A>, a: seq<Event<A>>, b: seq<Event<A>>)
    ensures Run(s, a + b) == Run(Run(s, a), b)
    decreases |b|
  {
    if b == [] {
      assert a + b == a;
    } else {
      assert (a + b)[..|a + b| - 1] == a + b[..|b| - 1];
      RunSplit(s, a, b[..|b| - 1]);
    }
  }

  // ---------------------------------------------------------------- one alarm through a run

  /** The event has nothing to do with the alarm, apart from calling it. */
  ghost predicate Spares<A>(s: Schedule<A>, e: Event<A>, a: A) {
    match e
    case Started(r) => r.alarm != a
    case Stopped(b) => b != a
    case Ticked(answers) => !Mentions(TickOf(s, answers).acts, a)
  }

  /** Nobody starts or stops the alarm during the run. */
  ghost predicate LeftAlone<A>(s: Schedule<A>, events: seq<Event<A>>, a: A) {
    events != [] ==>
      && LeftAlone(s, events[..|events| - 1], a)
      && Spares(Run(s, events[..|events| - 1]), events[|events| - 1], a)
  }

  /** The alarm is registered once, and waits for this. */
  ghost predicate Awaits<A>(s: Schedule<A>, p: Wait<A, int>) {
    WaitsOf(s.pending, p.alarm) == [p]
  }

  /** How often the alarm has been called. */
  ghost function CallCount<A>(s: Schedule<A>, a: A): nat {
    multiset(s.calls)[a]
  }

  /** What a tick makes of an alarm that it leaves alone. */
  lemma TickLeaves<A>(now: int, answers: map<A, Answer<A>>, pending: seq<Wait<A, int>>, p: Wait<A, int>)
    requires WaitsOf(pending, p.alarm) == [p] && !StopsNext(DeadlineClock(now), answers, pending)
    requires !Mentions(CourseOf(DeadlineClock(now), answers, [], pending).acts, p.alarm)
    ensures var c, interval := CourseOf(DeadlineClock(now), answers, [], pending), AnswerOf(answers, p.alarm).interval;
            && multiset(c.calls)[p.alarm] == (if p.time == now then 1 else 0)
            && WaitsOf(c.list, p.alarm)
               == if p.time != now then [p] else if interval == 0 then [] else [Wait(p.alarm, now + interval)]
  {
    var clock := DeadlineClock(now);
    CourseLeaves(clock, answers, [], pending, p);
    OwnDeadline(now, clock, p, AnswerOf(answers, p.alarm));
  }

  lemma OwnDeadline<A>(now: int, clock: Clock<int>, p: Wait<A, int>, answer: Answer<A>)
    requires clock == DeadlineClock(now) && (clock.due(p.time) ==> Stops(p.alarm) !in answer.acts)
    ensures clock.due(p.time) <==> p.time == now
    ensures WaitsOf([], p.alarm) + OwnAfter(clock, p, answer)
         == if p.time != now then [p] else if answer.interval == 0 then [] else [Wait(p.alarm, now + answer.interval)]
  {
  }

  /** An event before the deadline: the alarm waits on, and is not called. */
  lemma NextWaits<A>(s: Schedule<A>, e: Event<A>, p: Wait<A, int>)
    requires Awaits(s, p) && Spares(s, e, p.alarm) && (s.ticks + 1 == p.time ==> !e.Ticked?)
    ensures Awaits(Next(s, e), p) && CallCount(Next(s, e), p.alarm) == CallCount(s, p.alarm)
    ensures s.ticks < p.time ==> Next(s, e).ticks < p.time
  {
    match e {
      case Started(r) => WaitsSplit([Wait(r.alarm, s.ticks + r.n + 1)], s.pending, p.alarm);
      case Stopped(a) => KeptLeaves(s.pending, [Stops(a)], p.alarm);
      case Ticked(answers) =>
        if Ends(s, answers) {
          TickLeaves(s.ticks + 1, answers, s.pending, p);
        }
    }
  }

  /** The tick of the deadline: one call, and then the wait that the callback asks for, if any. */
  lemma NextCalls<A>(s: Schedule<A>, answers: map<A, Answer<A>>, p: Wait<A, int>)
    requires Awaits(s, p) && Spares(s, Ticked(answers), p.alarm) && Ends(s, answers) && p.time == s.ticks + 1
    ensures var t, interval := Next(s, Ticked(answers)), AnswerOf(answers, p.alarm).interval;
            && t.ticks == p.time && CallCount(t, p.alarm) == CallCount(s, p.alarm) + 1
            && if interval == 0 then WaitsOf(t.pending, p.alarm) == []
               else Awaits(t, Wait(p.alarm, p.time + interval)) && t.ticks < p.time + interval
  {
    TickLeaves(s.ticks + 1, answers, s.pending, p);
  }

  /**
   Through any run in which nobody starts or stops it, an alarm is not called before its deadline, waits
   for it until then, and has been called once it has come.
   */
  lemma {:induction false} CalledAtDeadline<A>(s: Schedule<A>, events: seq<Event<A>>, p: Wait<A, int>)
    requires Awaits(s, p) && s.ticks < p.time && LeftAlone(s, events, p.alarm)
    ensures var now := Run(s, events);
            && s.calls <= now.calls
            && if now.ticks < p.time then Awaits(now, p) && CallCount(now, p.alarm) == CallCount(s, p.alarm)
               else CallCount(now, p.alarm) > CallCount(s, p.alarm)
    decreases |events|
  {
    if events != [] {
      var e, before := events[|events| - 1], Run(s, events[..|events| - 1]);
      CalledAtDeadline(s, events[..|events| - 1], p);
      NextGrows(before, e, p.alarm);
      if before.ticks < p.time {
        if before.ticks + 1 == p.time && e.Ticked? && Ends(before, e.answers) {
          NextCalls(before, e.answers, p);
        } else if before.ticks + 1 != p.time || !e.Ticked? {
          NextWaits(before, e, p);
        }
      }
    }
  }

  /** Callbacks are not taken back. */
  lemma NextGrows<A>(s: Schedule<A>, e: Event<A>, a: A)
    ensures s.calls <= Next(s, e).calls && CallCount(s, a) <= CallCount(Next(s, e), a)
    ensures s.ticks <= Next(s, e).ticks <= s.ticks + 1
  {
  }

  /**
   Since "past", the alarm has had "before" calls and no more as long as the deadline lies ahead, and it
   awaits this one only; once it has come, the alarm has been called again.
   */
  ghost predicate OnlyThen<A>(past: Schedule<A>, now: Schedule<A>, p: Wait<A, int>, before: nat) {
    && past.calls <= now.calls
    && if now.ticks < p.time then Awaits(now, p) && CallCount(now, p.alarm) == CallCount(past, p.alarm) + before
       else CallCount(now, p.alarm) > CallCount(past, p.alarm) + before
  }

  /** From s on: an alarm that is started for n ticks is called n + 1 ticks later and not earlier. */
  lemma StartIsKept<A>(s: Schedule<A>, r: Request<A>, events: seq<Event<A>>)
    requires Absent(s.pending, r.alarm) && LeftAlone(Next(s, Started(r)), events, r.alarm)
    ensures OnlyThen(s, Run(Next(s, Started(r)), events), Wait(r.alarm, s.ticks + r.n + 1), 0)
  {
    AbsentWaits(s.pending, r.alarm);
    WaitsSplit([Wait(r.alarm, s.ticks + r.n + 1)], s.pending, r.alarm);
    CalledAtDeadline(Next(s, Started(r)), events, Wait(r.alarm, s.ticks + r.n + 1));
  }

  /** The event is a tick that comes to an end, and calls the alarm, which answers the interval. */
  ghost predicate CallsNow<A>(s: Schedule<A>, e: Event<A>, a: A, interval: int) {
    && e.Ticked? && Ends(s, e.answers) && Awaits(s, Wait(a, s.ticks + 1)) && Spares(s, e, a)
    && AnswerOf(e.answers, a).interval == interval != 0
  }

  /** An alarm that is called and answers an interval is called once then, and next after just that interval. */
  lemma AnswerIsKept<A>(s: Schedule<A>, e: Event<A>, a: A, interval: int, events: seq<Event<A>>)
    requires CallsNow(s, e, a, interval) && LeftAlone(Next(s, e), events, a)
    ensures OnlyThen(s, Run(Next(s, e), events), Wait(a, s.ticks + 1 + interval), 1)
  {
    NextCalls(s, e.answers, Wait(a, s.ticks + 1));
    NextGrows(s, e, a);
    CalledAtDeadline(Next(s, e), events, Wait(a, s.ticks + 1 + interval));
  }

  /** A run from reset, taken apart at one event. */
  lemma ReplayAround<A>(events: seq<Event<A>>, i: nat)
    requires i < |events|
    ensures Replay(events) == Run(Next(Replay(events[..i]), events[i]), events[i + 1..])
  {
    assert events == events[..i + 1] + events[i + 1..];
    RunSplit(Schedule(0, [], []), events[..i + 1], events[i + 1..]);
    assert events[..i + 1] == events[..i] + [events[i]];
    ReplayNext(events[..i], events[i]);
  }

  /** What has become of a start in a run from reset that has led from "past" to "now". */
  lemma StartReplayed<A>(events: seq<Event<A>>, i: nat, past: Schedule<A>, r: Request<A>, now: Schedule<A>)
    requires i < |events| && past == Replay(events[..i]) && now == Replay(events)
    requires events[i] == Started(r) && Absent(past.pending, r.alarm)
    requires LeftAlone(Next(past, events[i]), events[i + 1..], r.alarm)
    ensures OnlyThen(past, now, Wait(r.alarm, past.ticks + r.n + 1), 0)
  {
    ReplayAround(events, i);
    StartIsKept(past, r, events[i + 1..]);
  }

  /** And of the answer to a call. */
  lemma AnswerReplayed<A>(events: seq<Event<A>>, i: nat, past: Schedule<A>, a: A, interval: int, now: Schedule<A>)
    requires i < |events| && past == Replay(events[..i]) && now == Replay(events)
    requires CallsNow(past, events[i], a, interval) && LeftAlone(Next(past, events[i]), events[i + 1..], a)
    ensures OnlyThen(past, now, Wait(a, past.ticks + 1 + interval), 1)
  {
    ReplayAround(events, i);
    AnswerIsKept(past, events[i], a, interval, events[i + 1..]);
  }
}
