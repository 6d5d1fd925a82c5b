/**
 The walk of the tick routine in terms of 32-bit timers, and that it goes through the course of the
 unbounded deadlines.
 */
module AlarmPass {
  import opened Arithmetic
  import opened AlarmCourse
  import opened AlarmSchedule
  import opened AlarmTime

  /** The clock of the tick routine when the counter has moved on to "nticks". */
  function TimerClock(nticks: int): Clock<Timer> {
    Clock((t: Timer) => Fires(t, nticks), (t: Timer) => Cleared(t, nticks),
          (t: Timer, interval: u32) => Rearmed(t, nticks, interval), (n: u32) => StartTimer(nticks, n))
  }

  ghost predicate AllInRange<A>(waits: seq<Wait<A, Timer>>) {
    forall k :: 0 <= k < |waits| ==> InRange(waits[k].time)
  }

  ghost predicate AllOnTime<A>(ticks: nat, waits: seq<Wait<A, Timer>>) {
    forall k :: 0 <= k < |waits| ==> OnTime(ticks, waits[k].time)
  }

  /** What alarms wait for. */
  ghost function PendingOf<A>(waits: seq<Wait<A, Timer>>, ticks: nat): (p: seq<Wait<A, int>>)
    ensures |p| == |waits|
  {
    seq(|waits|, i requires 0 <= i < |waits| => Wait(waits[i].alarm, Deadline(ticks, waits[i].time)))
  }

  /** No start asks for the longest wait. */
  predicate ShortActs<A>(acts: seq<Act<A>>) {
    forall j :: 0 <= j < |acts| && acts[j].Starts? ==> acts[j].request.n <= WRAP - 2
  }

  ghost predicate ShortAnswers<A>(answers: map<A, Answer<A>>) {
    forall a :: a in answers ==> ShortActs(answers[a].acts)
  }

  ghost predicate ShortEvent<A>(e: Event<A>) {
    match e
    case Started(r) => r.n <= WRAP - 2
    case Stopped(_) => true
    case Ticked(answers) => ShortAnswers(answers)
  }

  /** No alarm was ever started for the longest wait. */
  ghost predicate ShortHistory<A>(events: seq<Event<A>>) {
    forall i :: 0 <= i < |events| ==> ShortEvent(events[i])
  }

  lemma PendingSplit<A>(x: seq<Wait<A, Timer>>, y: seq<Wait<A, Timer>>, ticks: nat)
    ensures PendingOf(x + y, ticks) == PendingOf(x, ticks) + PendingOf(y, ticks)
    ensures AllOnTime(ticks, x) && AllOnTime(ticks, y) ==> AllOnTime(ticks, x + y)
    ensures AllInRange(x) && AllInRange(y) ==> AllInRange(x + y)
  {
  }

  /** One visit, in terms of deadlines. */
  lemma VisitRefines(ticks: nat, t: Timer, interval: u32)
    requires OnTime(ticks, t)
    ensures var now, seen := (ticks + 1) % WRAP, Cleared(t, (ticks + 1) % WRAP);
            && (Fires(t, now) <==> Deadline(ticks, t) == ticks + 1)
            && (!Fires(t, now) ==> OnTime(ticks + 1, seen) && Deadline(ticks + 1, seen) == Deadline(ticks, t))
            && (Fires(t, now) && interval != 0 ==>
                  && OnTime(ticks + 1, Rearmed(seen, now, interval))
                  && Deadline(ticks + 1, Rearmed(seen, now, interval)) == Deadline(ticks, t) + interval)
  {
    TickIsExact(ticks, t);
    if Fires(t, (ticks + 1) % WRAP) && interval != 0 {
      RearmIsExact(ticks, t, interval);
    }
  }

  lemma PendingRest<A>(waits: seq<Wait<A, Timer>>, ticks: nat)
    requires waits != []
    ensures PendingOf(waits, ticks)[0] == Wait(waits[0].alarm, Deadline(ticks, waits[0].time))
    ensures PendingOf(waits, ticks)[1..] == PendingOf(waits[1..], ticks)
    ensures PendingOf([waits[0]], ticks) == [PendingOf(waits, ticks)[0]]
  {
  }

  lemma {:induction false} KeptRefines<A>(waits: seq<Wait<A, Timer>>, acts: seq<Act<A>>, ticks: nat)
    ensures PendingOf(Kept(waits, acts), ticks) == Kept(PendingOf(waits, ticks), acts)
    decreases |waits|
  {
    if waits != [] {
      PendingRest(waits, ticks);
      KeptRefines(waits[1..], acts, ticks);
      PendingSplit([waits[0]], Kept(waits[1..], acts), ticks);
    }
  }

  lemma {:induction false} KeptInTime<A>(waits: seq<Wait<A, Timer>>, acts: seq<Act<A>>, ticks: nat)
    ensures AllOnTime(ticks, waits) ==> AllOnTime(ticks, Kept(waits, acts))
    ensures AllInRange(waits) ==> AllInRange(Kept(waits, acts))
    decreases |waits|
  {
    if waits != [] {
      KeptInTime(waits[1..], acts, ticks);
      PendingSplit([waits[0]], Kept(waits[1..], acts), ticks);
    }
  }

  /** What callbacks start and stop. */
  lemma {:induction false} ActedRefines<A>(waits: seq<Wait<A, Timer>>, acts: seq<Act<A>>, ticks: nat)
    ensures AllInRange(waits) ==> AllInRange(Acted(TimerClock(ticks % WRAP), waits, acts))
    ensures AllOnTime(ticks, waits) && ShortActs(acts) ==>
              && AllOnTime(ticks, Acted(TimerClock(ticks % WRAP), waits, acts))
              && PendingOf(Acted(TimerClock(ticks % WRAP), waits, acts), ticks)
                 == Acted(DeadlineClock(ticks), PendingOf(waits, ticks), acts)
    decreases |acts|
  {
    if acts != [] {
      var before, last := acts[..|acts| - 1], acts[|acts| - 1];
      ActedRefines(waits, before, ticks);
      OneActRefines(Acted(TimerClock(ticks % WRAP), waits, before), last, ticks);
    }
  }

  lemma OneActRefines<A>(waits: seq<Wait<A, Timer>>, act: Act<A>, ticks: nat)
    ensures AllInRange(waits) ==> AllInRange(ActedOnce(TimerClock(ticks % WRAP), waits, act))
    ensures AllOnTime(ticks, waits) && (act.Starts? ==> act.request.n <= WRAP - 2) ==>
              && AllOnTime(ticks, ActedOnce(TimerClock(ticks % WRAP), waits, act))
              && PendingOf(ActedOnce(TimerClock(ticks % WRAP), waits, act), ticks)
                 == ActedOnce(DeadlineClock(ticks), PendingOf(waits, ticks), act)
  {
    match act {
      case Starts(r) =>
        StartIsExact(ticks, r.n);
        PendingSplit([Wait(r.alarm, StartTimer(ticks % WRAP, r.n))], waits, ticks);
      case Stops(_) =>
        KeptRefines(waits, [act], ticks);
        KeptInTime(waits, [act], ticks);
    }
  }

  lemma OwnRefines<A>(w: Wait<A, Timer>, answer: Answer<A>, ticks: nat)
    requires OnTime(ticks, w.time)
    ensures var own := OwnAfter(TimerClock((ticks + 1) % WRAP), w, answer);
            && AllOnTime(ticks + 1, own)
            && PendingOf(own, ticks + 1)
               == OwnAfter(DeadlineClock(ticks + 1), Wait(w.alarm, Deadline(ticks, w.time)), answer)
    ensures TimerClock((ticks + 1) % WRAP).due(w.time) <==> DeadlineClock(ticks + 1).due(Deadline(ticks, w.time))
  {
    VisitRefines(ticks, w.time, answer.interval);
  }

  /** The one visited is due or not, and its callback acts, in both. */
  lemma ActsRefine<A>(answers: map<A, Answer<A>>, w: Wait<A, Timer>, ticks: nat)
    requires OnTime(ticks, w.time)
    ensures var clock, full := TimerClock((ticks + 1) % WRAP), DeadlineClock(ticks + 1);
            var p := Wait(w.alarm, Deadline(ticks, w.time));
            ActsOf(clock, answers, w) == ActsOf(full, answers, p) && CallOf(clock, w) == CallOf(full, p)
  {
    OwnRefines(w, AnswerOf(answers, w.alarm), ticks);
  }

  /** One visit, as to what is behind the alarm visited. */
  lemma BehindRefines<A>(answers: map<A, Answer<A>>, behind: seq<Wait<A, Timer>>, ticks: nat)
    requires behind != [] && AllOnTime(ticks, behind)
    ensures var clock, full := TimerClock((ticks + 1) % WRAP), DeadlineClock(ticks + 1);
            var pending := PendingOf(behind, ticks);
            && (StopsNextNow(clock, answers, behind) <==> StopsNextNow(full, answers, pending))
            && AllOnTime(ticks, BehindAfter(clock, answers, behind))
            && PendingOf(BehindAfter(clock, answers, behind), ticks) == BehindAfter(full, answers, pending)
  {
    var acts := ActsOf(TimerClock((ticks + 1) % WRAP), answers, behind[0]);
    ActsRefine(answers, behind[0], ticks);
    PendingRest(behind, ticks);
    KeptRefines(behind[1..], acts, ticks);
    KeptInTime(behind[1..], acts, ticks);
  }

  /** One visit, as to what is in front. */
  lemma FrontRefines<A>(answers: map<A, Answer<A>>, front: seq<Wait<A, Timer>>, w: Wait<A, Timer>, ticks: nat)
    requires OnTime(ticks, w.time) && AllOnTime(ticks + 1, front) && ShortAnswers(answers)
    ensures var clock, full := TimerClock((ticks + 1) % WRAP), DeadlineClock(ticks + 1);
            && AllOnTime(ticks + 1, FrontAfter(clock, answers, front, w))
            && PendingOf(FrontAfter(clock, answers, front, w), ticks + 1)
               == FrontAfter(full, answers, PendingOf(front, ticks + 1), Wait(w.alarm, Deadline(ticks, w.time)))
  {
    var clock := TimerClock((ticks + 1) % WRAP);
    var answer, acts := AnswerOf(answers, w.alarm), ActsOf(clock, answers, w);
    ActsRefine(answers, w, ticks);
    OwnRefines(w, answer, ticks);
    ActedRefines(front, acts, ticks + 1);
    PendingSplit(Acted(clock, front, acts), OwnAfter(clock, w, answer), ticks + 1);
  }

  /** The walk over the rest of the list makes the callbacks of the unbounded schedule, and leaves its deadlines. */
  lemma {:induction false} RestRefines<A>(answers: map<A, Answer<A>>, front: seq<Wait<A, Timer>>,
                                          fullFront: seq<Wait<A, int>>, behind: seq<Wait<A, Timer>>, ticks: nat)
    requires AllOnTime(ticks, behind)
    ensures var clock, full := TimerClock((ticks + 1) % WRAP), DeadlineClock(ticks + 1);
            var c := CourseOf(clock, answers, front, behind);
            var d := CourseOf(full, answers, fullFront, PendingOf(behind, ticks));
            && (StopsNext(clock, answers, behind) <==> StopsNext(full, answers, PendingOf(behind, ticks)))
            && c.calls == d.calls && c.visits == d.visits && c.acts == d.acts
            && (AllOnTime(ticks + 1, front) && PendingOf(front, ticks + 1) == fullFront && ShortAnswers(answers)
                && !StopsNext(clock, answers, behind) ==>
                  AllOnTime(ticks + 1, c.list) && PendingOf(c.list, ticks + 1) == d.list)
    decreases |behind|
  {
    if behind != [] {
      var clock, full := TimerClock((ticks + 1) % WRAP), DeadlineClock(ticks + 1);
      ActsRefine(answers, behind[0], ticks);
      PendingRest(behind, ticks);
      BehindRefines(answers, behind, ticks);
      if AllOnTime(ticks + 1, front) && ShortAnswers(answers) {
        FrontRefines(answers, front, behind[0], ticks);
      }
      if !StopsNextNow(clock, answers, behind) {
        RestRefines(answers, FrontAfter(clock, answers, front, behind[0]),
                    FrontAfter(full, answers, fullFront, PendingOf(behind, ticks)[0]),
                    BehindAfter(clock, answers, behind), ticks);
      }
    }
  }

  /** So does the walk over the whole list. */
  lemma CourseRefines<A>(answers: map<A, Answer<A>>, waits: seq<Wait<A, Timer>>, ticks: nat)
    requires AllOnTime(ticks, waits)
    ensures var clock, full := TimerClock((ticks + 1) % WRAP), DeadlineClock(ticks + 1);
            var c, d := CourseOf(clock, answers, [], waits), CourseOf(full, answers, [], PendingOf(waits, ticks));
            && (StopsNext(clock, answers, waits) <==> StopsNext(full, answers, PendingOf(waits, ticks)))
            && c.calls == d.calls && c.visits == d.visits && c.acts == d.acts
            && (ShortAnswers(answers) && !StopsNext(clock, answers, waits) ==>
                  AllOnTime(ticks + 1, c.list) && PendingOf(c.list, ticks + 1) == d.list)
  {
    RestRefines(answers, [], [], waits, ticks);
  }

  /** Times stay in range. */
  lemma {:induction false} CourseInRange<A>(answers: map<A, Answer<A>>, front: seq<Wait<A, Timer>>,
                                            behind: seq<Wait<A, Timer>>, ticks: nat)
    requires AllInRange(front) && AllInRange(behind)
    ensures AllInRange(CourseOf(TimerClock(ticks % WRAP), answers, front, behind).list)
    decreases |behind|
  {
    if behind != [] {
      var clock, w := TimerClock(ticks % WRAP), behind[0];
      var acts, own := ActsOf(clock, answers, w), OwnAfter(clock, w, AnswerOf(answers, w.alarm));
      ActedRefines(front, acts, ticks);
      KeptInTime(behind[1..], acts, ticks);
      PendingSplit(Acted(clock, front, acts), own, ticks);
      PendingSplit(FrontAfter(clock, answers, front, w), BehindAfter(clock, answers, behind), ticks);
      CourseInRange(answers, FrontAfter(clock, answers, front, w), BehindAfter(clock, answers, behind), ticks);
    }
  }
}
