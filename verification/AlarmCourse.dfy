/**
 The course of one tick: which alarms the walk over the list visits, which of them it calls, and what
 the callbacks, which may start and stop alarms, make of the list.

 This is stated for any kind of clock, so that the 32-bit times of the code and the unbounded
 deadlines that they stand for go through the same course.
 */
module AlarmCourse {
  import opened Arithmetic

  /** An alarm and the time it waits for. */
  datatype Wait<A, T> = Wait(alarm: A, time: T)

  /** A request to be called n + 1 ticks from now. */
  datatype Request<A> = Request(alarm: A, n: u32)

  /** Something that a callback does. */
  datatype Act<A> = Starts(request: Request<A>) | Stops(alarm: A)

  /** What a callback does, in order, and the interval it asks for; 0 takes its own alarm out. */
  datatype Answer<A> = Answer(acts: seq<Act<A>>, interval: u32)

  /**
   At a tick: whether a time has come, what a visit makes of a time, when the next call comes after an
   interval, and the time for a wait that starts now.
   */
  datatype Clock<!T> = Clock(due: T -> bool, passed: T -> T, again: (T, u32) -> T, first: u32 -> T)

  /** What the callback of an alarm does in this tick. */
  function AnswerOf<A(==)>(answers: map<A, Answer<A>>, a: A): Answer<A> {
    if a in answers then answers[a] else Answer([], 0)
  }

  function AlarmOf<A>(act: Act<A>): A {
    match act
    case Starts(r) => r.alarm
    case Stops(a) => a
  }

  /** The acts have to do with the alarm. */
  ghost predicate Mentions<A>(acts: seq<Act<A>>, a: A) {
    exists i :: 0 <= i < |acts| && AlarmOf(acts[i]) == a
  }

  ghost predicate Absent<A, T>(list: seq<Wait<A, T>>, a: A) {
    forall k :: 0 <= k < |list| ==> list[k].alarm != a
  }

  /** No alarm is in the list twice. */
  ghost predicate NoRepeat<A, T>(list: seq<Wait<A, T>>) {
    forall i, j :: 0 <= i < j < |list| ==> list[i].alarm != list[j].alarm
  }

  // ---------------------------------------------------------------- what callbacks do to a list

  /** The alarms of a list that the acts do not stop. */
  ghost function Kept<A, T>(list: seq<Wait<A, T>>, acts: seq<Act<A>>): (kept: seq<Wait<A, T>>)
    ensures |kept| <= |list|
  {
    if list == [] then []
    else if Stops(list[0].alarm) in acts then Kept(list[1..], acts)
    else [list[0]] + Kept(list[1..], acts)
  }

  /** The list after one act: an alarm that is started becomes the first. */
  ghost function ActedOnce<A, T>(clock: Clock<T>, list: seq<Wait<A, T>>, act: Act<A>): seq<Wait<A, T>> {
    match act
    case Starts(r) => [Wait(r.alarm, clock.first(r.n))] + list
    case Stops(_) => Kept(list, [act])
  }

  ghost function Acted<A, T>(clock: Clock<T>, list: seq<Wait<A, T>>, acts: seq<Act<A>>): seq<Wait<A, T>> {
    if acts == [] then list
    else ActedOnce(clock, Acted(clock, list, acts[..|acts| - 1]), acts[|acts| - 1])
  }

  /** The acts start no alarm that is in the list then, and none of the others. */
  ghost predicate LegalActs<A, T>(clock: Clock<T>, list: seq<Wait<A, T>>, acts: seq<Act<A>>, barred: set<A>) {
    acts != [] ==>
      var before, last := acts[..|acts| - 1], acts[|acts| - 1];
      && LegalActs(clock, list, before, barred)
      && (last.Starts? ==>
            last.request.alarm !in barred && Absent(Acted(clock, list, before), last.request.alarm))
  }

  // ---------------------------------------------------------------- the walk

  /** The waits after a visit: those before the alarm, its own, and those behind it. */
  ghost function Seen<A, T>(clock: Clock<T>, w: Wait<A, T>): Wait<A, T> {
    w.(time := clock.passed(w.time))
  }

  ghost function ActsOf<A, T>(clock: Clock<T>, answers: map<A, Answer<A>>, w: Wait<A, T>): seq<Act<A>> {
    if clock.due(w.time) then AnswerOf(answers, w.alarm).acts else []
  }

  ghost function CallOf<A, T>(clock: Clock<T>, w: Wait<A, T>): seq<A> {
    if clock.due(w.time) then [w.alarm] else []
  }

  /** What a visit leaves of the alarm's own wait. */
  ghost function OwnAfter<A, T>(clock: Clock<T>, w: Wait<A, T>, answer: Answer<A>): seq<Wait<A, T>> {
    if !clock.due(w.time) then [Seen(clock, w)]
    else if Stops(w.alarm) in answer.acts || answer.interval == 0 then []
    else [w.(time := clock.again(Seen(clock, w).time, answer.interval))]
  }

  ghost function FrontAfter<A, T>(clock: Clock<T>, answers: map<A, Answer<A>>, front: seq<Wait<A, T>>,
                                  w: Wait<A, T>): seq<Wait<A, T>>
  {
    Acted(clock, front, ActsOf(clock, answers, w)) + OwnAfter(clock, w, AnswerOf(answers, w.alarm))
  }

  ghost function BehindAfter<A, T>(clock: Clock<T>, answers: map<A, Answer<A>>, behind: seq<Wait<A, T>>)
    : (after: seq<Wait<A, T>>)
    requires behind != []
    ensures |after| < |behind|
  {
    Kept(behind[1..], ActsOf(clock, answers, behind[0]))
  }

  /** The callback is made, and stops the alarm right behind its own. */
  ghost predicate StopsNextNow<A, T>(clock: Clock<T>, answers: map<A, Answer<A>>, behind: seq<Wait<A, T>>) {
    |behind| > 1 && Stops(behind[1].alarm) in ActsOf(clock, answers, behind[0])
  }

  /** Some callback that is made in the walk does so. */
  ghost predicate StopsNext<A, T>(clock: Clock<T>, answers: map<A, Answer<A>>, behind: seq<Wait<A, T>>)
    decreases |behind|
  {
    behind != [] && (StopsNextNow(clock, answers, behind)
                     || StopsNext(clock, answers, BehindAfter(clock, answers, behind)))
  }

  /** The list after a walk, the callbacks made, the alarms visited, and what the callbacks did. */
  datatype Course<A, T> = Course(list: seq<Wait<A, T>>, calls: seq<A>, visits: seq<A>, acts: seq<Act<A>>)

  /** One course after another. */
  ghost function Joined<A, T>(c: Course<A, T>, d: Course<A, T>): Course<A, T> {
    Course(d.list, c.calls + d.calls, c.visits + d.visits, c.acts + d.acts)
  }

  /** One visit. */
  ghost function VisitOf<A, T>(clock: Clock<T>, answers: map<A, Answer<A>>, front: seq<Wait<A, T>>,
                               behind: seq<Wait<A, T>>): Course<A, T>
    requires behind != []
  {
    Course(FrontAfter(clock, answers, front, behind[0]) + BehindAfter(clock, answers, behind),
           CallOf(clock, behind[0]), [behind[0].alarm], ActsOf(clock, answers, behind[0]))
  }

  /**
   The walk over the alarms of "behind", with those of "front" in front of them.  It is followed up to
   a callback that stops the alarm right behind its own.
   */
  ghost function CourseOf<A, T>(clock: Clock<T>, answers: map<A, Answer<A>>, front: seq<Wait<A, T>>,
                                behind: seq<Wait<A, T>>): Course<A, T>
    decreases |behind|
  {
    if behind == [] then Course(front, [], [], [])
    else
      var visit := VisitOf(clock, answers, front, behind);
      if StopsNextNow(clock, answers, behind) then visit
      else
        Joined(visit, CourseOf(clock, answers, FrontAfter(clock, answers, front, behind[0]),
                               BehindAfter(clock, answers, behind)))
  }

  /** The alarm, no longer in the list, that the walk has the link to when its last callback has stopped it. */
  ghost function StuckAt<A, T>(clock: Clock<T>, answers: map<A, Answer<A>>, behind: seq<Wait<A, T>>): Wait<A, T>
    requires StopsNext(clock, answers, behind)
    decreases |behind|
  {
    if StopsNextNow(clock, answers, behind) then behind[1]
    else StuckAt(clock, answers, BehindAfter(clock, answers, behind))
  }

  /** The alarm itself and the one right behind it. */
  function Close<A, T>(behind: seq<Wait<A, T>>): set<A>
    requires behind != []
  {
    {behind[0].alarm} + if |behind| > 1 then {behind[1].alarm} else {}
  }

  /** In all callbacks of a walk, no alarm is started that is registered, and neither of these two. */
  ghost predicate Legal<A, T>(clock: Clock<T>, answers: map<A, Answer<A>>, front: seq<Wait<A, T>>,
                              behind: seq<Wait<A, T>>, barred: set<A>)
    decreases |behind|
  {
    behind != [] ==>
      && LegalActs(clock, front + [Seen(clock, behind[0])] + behind[1..], ActsOf(clock, answers, behind[0]),
                   barred + Close(behind))
      && (!StopsNextNow(clock, answers, behind) ==>
            Legal(clock, answers, FrontAfter(clock, answers, front, behind[0]),
                  BehindAfter(clock, answers, behind), barred))
  }

  /** An alarm that is in no list, after a visit. */
  ghost function StrayAfter<A, T>(clock: Clock<T>, at: Wait<A, T>, answer: Answer<A>): Wait<A, T> {
    if clock.due(at.time) && answer.interval != 0 then
      at.(time := clock.again(Seen(clock, at).time, answer.interval))
    else Seen(clock, at)
  }

  /** The same of further callbacks of one alarm that is in no list. */
  ghost predicate LegalLater<A, T>(clock: Clock<T>, list: seq<Wait<A, T>>, at: Wait<A, T>,
                                   later: seq<Answer<A>>, barred: set<A>)
    decreases |later|
  {
    later != [] ==>
      var acts := if clock.due(at.time) then later[0].acts else [];
      && LegalActs(clock, list, acts, barred + {at.alarm})
      && LegalLater(clock, Acted(clock, list, acts), StrayAfter(clock, at, later[0]), later[1..], barred)
  }

  // ---------------------------------------------------------------- about acts

  lemma {:induction false} KeptSplit<A, T>(x: seq<Wait<A, T>>, y: seq<Wait<A, T>>, acts: seq<Act<A>>)
    ensures Kept(x + y, acts) == Kept(x, acts) + Kept(y, acts)
    decreases |x|
  {
    if x == [] {
      assert x + y == y;
    } else {
      assert (x + y)[1..] == x[1..] + y;
      KeptSplit(x[1..], y, acts);
    }
  }

  lemma {:induction false} KeptNone<A, T>(list: seq<Wait<A, T>>)
    ensures Kept(list, []) == list
  {
    if list != [] {
      KeptNone(list[1..]);
    }
  }

  lemma {:induction false} KeptNext<A, T>(list: seq<Wait<A, T>>, acts: seq<Act<A>>, act: Act<A>)
    ensures Kept(list, acts + [act]) == if act.Starts? then Kept(list, acts) else Kept(Kept(list, acts), [act])
    decreases |list|
  {
    if list != [] {
      KeptNext(list[1..], acts, act);
      assert Stops(list[0].alarm) in acts + [act] <==> Stops(list[0].alarm) in acts || Stops(list[0].alarm) == act;
      if Stops(list[0].alarm) !in acts && act.Stops? {
        KeptSplit([list[0]], Kept(list[1..], acts), [act]);
        KeptOne(list[0], [act]);
      }
    }
  }

  lemma KeptOne<A, T>(w: Wait<A, T>, acts: seq<Act<A>>)
    ensures Kept([w], acts) == if Stops(w.alarm) in acts then [] else [w]
  {
    assert [w][1..] == [];
  }

  /** What is started goes in front, what is stopped goes from anywhere. */
  lemma {:induction false} ActedSplit<A, T>(clock: Clock<T>, x: seq<Wait<A, T>>, y: seq<Wait<A, T>>,
                                            acts: seq<Act<A>>)
    ensures Acted(clock, x + y, acts) == Acted(clock, x, acts) + Kept(y, acts)
    decreases |acts|
  {
    if acts == [] {
      KeptNone(y);
    } else {
      var before, last := acts[..|acts| - 1], acts[|acts| - 1];
      ActedSplit(clock, x, y, before);
      KeptNext(y, before, last);
      assert acts == before + [last];
      if last.Stops? {
        KeptSplit(Acted(clock, x, before), Kept(y, before), [last]);
      }
    }
  }

  /** An alarm that stays is still the first of those behind. */
  lemma KeptFirst<A, T>(list: seq<Wait<A, T>>, acts: seq<Act<A>>)
    requires list != [] && Stops(list[0].alarm) !in acts
    ensures Kept(list, acts) != [] && Kept(list, acts)[0] == list[0]
  {
  }

  lemma {:induction false} KeptAbsent<A, T>(list: seq<Wait<A, T>>, acts: seq<Act<A>>, a: A)
    requires Absent(list, a) || Stops(a) in acts
    ensures Absent(Kept(list, acts), a)
    decreases |list|
  {
    if list != [] {
      assert Absent(list, a) ==> Absent(list[1..], a);
      KeptAbsent(list[1..], acts, a);
    }
  }

  // ---------------------------------------------------------------- which alarms have their turn

  /** A callback made before the turn of alarm a stops it. */
  ghost predicate StoppedFirst<A, T>(clock: Clock<T>, answers: map<A, Answer<A>>, behind: seq<Wait<A, T>>, a: A)
    decreases |behind|
  {
    && behind != [] && behind[0].alarm != a
    && (Stops(a) in ActsOf(clock, answers, behind[0])
        || StoppedFirst(clock, answers, BehindAfter(clock, answers, behind), a))
  }

  /** Of the alarms of "list", in order, those not stopped before their turn; on demand only those due. */
  ghost function InTurn<A, T>(clock: Clock<T>, answers: map<A, Answer<A>>, list: seq<Wait<A, T>>,
                              behind: seq<Wait<A, T>>, dueOnly: bool): seq<A>
  {
    if list == [] then []
    else
      (if StoppedFirst(clock, answers, behind, list[0].alarm) || (dueOnly && !clock.due(list[0].time)) then []
       else [list[0].alarm])
      + InTurn(clock, answers, list[1..], behind, dueOnly)
  }

  /**
   A walk in which no callback stops the alarm right behind its own visits each alarm once, in order,
   unless a callback before its turn stops it; and it calls those of them that are due.
   */
  lemma {:induction false} EachHasItsTurn<A, T>(clock: Clock<T>, answers: map<A, Answer<A>>, front: seq<Wait<A, T>>,
                                                behind: seq<Wait<A, T>>)
    requires NoRepeat(behind) && !StopsNext(clock, answers, behind)
    ensures CourseOf(clock, answers, front, behind).visits == InTurn(clock, answers, behind, behind, false)
    ensures CourseOf(clock, answers, front, behind).calls == InTurn(clock, answers, behind, behind, true)
    decreases |behind|
  {
    if behind != [] {
      var w, rest := behind[0], BehindAfter(clock, answers, behind);
      KeptNoRepeat(behind[1..], ActsOf(clock, answers, w));
      EachHasItsTurn(clock, answers, FrontAfter(clock, answers, front, w), rest);
      OthersInTurn(clock, answers, behind[1..], behind, false);
      OthersInTurn(clock, answers, behind[1..], behind, true);
    }
  }

  /** From the second alarm on, whether an alarm has its turn is decided by the rest of the walk. */
  lemma {:induction false} OthersInTurn<A, T>(clock: Clock<T>, answers: map<A, Answer<A>>, list: seq<Wait<A, T>>,
                                              behind: seq<Wait<A, T>>, dueOnly: bool)
    requires behind != [] && Absent(list, behind[0].alarm)
    ensures InTurn(clock, answers, list, behind, dueOnly)
         == InTurn(clock, answers, Kept(list, ActsOf(clock, answers, behind[0])),
                   BehindAfter(clock, answers, behind), dueOnly)
    decreases |list|
  {
    if list != [] {
      assert Absent(list[1..], behind[0].alarm);
      OthersInTurn(clock, answers, list[1..], behind, dueOnly);
    }
  }

  lemma {:induction false} KeptNoRepeat<A, T>(list: seq<Wait<A, T>>, acts: seq<Act<A>>)
    requires NoRepeat(list)
    ensures NoRepeat(Kept(list, acts))
    decreases |list|
  {
    if list != [] {
      KeptNoRepeat(list[1..], acts);
      KeptAbsent(list[1..], acts, list[0].alarm);
    }
  }

  /** An alarm is called exactly if it is due and not stopped before its turn, and then once. */
  lemma CalledInTurn<A, T>(clock: Clock<T>, answers: map<A, Answer<A>>, front: seq<Wait<A, T>>,
                           behind: seq<Wait<A, T>>, k: nat)
    requires NoRepeat(behind) && !StopsNext(clock, answers, behind) && k < |behind|
    ensures var a, c := behind[k].alarm, CourseOf(clock, answers, front, behind);
            && multiset(c.visits)[a] == (if StoppedFirst(clock, answers, behind, a) then 0 else 1)
            && multiset(c.calls)[a]
               == (if StoppedFirst(clock, answers, behind, a) || !clock.due(behind[k].time) then 0 else 1)
  {
    EachHasItsTurn(clock, answers, front, behind);
    TurnsOfOne(clock, answers, behind, behind, k, false);
    TurnsOfOne(clock, answers, behind, behind, k, true);
  }

  lemma {:induction false} TurnsOfOne<A, T>(clock: Clock<T>, answers: map<A, Answer<A>>, list: seq<Wait<A, T>>,
                                            behind: seq<Wait<A, T>>, k: nat, dueOnly: bool)
    requires NoRepeat(list) && k < |list|
    ensures multiset(InTurn(clock, answers, list, behind, dueOnly))[list[k].alarm]
         == (if StoppedFirst(clock, answers, behind, list[k].alarm) || (dueOnly && !clock.due(list[k].time)) then 0
             else 1)
    decreases |list|
  {
    if k == 0 {
      TurnsOfNone(clock, answers, list[1..], behind, list[0].alarm, dueOnly);
    } else {
      TurnsOfOne(clock, answers, list[1..], behind, k - 1, dueOnly);
    }
  }

  lemma {:induction false} TurnsOfNone<A, T>(clock: Clock<T>, answers: map<A, Answer<A>>, list: seq<Wait<A, T>>,
                                             behind: seq<Wait<A, T>>, a: A, dueOnly: bool)
    requires Absent(list, a)
    ensures multiset(InTurn(clock, answers, list, behind, dueOnly))[a] == 0
    decreases |list|
  {
    if list != [] {
      assert Absent(list[1..], a);
      TurnsOfNone(clock, answers, list[1..], behind, a, dueOnly);
    }
  }

  // ---------------------------------------------------------------- an alarm that is left alone

  /** The waits of one alarm. */
  ghost function WaitsOf<A, T>(list: seq<Wait<A, T>>, a: A): seq<Wait<A, T>> {
    if list == [] then []
    else if list[0].alarm == a then [list[0]] + WaitsOf(list[1..], a)
    else WaitsOf(list[1..], a)
  }

  lemma {:induction false} WaitsSplit<A, T>(x: seq<Wait<A, T>>, y: seq<Wait<A, T>>, a: A)
    ensures WaitsOf(x + y, a) == WaitsOf(x, a) + WaitsOf(y, a)
    decreases |x|
  {
    if x == [] {
      assert x + y == y;
    } else {
      assert (x + y)[1..] == x[1..] + y;
      WaitsSplit(x[1..], y, a);
    }
  }

  lemma {:induction false} KeptLeaves<A, T>(list: seq<Wait<A, T>>, acts: seq<Act<A>>, a: A)
    requires !Mentions(acts, a)
    ensures WaitsOf(Kept(list, acts), a) == WaitsOf(list, a)
    decreases |list|
  {
    if list != [] {
      KeptLeaves(list[1..], acts, a);
      if Stops(list[0].alarm) in acts {
        var i :| 0 <= i < |acts| && acts[i] == Stops(list[0].alarm);
        assert AlarmOf(acts[i]) != a;
      }
    }
  }

  lemma {:induction false} ActedLeaves<A, T>(clock: Clock<T>, list: seq<Wait<A, T>>, acts: seq<Act<A>>, a: A)
    requires !Mentions(acts, a)
    ensures WaitsOf(Acted(clock, list, acts), a) == WaitsOf(list, a)
    decreases |acts|
  {
    if acts != [] {
      var before, last := acts[..|acts| - 1], acts[|acts| - 1];
      MentionsInTwo(before, [last], a);
      assert acts == before + [last];
      ActedLeaves(clock, list, before, a);
      if last.Stops? {
        KeptLeaves(Acted(clock, list, before), [last], a);
      } else {
        assert [last][0] == last;
        WaitsSplit([Wait(last.request.alarm, clock.first(last.request.n))], Acted(clock, list, before), a);
      }
    }
  }

  lemma MentionsInTwo<A>(x: seq<Act<A>>, y: seq<Act<A>>, a: A)
    ensures Mentions(x + y, a) <==> Mentions(x, a) || Mentions(y, a)
  {
    if Mentions(x, a) {
      var i :| 0 <= i < |x| && AlarmOf(x[i]) == a;
      assert AlarmOf((x + y)[i]) == a;
    }
    if Mentions(y, a) {
      var i :| 0 <= i < |y| && AlarmOf(y[i]) == a;
      assert AlarmOf((x + y)[|x| + i]) == a;
    }
  }

  /** In a walk whose callbacks leave it alone, an alarm that is not met is not called and keeps its wait. */
  lemma {:induction false} CourseLeavesOthers<A, T>(clock: Clock<T>, answers: map<A, Answer<A>>,
                                                    front: seq<Wait<A, T>>, behind: seq<Wait<A, T>>, a: A)
    requires !StopsNext(clock, answers, behind) && !Mentions(CourseOf(clock, answers, front, behind).acts, a)
    requires WaitsOf(behind, a) == []
    ensures WaitsOf(CourseOf(clock, answers, front, behind).list, a) == WaitsOf(front, a)
    ensures multiset(CourseOf(clock, answers, front, behind).calls)[a] == 0
    decreases |behind|
  {
    if behind != [] {
      VisitLeaves(clock, answers, front, behind, a);
      CourseLeavesOthers(clock, answers, FrontAfter(clock, answers, front, behind[0]),
                         BehindAfter(clock, answers, behind), a);
    }
  }

  /** One that is met is called exactly if it is due, and then waits as its callback asked. */
  lemma {:induction false} CourseLeaves<A, T>(clock: Clock<T>, answers: map<A, Answer<A>>, front: seq<Wait<A, T>>,
                                              behind: seq<Wait<A, T>>, w: Wait<A, T>)
    requires !StopsNext(clock, answers, behind)
    requires !Mentions(CourseOf(clock, answers, front, behind).acts, w.alarm) && WaitsOf(behind, w.alarm) == [w]
    ensures WaitsOf(CourseOf(clock, answers, front, behind).list, w.alarm)
         == WaitsOf(front, w.alarm) + OwnAfter(clock, w, AnswerOf(answers, w.alarm))
    ensures multiset(CourseOf(clock, answers, front, behind).calls)[w.alarm] == if clock.due(w.time) then 1 else 0
    ensures clock.due(w.time) ==> Stops(w.alarm) !in AnswerOf(answers, w.alarm).acts
    decreases |behind|
  {
    var front', behind' := FrontAfter(clock, answers, front, behind[0]), BehindAfter(clock, answers, behind);
    VisitLeaves(clock, answers, front, behind, w.alarm);
    if behind[0].alarm == w.alarm {
      FirstIsSole(behind, w);
      CourseLeavesOthers(clock, answers, front', behind', w.alarm);
    } else {
      CourseLeaves(clock, answers, front', behind', w);
    }
  }

  lemma FirstIsSole<A, T>(list: seq<Wait<A, T>>, w: Wait<A, T>)
    requires list != [] && list[0].alarm == w.alarm && WaitsOf(list, w.alarm) == [w]
    ensures list[0] == w && WaitsOf(list[1..], w.alarm) == []
  {
    var rest := WaitsOf(list[1..], w.alarm);
    assert ([list[0]] + rest)[0] == list[0] && |[list[0]] + rest| == 1 + |rest|;
  }

  lemma VisitLeaves<A, T>(clock: Clock<T>, answers: map<A, Answer<A>>, front: seq<Wait<A, T>>,
                          behind: seq<Wait<A, T>>, a: A)
    requires behind != [] && !StopsNextNow(clock, answers, behind)
    requires !Mentions(CourseOf(clock, answers, front, behind).acts, a)
    ensures var w, behind' := behind[0], BehindAfter(clock, answers, behind);
            var front' := FrontAfter(clock, answers, front, w);
            && !Mentions(CourseOf(clock, answers, front', behind').acts, a)
            && WaitsOf(behind', a) == WaitsOf(behind[1..], a)
            && WaitsOf(front', a)
               == WaitsOf(front, a) + if w.alarm == a then OwnAfter(clock, w, AnswerOf(answers, a)) else []
    ensures Stops(a) !in ActsOf(clock, answers, behind[0])
  {
    var w, acts := behind[0], ActsOf(clock, answers, behind[0]);
    if Stops(a) in acts {
      var i :| 0 <= i < |acts| && acts[i] == Stops(a);
      assert AlarmOf(acts[i]) == a;
    }
    MentionsInTwo(acts, CourseOf(clock, answers, FrontAfter(clock, answers, front, w),
                                 BehindAfter(clock, answers, behind)).acts, a);
    KeptLeaves(behind[1..], acts, a);
    ActedLeaves(clock, front, acts, a);
    OwnLeaves(clock, answers, w, a);
    WaitsSplit(Acted(clock, front, acts), OwnAfter(clock, w, AnswerOf(answers, w.alarm)), a);
  }

  lemma OwnLeaves<A, T>(clock: Clock<T>, answers: map<A, Answer<A>>, w: Wait<A, T>, a: A)
    ensures var own := OwnAfter(clock, w, AnswerOf(answers, w.alarm));
            WaitsOf(own, a) == if w.alarm == a then own else []
  {
  }

  // ---------------------------------------------------------------- alarms started during the walk

  /** Only alarms that the walk meets are called. */
  lemma {:induction false} OnlyMetAreCalled<A, T>(clock: Clock<T>, answers: map<A, Answer<A>>,
                                                  front: seq<Wait<A, T>>, behind: seq<Wait<A, T>>, a: A)
    requires Absent(behind, a)
    ensures a !in CourseOf(clock, answers, front, behind).visits && a !in CourseOf(clock, answers, front, behind).calls
    decreases |behind|
  {
    if behind != [] {
      assert Absent(behind[1..], a);
      KeptAbsent(behind[1..], ActsOf(clock, answers, behind[0]), a);
      OnlyMetAreCalled(clock, answers, FrontAfter(clock, answers, front, behind[0]),
                       BehindAfter(clock, answers, behind), a);
    }
  }

  lemma {:induction false} ActedThen<A, T>(clock: Clock<T>, list: seq<Wait<A, T>>, x: seq<Act<A>>, y: seq<Act<A>>)
    ensures Acted(clock, list, x + y) == Acted(clock, Acted(clock, list, x), y)
    decreases |y|
  {
    if y == [] {
      assert x + y == x;
    } else {
      assert (x + y)[..|x + y| - 1] == x + y[..|y| - 1];
      ActedThen(clock, list, x, y[..|y| - 1]);
    }
  }

  lemma {:induction false} AbsentWaits<A, T>(list: seq<Wait<A, T>>, a: A)
    ensures Absent(list, a) <==> WaitsOf(list, a) == []
    decreases |list|
  {
    if list != [] {
      AbsentWaits(list[1..], a);
      assert Absent(list, a) <==> list[0].alarm != a && Absent(list[1..], a) by {
        assert list == [list[0]] + list[1..];
      }
    }
  }

  lemma {:induction false} LegalUpTo<A, T>(clock: Clock<T>, list: seq<Wait<A, T>>, acts: seq<Act<A>>,
                                           barred: set<A>, j: nat)
    requires LegalActs(clock, list, acts, barred) && j < |acts| && acts[j].Starts?
    ensures acts[j].request.alarm !in barred && Absent(Acted(clock, list, acts[..j]), acts[j].request.alarm)
    decreases |acts|
  {
    if j < |acts| - 1 {
      LegalUpTo(clock, list, acts[..|acts| - 1], barred, j);
      assert acts[..|acts| - 1][..j] == acts[..j];
    }
  }

  /** An alarm that is started, and left alone after that, has the wait it was started for and no other. */
  lemma StartedWaits<A, T>(clock: Clock<T>, list: seq<Wait<A, T>>, acts: seq<Act<A>>, j: nat)
    requires j < |acts| && acts[j].Starts? && !Mentions(acts[j + 1..], acts[j].request.alarm)
    requires WaitsOf(Acted(clock, list, acts[..j]), acts[j].request.alarm) == []
    ensures var r := acts[j].request;
            WaitsOf(Acted(clock, list, acts), r.alarm) == [Wait(r.alarm, clock.first(r.n))]
  {
    var r, before := acts[j].request, Acted(clock, list, acts[..j]);
    var started := Acted(clock, list, acts[..j + 1]);
    assert acts[..j + 1][..j] == acts[..j];
    assert started == [Wait(r.alarm, clock.first(r.n))] + before;
    assert acts == acts[..j + 1] + acts[j + 1..];
    ActedThen(clock, list, acts[..j + 1], acts[j + 1..]);
    ActedLeaves(clock, started, acts[j + 1..], r.alarm);
  }

  lemma {:induction false} KeptThen<A, T>(list: seq<Wait<A, T>>, x: seq<Act<A>>, y: seq<Act<A>>)
    ensures Kept(list, x + y) == Kept(Kept(list, x), y)
    decreases |list|
  {
    if list != [] {
      KeptThen(list[1..], x, y);
      assert Stops(list[0].alarm) in x + y <==> Stops(list[0].alarm) in x || Stops(list[0].alarm) in y;
    }
  }

  /** So has one that a callback of the walk starts and that is left alone after that. */
  lemma {:induction false} NewcomerWaits<A, T>(clock: Clock<T>, answers: map<A, Answer<A>>, front: seq<Wait<A, T>>,
                                               behind: seq<Wait<A, T>>, barred: set<A>, j: nat)
    requires Legal(clock, answers, front, behind, barred) && !StopsNext(clock, answers, behind)
    requires var acts := CourseOf(clock, answers, front, behind).acts;
             j < |acts| && acts[j].Starts? && !Mentions(acts[j + 1..], acts[j].request.alarm)
    ensures var c := CourseOf(clock, answers, front, behind);
            WaitsOf(c.list, c.acts[j].request.alarm)
            == [Wait(c.acts[j].request.alarm, clock.first(c.acts[j].request.n))]
    decreases |behind|
  {
    var w, acts := behind[0], ActsOf(clock, answers, behind[0]);
    var front', behind' := FrontAfter(clock, answers, front, w), BehindAfter(clock, answers, behind);
    var later := CourseOf(clock, answers, front', behind').acts;
    var all := acts + later;
    if j < |acts| {
      var r := acts[j].request;
      assert all[j + 1..] == acts[j + 1..] + later;
      MentionsInTwo(acts[j + 1..], later, r.alarm);
      StartedInVisit(clock, answers, front, behind, barred, j);
      CourseLeavesOthers(clock, answers, front', behind', r.alarm);
    } else {
      assert all[j + 1..] == later[j - |acts| + 1..] && all[j] == later[j - |acts|];
      NewcomerWaits(clock, answers, front', behind', barred, j - |acts|);
    }
  }

  lemma StartedInVisit<A, T>(clock: Clock<T>, answers: map<A, Answer<A>>, front: seq<Wait<A, T>>,
                             behind: seq<Wait<A, T>>, barred: set<A>, j: nat)
    requires behind != [] && Legal(clock, answers, front, behind, barred)
    requires var acts := ActsOf(clock, answers, behind[0]);
             j < |acts| && acts[j].Starts? && !Mentions(acts[j + 1..], acts[j].request.alarm)
    ensures var r := ActsOf(clock, answers, behind[0])[j].request;
            && WaitsOf(FrontAfter(clock, answers, front, behind[0]), r.alarm) == [Wait(r.alarm, clock.first(r.n))]
            && WaitsOf(BehindAfter(clock, answers, behind), r.alarm) == []
  {
    var w, acts := behind[0], ActsOf(clock, answers, behind[0]);
    var a, x, y := acts[j].request.alarm, front + [Seen(clock, w)], behind[1..];
    LegalUpTo(clock, x + y, acts, barred + Close(behind), j);
    NowhereBefore(clock, front, Seen(clock, w), y, acts[..j], a);
    StartedWaits(clock, front, acts, j);
    assert acts == acts[..j] + acts[j..];
    KeptThen(y, acts[..j], acts[j..]);
    AbsentWaits(Kept(y, acts[..j]), a);
    KeptAbsent(Kept(y, acts[..j]), acts[j..], a);
    AbsentWaits(BehindAfter(clock, answers, behind), a);
    OwnLeaves(clock, answers, w, a);
    WaitsSplit(Acted(clock, front, acts), OwnAfter(clock, w, AnswerOf(answers, w.alarm)), a);
  }

  /** What is nowhere in a list is not in its parts. */
  lemma NowhereBefore<A, T>(clock: Clock<T>, front: seq<Wait<A, T>>, w: Wait<A, T>, rest: seq<Wait<A, T>>,
                            acts: seq<Act<A>>, a: A)
    requires Absent(Acted(clock, front + [w] + rest, acts), a)
    ensures WaitsOf(Acted(clock, front, acts), a) == [] && WaitsOf(Kept(rest, acts), a) == []
  {
    AbsentWaits(Acted(clock, front + [w] + rest, acts), a);
    ActedSplit(clock, front + [w], rest, acts);
    ActedSplit(clock, front, [w], acts);
    WaitsSplit(Acted(clock, front + [w], acts), Kept(rest, acts), a);
    WaitsSplit(Acted(clock, front, acts), Kept([w], acts), a);
  }
}
