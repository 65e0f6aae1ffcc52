/** `RegistrationSystem` of DSA-project/file.cpp: one global seat, a
    first-in-first-out waitlist and a last-in-first-out undo log.

    Every operation becomes a pure transition from a `State` to a `Step`
    (the next state and an `Outcome`); each `Outcome` stands for one of the
    messages `file.cpp` prints.  The `course` argument is only ever printed by
    the C++ code, so the transitions take it and ignore it.  The undo log is a
    sequence whose LAST element is the top of the stack; the waitlist is a
    sequence whose FIRST element is the front of the queue.  The counters are
    unbounded integers: nothing in the C++ code keeps them inside [0, 1].
 */
module Registration {

  const MaxSeats: int := 1
  const MaxCourses: int := 6

  /** One undo-log entry: the student and whether the logged action gave
      them the seat (`true`) or put them on the waitlist (`false`). */
  datatype Action = Action(student: string, wasRegistered: bool)

  datatype State = State(
    seatsAvailable: int,
    coursesRegistered: int,
    waitlist: seq<string>,
    undoLog: seq<Action>)

  /** The messages an operation reports, one constructor per message. */
  datatype Outcome =
    | CourseLimitReached
    | RegisteredDirectly
    | Waitlisted
    | NotRegistered
    | Dropped
    | DroppedAndPromoted(promoted: string)
    | NothingToUndo
    | UndoneRegistration(student: string)
    | UndoneWaitlist(student: string)

  datatype Step = Step(state: State, outcome: Outcome)

  /** What `displayWaitlist` reports: the empty-waitlist message, or the
      students from front to back. */
  datatype WaitlistView = NoStudents | Listing(students: seq<string>)

  /** The state the constructor builds: the seat free, nothing registered,
      nobody waiting and nothing to undo. */
  function Initial(): (s: State)
    ensures Invariant(s) && s.seatsAvailable == MaxSeats
    ensures |s.waitlist| == 0 && |s.undoLog| == 0
  {
    State(MaxSeats, 0, [], [])
  }

  /** The seat is either free or counted as one registration. */
  ghost predicate Balanced(s: State) {
    s.seatsAvailable + s.coursesRegistered == MaxSeats
  }

  /** What every reachable state satisfies (see `RunKeepsInvariant`). */
  ghost predicate Invariant(s: State) {
    Balanced(s) && s.seatsAvailable >= 0
  }

  /** `registerCourse`. */
  function RegisterCourse(s: State, student: string, course: string): (r: Step)
    ensures r.outcome == CourseLimitReached <==> s.coursesRegistered >= MaxCourses
    ensures r.outcome == CourseLimitReached ==> r.state == s
    ensures r.outcome == RegisteredDirectly <==>
              s.coursesRegistered < MaxCourses && s.seatsAvailable > 0
    ensures r.outcome == RegisteredDirectly ==>
              && r.state.seatsAvailable == s.seatsAvailable - 1
              && r.state.coursesRegistered == s.coursesRegistered + 1
              && r.state.waitlist == s.waitlist
              && r.state.undoLog == s.undoLog + [Action(student, true)]
    ensures r.outcome == Waitlisted <==>
              s.coursesRegistered < MaxCourses && s.seatsAvailable <= 0
    ensures r.outcome == Waitlisted ==>
              && r.state.seatsAvailable == s.seatsAvailable
              && r.state.coursesRegistered == s.coursesRegistered
              && r.state.waitlist == s.waitlist + [student]
              && r.state.undoLog == s.undoLog + [Action(student, false)]
    ensures Balanced(s) ==> Balanced(r.state)
    ensures Invariant(s) ==> Invariant(r.state)
  {
    if s.coursesRegistered >= MaxCourses then
      Step(s, CourseLimitReached)
    else if s.seatsAvailable > 0 then
      Step(s.(seatsAvailable := s.seatsAvailable - 1,
              coursesRegistered := s.coursesRegistered + 1,
              undoLog := s.undoLog + [Action(student, true)]),
           RegisteredDirectly)
    else
      Step(s.(waitlist := s.waitlist + [student],
              undoLog := s.undoLog + [Action(student, false)]),
           Waitlisted)
  }

  /** `dropCourse`.  It never looks at `student`: whoever asks, an occupied
      seat is freed and handed straight to the head of the waitlist, if any. */
  function DropCourse(s: State, student: string, course: string): (r: Step)
    ensures r.outcome == NotRegistered <==> s.seatsAvailable >= MaxSeats
    ensures r.outcome == NotRegistered ==> r.state == s
    ensures r.outcome == Dropped <==> s.seatsAvailable < MaxSeats && |s.waitlist| == 0
    ensures r.outcome == Dropped ==>
              && r.state.seatsAvailable == s.seatsAvailable + 1
              && r.state.coursesRegistered == s.coursesRegistered - 1
              && r.state.waitlist == s.waitlist
              && r.state.undoLog == s.undoLog
    ensures r.outcome.DroppedAndPromoted? <==> s.seatsAvailable < MaxSeats && |s.waitlist| > 0
    ensures r.outcome.DroppedAndPromoted? ==>
              && r.state.seatsAvailable == s.seatsAvailable
              && r.state.coursesRegistered == s.coursesRegistered
              && s.waitlist == [r.outcome.promoted] + r.state.waitlist
              && r.state.undoLog == s.undoLog + [Action(r.outcome.promoted, true)]
    ensures Balanced(s) ==> Balanced(r.state)
    ensures Invariant(s) ==> Invariant(r.state)
  {
    if s.seatsAvailable < MaxSeats then
      var freed := s.(seatsAvailable := s.seatsAvailable + 1,
                      coursesRegistered := s.coursesRegistered - 1);
      if |freed.waitlist| > 0 then
        var next := freed.waitlist[0];
        Step(freed.(waitlist := freed.waitlist[1..],
                    seatsAvailable := freed.seatsAvailable - 1,
                    coursesRegistered := freed.coursesRegistered + 1,
                    undoLog := freed.undoLog + [Action(next, true)]),
             DroppedAndPromoted(next))
      else
        Step(freed, Dropped)
    else
      Step(s, NotRegistered)
  }

  /** The waitlist with the first occurrence of `student` taken out, scanning
      from the front; the rest keep their order (`RemoveFirstAt`).  A student
      who is not on the waitlist leaves it unchanged. */
  function RemoveFirst<T(==)>(w: seq<T>, student: T): (r: seq<T>)
    ensures student !in w ==> r == w
    ensures student in w ==> |r| == |w| - 1
  {
    if |w| == 0 then []
    else if w[0] == student then
      assert w == [w[0]] + w[1..];
      w[1..]
    else
      assert w == [w[0]] + w[1..];
      [w[0]] + RemoveFirst(w[1..], student)
  }

  /** When `i` is the first position holding `student`, the result is the
      waitlist with exactly position `i` cut out. */
  lemma {:induction false} RemoveFirstAt<T>(w: seq<T>, student: T, i: int)
    requires 0 <= i < |w| && w[i] == student && student !in w[..i]
    ensures RemoveFirst(w, student) == w[..i] + w[i + 1..]
  {
    if i > 0 {
      assert w[0] in w[..i];
      assert w[1..][..i - 1] == w[1..i];
      RemoveFirstAt(w[1..], student, i - 1);
      assert w[..i] == [w[0]] + w[1..i];
      assert w[i + 1..] == w[1..][i..];
    }
  }

  /** Exactly one copy of `student` leaves the waitlist, if there is one. */
  lemma {:induction false} RemoveFirstMultiset<T>(w: seq<T>, student: T)
    ensures multiset(RemoveFirst(w, student)) == multiset(w) - multiset{student}
  {
    if |w| > 0 {
      assert w == [w[0]] + w[1..];
      RemoveFirstMultiset(w[1..], student);
    }
  }

  /** The loop of `undo` that rebuilds the waitlist through a temporary queue,
      dropping the first entry equal to `student`; `found` records whether one
      was dropped. */
  method RemoveFirstFromQueue(waitlist: seq<string>, student: string)
    returns (rest: seq<string>, found: bool)
    ensures rest == RemoveFirst(waitlist, student)
    ensures found <==> student in waitlist
  {
    var queue := waitlist;
    var temp: seq<string> := [];
    found := false;
    ghost var k := 0;
    while |queue| > 0
      invariant 0 <= k <= |waitlist| && queue == waitlist[k..]
      invariant found <==> student in waitlist[..k]
      invariant temp == RemoveFirst(waitlist[..k], student)
      decreases |queue|
    {
      assert queue[0] == waitlist[k];
      assert waitlist[..k + 1] == waitlist[..k] + [waitlist[k]];
      RemoveFirstSnoc(waitlist[..k], queue[0], student);
      if queue[0] == student && !found {
        found := true;
      } else {
        temp := temp + [queue[0]];
      }
      queue := queue[1..];
      k := k + 1;
    }
    assert waitlist[..k] == waitlist;
    rest := temp;
  }

  /** Removing the first occurrence from a waitlist extended at the back: the
      new last student is dropped only if it is the first occurrence. */
  lemma {:induction false} RemoveFirstSnoc<T>(w: seq<T>, x: T, student: T)
    ensures RemoveFirst(w + [x], student)
            == if x == student && student !in w then RemoveFirst(w, student)
               else RemoveFirst(w, student) + [x]
  {
    if |w| > 0 {
      assert (w + [x])[1..] == w[1..] + [x];
      RemoveFirstSnoc(w[1..], x, student);
      assert w == [w[0]] + w[1..];
    }
  }

  /** `undo`: pop the top of the undo log and reverse it.  Reversing a seat
      grant frees the seat and sends the student to the BACK of the waitlist,
      without offering the seat to the waitlist's head; reversing a waitlist
      entry removes the student's first occurrence from the waitlist. */
  function Undo(s: State, course: string): (r: Step)
    ensures r.outcome == NothingToUndo <==> |s.undoLog| == 0
    ensures r.outcome == NothingToUndo ==> r.state == s
    ensures |s.undoLog| > 0 ==> r.state.undoLog + [s.undoLog[|s.undoLog| - 1]] == s.undoLog
    ensures r.outcome.UndoneRegistration? <==>
              |s.undoLog| > 0 && s.undoLog[|s.undoLog| - 1].wasRegistered
    ensures r.outcome.UndoneRegistration? ==>
              && s.undoLog[|s.undoLog| - 1].student == r.outcome.student
              && r.state.seatsAvailable == s.seatsAvailable + 1
              && r.state.coursesRegistered == s.coursesRegistered - 1
              && r.state.waitlist == s.waitlist + [r.outcome.student]
    ensures r.outcome.UndoneWaitlist? <==>
              |s.undoLog| > 0 && !s.undoLog[|s.undoLog| - 1].wasRegistered
    ensures r.outcome.UndoneWaitlist? ==>
              && s.undoLog[|s.undoLog| - 1].student == r.outcome.student
              && r.state.seatsAvailable == s.seatsAvailable
              && r.state.coursesRegistered == s.coursesRegistered
              && r.state.waitlist == RemoveFirst(s.waitlist, r.outcome.student)
    ensures Balanced(s) ==> Balanced(r.state)
    ensures Invariant(s) ==> Invariant(r.state)
  {
    if |s.undoLog| == 0 then
      Step(s, NothingToUndo)
    else
      var last := s.undoLog[|s.undoLog| - 1];
      var popped := s.(undoLog := s.undoLog[..|s.undoLog| - 1]);
      if last.wasRegistered then
        Step(popped.(seatsAvailable := popped.seatsAvailable + 1,
                     coursesRegistered := popped.coursesRegistered - 1,
                     waitlist := popped.waitlist + [last.student]),
             UndoneRegistration(last.student))
      else
        Step(popped.(waitlist := RemoveFirst(popped.waitlist, last.student)),
             UndoneWaitlist(last.student))
  }

  /** `displayWaitlist`: walk a copy of the queue from front to back.  The
      listing is the waitlist itself, in queue order. */
  method DisplayWaitlist(s: State, course: string) returns (view: WaitlistView)
    ensures view == NoStudents <==> |s.waitlist| == 0
    ensures view.Listing? ==> view.students == s.waitlist
  {
    if |s.waitlist| == 0 {
      return NoStudents;
    }
    var queue := s.waitlist;
    var shown: seq<string> := [];
    while |queue| > 0
      invariant shown + queue == s.waitlist
      decreases |queue|
    {
      shown := shown + [queue[0]];
      queue := queue[1..];
    }
    return Listing(shown);
  }

  /** A user command, as the menu in `main` dispatches them. */
  datatype Command =
    | Register(student: string, course: string)
    | Drop(student: string, course: string)
    | UndoLast(course: string)
    | Display(course: string)

  /** One command's effect on the state; displaying changes nothing. */
  function Apply(s: State, c: Command): State {
    match c
    case Register(student, course) => RegisterCourse(s, student, course).state
    case Drop(student, course) => DropCourse(s, student, course).state
    case UndoLast(course) => Undo(s, course).state
    case Display(_) => s
  }

  /** The state after running `cmds` in order from `s`. */
  function Run(s: State, cmds: seq<Command>): State
    decreases |cmds|
  {
    if |cmds| == 0 then s else Run(Apply(s, cmds[0]), cmds[1..])
  }

  /** Every command sequence keeps the seat balance and a non-negative seat
      count: a seat is only taken when one is free, and every other step moves
      the two counters by opposite amounts. */
  lemma {:induction false} RunKeepsInvariant(s: State, cmds: seq<Command>)
    requires Invariant(s)
    ensures Invariant(Run(s, cmds))
    decreases |cmds|
  {
    if |cmds| > 0 {
      RunKeepsInvariant(Apply(s, cmds[0]), cmds[1..]);
    }
  }

  /** From the constructor's state the two counters always add up to one seat,
      no more than one course is ever counted as registered, and so the
      course-limit message is never produced. */
  lemma ReachableStates(cmds: seq<Command>, student: string, course: string)
    ensures Balanced(Run(Initial(), cmds))
    ensures Run(Initial(), cmds).seatsAvailable >= 0
    ensures Run(Initial(), cmds).coursesRegistered <= MaxSeats
    ensures RegisterCourse(Run(Initial(), cmds), student, course).outcome != CourseLimitReached
  {
    RunKeepsInvariant(Initial(), cmds);
  }

  /** The seat count is not bounded above by `MaxSeats` and the registration
      count is not bounded below by zero: a direct registration, a drop with
      an empty waitlist, then an undo reverses the seat grant a second time. */
  lemma CountersLeaveNominalRange(a: string, course: string)
    ensures var s1 := RegisterCourse(Initial(), a, course);
            var s2 := DropCourse(s1.state, a, course);
            var s3 := Undo(s2.state, course);
            && s1.outcome == RegisteredDirectly
            && s2.outcome == Dropped
            && s3 == Step(State(2, -1, [a], []), UndoneRegistration(a))
  {
  }

  /** The course code never affects the state or the outcome. */
  lemma CourseIsIgnored(s: State, student: string, c1: string, c2: string)
    ensures RegisterCourse(s, student, c1) == RegisterCourse(s, student, c2)
    ensures DropCourse(s, student, c1) == DropCourse(s, student, c2)
    ensures Undo(s, c1) == Undo(s, c2)
  {
  }

  /** Dropping never checks who asks: any two students get the same result. */
  lemma DropIsIdentityBlind(s: State, a: string, b: string, course: string)
    ensures DropCourse(s, a, course) == DropCourse(s, b, course)
  {
  }

  /** Undoing a direct registration gives back the seat, restores the counters
      and the undo log, but leaves the student at the back of the waitlist. */
  lemma UndoDirectRegistration(s: State, student: string, course: string)
    requires RegisterCourse(s, student, course).outcome == RegisteredDirectly
    ensures Undo(RegisterCourse(s, student, course).state, course)
            == Step(s.(waitlist := s.waitlist + [student]), UndoneRegistration(student))
  {
  }

  /** After appending `student` to a waitlist that does not hold them, removing
      their first occurrence gives back the original waitlist. */
  lemma {:induction false} RemoveFirstOfAppended<T>(w: seq<T>, student: T)
    requires student !in w
    ensures RemoveFirst(w + [student], student) == w
  {
    if |w| > 0 {
      assert (w + [student])[1..] == w[1..] + [student];
      RemoveFirstOfAppended(w[1..], student);
    }
  }

  /** Undoing a waitlist registration restores the counters and the undo log,
      and the waitlist up to order; it restores the whole state whenever the
      student was not already waiting.  The undo removes the student's FIRST
      occurrence rather than the one just appended, so for a student who was
      already waiting the exact condition is `UndoWaitlistRestoresIff`. */
  lemma UndoWaitlistRegistration(s: State, student: string, course: string)
    requires RegisterCourse(s, student, course).outcome == Waitlisted
    ensures var u := Undo(RegisterCourse(s, student, course).state, course);
            && u.outcome == UndoneWaitlist(student)
            && u.state.seatsAvailable == s.seatsAvailable
            && u.state.coursesRegistered == s.coursesRegistered
            && u.state.undoLog == s.undoLog
            && multiset(u.state.waitlist) == multiset(s.waitlist)
            && (student !in s.waitlist ==> u.state == s)
  {
    var r := RegisterCourse(s, student, course).state;
    assert r.undoLog[..|r.undoLog| - 1] == s.undoLog;
    RemoveFirstMultiset(r.waitlist, student);
    assert multiset(r.waitlist) == multiset(s.waitlist) + multiset{student};
    if student !in s.waitlist {
      RemoveFirstOfAppended(s.waitlist, student);
    }
  }

  /** Rotating the first element of `v` to the back, with `x` replacing it,
      gives `v` back exactly when every element of `v` is `x`. */
  lemma {:induction false} ShiftInIffConstant<T>(v: seq<T>, x: T)
    requires |v| > 0
    ensures v[1..] + [x] == v <==> forall j :: 0 <= j < |v| ==> v[j] == x
    decreases |v|
  {
    if |v| > 1 {
      var v' := v[1..];
      ShiftInIffConstant(v', x);
      assert v == [v[0]] + v';
      assert v' + [x] == [v'[0]] + (v'[1..] + [x]);
      if forall j :: 0 <= j < |v| ==> v[j] == x {
        assert forall j :: 0 <= j < |v'| ==> v'[j] == v[j + 1];
      }
      if v' + [x] == v {
        assert v'[0] == v[0];
        forall j | 0 <= j < |v|
          ensures v[j] == x
        {
          if j > 0 {
            assert v[j] == v'[j - 1];
          }
        }
      }
    } else {
      assert v == [v[0]];
      assert v[1..] + [x] == [x];
    }
  }

  /** Appending `x` and then removing its first occurrence, found at `i`,
      restores the sequence exactly when shifting the tail from `i` on one
      place forward, with `x` filling the back, restores that tail. */
  lemma RemoveFirstOfAppendedShift<T>(w: seq<T>, x: T, i: int)
    requires 0 <= i < |w| && w[i] == x && x !in w[..i]
    ensures RemoveFirst(w + [x], x) == w <==> w[i + 1..] + [x] == w[i..]
  {
    var v := w[i..];
    var res := RemoveFirst(w + [x], x);
    assert res == w[..i] + (v[1..] + [x]) by {
      assert (w + [x])[..i] == w[..i];
      RemoveFirstAt(w + [x], x, i);
      assert (w + [x])[i + 1..] == v[1..] + [x];
    }
    assert w == w[..i] + v;
    if res == w {
      assert res[i..] == v[1..] + [x];
    }
    assert v[1..] == w[i + 1..];
  }

  /** Appending `x` and then removing its first occurrence, found at `i`,
      gives the original sequence back exactly when everything from `i` on
      is `x`. */
  lemma RemoveFirstOfAppendedIff<T>(w: seq<T>, x: T, i: int)
    requires 0 <= i < |w| && w[i] == x && x !in w[..i]
    ensures RemoveFirst(w + [x], x) == w <==> forall j :: i <= j < |w| ==> w[j] == x
  {
    var v := w[i..];
    RemoveFirstOfAppendedShift(w, x, i);
    ShiftInIffConstant(v, x);
    assert v[1..] == w[i + 1..];
    if forall j :: 0 <= j < |v| ==> v[j] == x {
      forall j | i <= j < |w|
        ensures w[j] == x
      {
        assert w[j] == v[j - i];
      }
    }
  }

  /** For a student already waiting, with first position `i`, undoing their
      repeated waitlist registration gives back exactly the old state if and
      only if every entry from position `i` to the back is that student. */
  lemma UndoWaitlistRestoresIff(s: State, student: string, course: string, i: int)
    requires RegisterCourse(s, student, course).outcome == Waitlisted
    requires 0 <= i < |s.waitlist| && s.waitlist[i] == student && student !in s.waitlist[..i]
    ensures Undo(RegisterCourse(s, student, course).state, course).state == s
            <==> forall j :: i <= j < |s.waitlist| ==> s.waitlist[j] == student
  {
    var r := RegisterCourse(s, student, course).state;
    assert r.undoLog[..|r.undoLog| - 1] == s.undoLog;
    RemoveFirstOfAppendedIff(s.waitlist, student, i);
  }

  /** A case where undoing a waitlist registration does not restore the
      waitlist: `a` is already waiting ahead of `b`, registers again, and the
      undo takes out the earlier `a`. */
  lemma UndoWaitlistCanReorder(a: string, b: string, course: string)
    requires a != b
    ensures var s := State(0, 1, [a, b], []);
            Undo(RegisterCourse(s, a, course).state, course).state.waitlist == [b, a]
  {
  }

  /** Undoing a promotion takes the seat from the promoted student and sends
      them to the back of the waitlist; the seat stays free. */
  lemma UndoPromotion(s: State, student: string, course: string)
    requires DropCourse(s, student, course).outcome.DroppedAndPromoted?
    ensures var u := Undo(DropCourse(s, student, course).state, course);
            && u.outcome == UndoneRegistration(s.waitlist[0])
            && u.state.seatsAvailable == s.seatsAvailable + 1
            && u.state.coursesRegistered == s.coursesRegistered - 1
            && u.state.waitlist == s.waitlist[1..] + [s.waitlist[0]]
            && u.state.undoLog == s.undoLog
  {
  }

  /** Starting fresh, `alice` takes the seat and `bob` is waitlisted; a drop,
      by anyone, promotes `bob` and empties the waitlist. */
  lemma PromotionScenario(alice: string, bob: string, anyone: string, course: string)
    ensures var s1 := RegisterCourse(Initial(), alice, course);
            var s2 := RegisterCourse(s1.state, bob, course);
            var s3 := DropCourse(s2.state, anyone, course);
            && s1.outcome == RegisteredDirectly
            && s2.outcome == Waitlisted && s2.state.waitlist == [bob]
            && s3.outcome == DroppedAndPromoted(bob)
            && s3.state.waitlist == []
            && s3.state.seatsAvailable == 0
            && s3.state.undoLog == [Action(alice, true), Action(bob, false), Action(bob, true)]
  {
  }
}
