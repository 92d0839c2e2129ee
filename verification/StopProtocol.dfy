/**
  The shutdown protocol of core/src/listener.cpp: one thread runs StopListenerThread and ends the loops of the
  others one at a time, through a one-shot registration of an event that is always readable. The steps of the
  threads interleave in any order; the wait for a changed count is a step that is possible once it has changed.
 */
module StopProtocol {
  /** Where the stopping thread is in its loop. */
  datatype Phase =
    | Reading                // before it reads the running count
    | Waiting(seen: nat)     // polling until the count is not what it read
    | Enabling(seen: nat)    // before it arms the stopper again
    | Closed                 // behind the loop: the descriptor of epoll is closed

  datatype State = State(
    phase: Phase,
    running: nat,            // the atomic running_thread
    last: nat,               // last_thread: 1 if a loop does the stopping itself
    looping: nat,            // other threads in their loop
    leaving: nat,            // other threads that were given the stopper and have not yet counted themselves out
    armed: bool,             // the registration of the stopper
    armings: nat,            // add and enable so far
    ended: nat               // threads given the stopper so far
  )

  /** All n other loops run, and the stopper has just been added. */
  predicate Init(s: State, n: nat, last: nat) {
    s == State(Reading, last + n, last, n, 0, true, 1, 0)
  }

  datatype Event = Take | Leave | Read | Notice | Enable

  predicate Enabled(s: State, e: Event) {
    match e
    case Take => s.armed && s.looping > 0
    case Leave => s.leaving > 0 && s.running > 0
    case Read => s.phase == Reading
    case Notice => s.phase.Waiting? && s.running != s.phase.seen
    case Enable => s.phase.Enabling?
  }

  function Next(s: State, e: Event): State
    requires Enabled(s, e)
  {
    match e
    // epoll_wait gives the event to one thread and disarms it; ProcessRead will throw there
    case Take => s.(armed := false, looping := s.looping - 1, leaving := s.leaving + 1, ended := s.ended + 1)
    // the destructor of RunningThread
    case Leave => s.(leaving := s.leaving - 1, running := s.running - 1)
    case Read => s.(phase := if s.running <= s.last then Closed else Waiting(s.running))
    case Notice => s.(phase := Enabling(s.phase.seen))
    case Enable => s.(phase := Reading, armed := true, armings := s.armings + 1)
  }

  /** The events of a run are possible one after the other, and it ends in s. */
  ghost predicate Run(events: seq<Event>, n: nat, last: nat, s: State) {
    if events == [] then Init(s, n, last)
    else exists t {:trigger StepTo(t, events[|events| - 1], s)} :: Run(events[..|events| - 1], n, last, t) && StepTo(t, events[|events| - 1], s)
  }

  ghost predicate StepTo(t: State, e: Event, s: State) {
    Enabled(t, e) && s == Next(t, e)
  }

  lemma Extend(events: seq<Event>, e: Event, n: nat, last: nat, t: State, s: State)
    requires Run(events, n, last, t) && StepTo(t, e, s)
    ensures Run(events + [e], n, last, s)
  {
    var more := events + [e];
    assert more[..|more| - 1] == events && StepTo(t, more[|more| - 1], s);
  }

  /** The arming and the threads on their way out: how many threads are still to be counted out. */
  function Pending(s: State): nat {
    s.leaving + if s.armed then 1 else 0
  }

  ghost predicate Inv(s: State, n: nat, last: nat) {
    && s.last == last && s.running == last + s.looping + s.leaving
    && s.ended + s.looping == n
    && s.ended + (if s.armed then 1 else 0) == s.armings
    && Pending(s) <= 1
    && match s.phase
       case Reading => true
       case Waiting(seen) => seen > last && (s.running == seen || (s.running + 1 == seen && Pending(s) == 0))
       case Enabling(seen) => seen > last && s.running + 1 == seen && Pending(s) == 0
       case Closed => s.running <= last
  }

  lemma InvStep(s: State, e: Event, n: nat, last: nat)
    requires Inv(s, n, last) && Enabled(s, e)
    ensures Inv(Next(s, e), n, last)
  {
  }

  lemma {:induction false} RunInv(events: seq<Event>, n: nat, last: nat, s: State)
    requires Run(events, n, last, s)
    ensures Inv(s, n, last)
  {
    if events != [] {
      var front, e := events[..|events| - 1], events[|events| - 1];
      var t :| Run(front, n, last, t) && StepTo(t, e, s);
      RunInv(front, n, last, t);
      InvStep(t, e, n, last);
    }
  }

  /** Each arming ends one loop, in every run: all that were made are used up, except the last while it is still armed. */
  lemma OneLoopPerArming(events: seq<Event>, n: nat, last: nat, s: State)
    requires Run(events, n, last, s)
    ensures s.armings == s.ended + (if s.armed then 1 else 0) && s.leaving <= 1
    ensures s.leaving == 1 ==> !s.armed
  {
    RunInv(events, n, last, s);
  }

  /** A round that ends has lowered the count it read by exactly one, and nothing of it is left over. */
  lemma RoundLowersByOne(events: seq<Event>, n: nat, last: nat, s: State)
    requires Run(events, n, last, s) && Enabled(s, Enable)
    ensures s.running == s.phase.seen - 1 && s.leaving == 0 && !s.armed
  {
    RunInv(events, n, last, s);
  }

  /** The descriptor is closed only when all other loops have ended, with the count at last. */
  lemma ClosedMeansAllEnded(events: seq<Event>, n: nat, last: nat, s: State)
    requires Run(events, n, last, s) && s.phase == Closed
    ensures s.running == last && s.looping == 0 && s.leaving == 0 && s.ended == n
  {
    RunInv(events, n, last, s);
  }

  /** Nothing more can happen. */
  ghost predicate AtRest(s: State) {
    forall e :: !Enabled(s, e)
  }

  /** The stopping thread waits for a change that no thread can bring about any more. */
  predicate Stuck(s: State) {
    s.phase == Waiting(s.running) && !s.armed && s.leaving == 0
  }

  function Measure(s: State): nat {
    6 * s.looping + 5 * s.leaving +
    match s.phase
    case Reading => 2
    case Waiting(seen) => if s.running == seen then 1 else 4
    case Enabling(_) => 3
    case Closed => 0
  }

  /** The count and the threads on their way out drive a measure down at every step, so no run goes on for ever. */
  lemma {:induction false} RunsAreShort(events: seq<Event>, n: nat, last: nat, s: State)
    requires Run(events, n, last, s)
    ensures |events| + Measure(s) <= 6 * n + 2
  {
    if events != [] {
      var front, e := events[..|events| - 1], events[|events| - 1];
      var t :| Run(front, n, last, t) && StepTo(t, e, s);
      RunInv(front, n, last, t);
      RunsAreShort(front, n, last, t);
    }
  }

  /** Where a run cannot go on, it is closed or stuck. */
  lemma RestIsClosedOrStuck(events: seq<Event>, n: nat, last: nat, s: State)
    requires Run(events, n, last, s)
    ensures AtRest(s) <==> (s.phase == Closed && s.looping == 0) || Stuck(s)
  {
    RunInv(events, n, last, s);
    if AtRest(s) {
      assert !Enabled(s, Take) && !Enabled(s, Leave) && !Enabled(s, Read) && !Enabled(s, Notice) && !Enabled(s, Enable);
    }
  }

  /** With two loops: the first takes the stopper and leaves before the stopping thread reads the count. */
  lemma LostRound(n: nat, last: nat) returns (s: State)
    requires n >= 2
    ensures Run([Take, Leave, Read], n, last, s) && Stuck(s)
  {
    var s0 := State(Reading, last + n, last, n, 0, true, 1, 0);
    var s1 := Next(s0, Take);
    var s2 := Next(s1, Leave);
    s := Next(s2, Read);
    assert [Take] == [] + [Take] && [Take, Leave] == [Take] + [Leave] && [Take, Leave, Read] == [Take, Leave] + [Read];
    Extend([], Take, n, last, s0, s1);
    Extend([Take], Leave, n, last, s1, s2);
    Extend([Take, Leave], Read, n, last, s2, s);
  }

  /** The shutdown is sure to complete exactly when at most one other loop runs. */
  lemma AlwaysClosesIff(n: nat, last: nat)
    ensures (forall events, s :: Run(events, n, last, s) && AtRest(s) ==> s.phase == Closed) <==> n <= 1
  {
    if n >= 2 {
      var s := LostRound(n, last);
      RestIsClosedOrStuck([Take, Leave, Read], n, last, s);
      assert Run([Take, Leave, Read], n, last, s) && AtRest(s);
    } else {
      forall events, s | Run(events, n, last, s) && AtRest(s) ensures s.phase == Closed {
        RestIsClosedOrStuck(events, n, last, s);
        OneLoopIsNoDanger(events, n, last, s);
      }
    }
  }

  lemma {:induction false} OneLoopIsNoDanger(events: seq<Event>, n: nat, last: nat, s: State)
    requires Run(events, n, last, s) && n <= 1
    ensures s.phase.Waiting? ==> s.phase.seen == last + 1
    ensures s.phase.Waiting? && s.running == s.phase.seen ==> s.armed || s.leaving > 0
  {
    RunInv(events, n, last, s);
    if events != [] {
      var front, e := events[..|events| - 1], events[|events| - 1];
      var t :| Run(front, n, last, t) && StepTo(t, e, s);
      RunInv(front, n, last, t);
      OneLoopIsNoDanger(front, n, last, t);
      ArmedWhileAlone(front, n, last, t);
    }
  }

  /** As long as the one loop runs, the stopper is armed when the count is read. */
  lemma {:induction false} ArmedWhileAlone(events: seq<Event>, n: nat, last: nat, s: State)
    requires Run(events, n, last, s) && n <= 1
    ensures s.looping > 0 ==> s.armed
  {
    if events != [] {
      var front, e := events[..|events| - 1], events[|events| - 1];
      var t :| Run(front, n, last, t) && StepTo(t, e, s);
      RunInv(front, n, last, t);
      ArmedWhileAlone(front, n, last, t);
    }
  }

  /** The count is read with loops still to end, but every arming used up and its thread already counted out. */
  ghost predicate ReadTooLate(t: State, s: State) {
    StepTo(t, Read, s) && t.running > t.last && t.ended == t.armings && t.leaving == 0
  }

  /** With the stopper just armed, what can come before the count is read. */
  ghost predicate SinceArmed(events: seq<Event>, s: State) {
    var n := |events|;
    && (s.armed ==> n == 0 || events[n - 1] == Enable)
    && (s.leaving > 0 ==> n > 0 && events[n - 1] == Take)
    && (!s.armed && s.leaving == 0 ==> n >= 2 && events[n - 1] == Leave && events[n - 2] == Take)
  }

  lemma {:induction false} BeforeRead(events: seq<Event>, n: nat, last: nat, s: State)
    requires Run(events, n, last, s) && s.phase == Reading
    ensures SinceArmed(events, s)
  {
    hide SinceArmed, Inv;
    if events == [] {
      ArmedAtFirst(n, last, s);
    } else {
      var front, e := events[..|events| - 1], events[|events| - 1];
      var t :| Run(front, n, last, t) && StepTo(t, e, s);
      hide Run;
      RunInv(front, n, last, t);
      if t.phase == Reading {
        BeforeRead(front, n, last, t);
      }
      StepSinceArmed(front, e, t, s, n, last);
      assert events == front + [e];
    }
  }

  lemma ArmedAtFirst(n: nat, last: nat, s: State)
    requires Init(s, n, last)
    ensures SinceArmed([], s)
  {
  }

  lemma StepSinceArmed(front: seq<Event>, e: Event, t: State, s: State, n: nat, last: nat)
    requires Inv(t, n, last) && StepTo(t, e, s) && s.phase == Reading && (t.phase == Reading ==> SinceArmed(front, t))
    ensures SinceArmed(front + [e], s)
  {
  }

  /**
    Exactly which runs are stuck, told from their events: those that end with a thread given the stopper and
    counted out, and then the read of the count, with loops still to end.
   */
  lemma StuckIffLastThree(events: seq<Event>, n: nat, last: nat, s: State)
    requires Run(events, n, last, s)
    ensures Stuck(s) <==> |events| >= 3 && events[|events| - 3..] == [Take, Leave, Read] && s.running > last
  {
    RunInv(events, n, last, s);
    if events != [] {
      var front, e := events[..|events| - 1], events[|events| - 1];
      var t :| Run(front, n, last, t) && StepTo(t, e, s);
      RunInv(front, n, last, t);
      if e == Read {
        BeforeRead(front, n, last, t);
        if |events| >= 3 {
          LastThree(events);
        }
      } else if |events| >= 3 {
        LastThree(events);
      }
    }
  }

  lemma LastThree(events: seq<Event>)
    requires |events| >= 3
    ensures var n := |events|;
            events[n - 3..] == [Take, Leave, Read] <==> events[n - 1] == Read && events[n - 2] == Leave && events[n - 3] == Take
  {
    var l := events[|events| - 3..];
    assert l[0] == events[|events| - 3] && l[1] == events[|events| - 2] && l[2] == events[|events| - 1];
  }

  /** From any reading state with the stopper armed the protocol can complete. */
  lemma {:induction false} CanClose(events: seq<Event>, n: nat, last: nat, s: State) returns (more: seq<Event>, r: State)
    requires Run(events, n, last, s) && s.phase == Reading && s.armed
    ensures Run(more, n, last, r) && r.phase == Closed
    decreases s.looping
  {
    RunInv(events, n, last, s);
    var s1 := Next(s, Read);
    Extend(events, Read, n, last, s, s1);
    if s1.phase == Closed {
      more, r := events + [Read], s1;
    } else {
      var s2 := Next(s1, Take);
      var s3 := Next(s2, Leave);
      var s4 := Next(s3, Notice);
      var s5 := Next(s4, Enable);
      var e1 := events + [Read];
      Extend(e1, Take, n, last, s1, s2);
      Extend(e1 + [Take], Leave, n, last, s2, s3);
      Extend(e1 + [Take] + [Leave], Notice, n, last, s3, s4);
      Extend(e1 + [Take] + [Leave] + [Notice], Enable, n, last, s4, s5);
      more, r := CanClose(e1 + [Take] + [Leave] + [Notice] + [Enable], n, last, s5);
    }
  }

  /** For every number of loops there is a run that completes the shutdown. */
  lemma SomeRunCloses(n: nat, last: nat)
    ensures exists events, s :: Run(events, n, last, s) && s.phase == Closed && s.ended == n
  {
    var s0 := State(Reading, last + n, last, n, 0, true, 1, 0);
    var events, s := CanClose([], n, last, s0);
    ClosedMeansAllEnded(events, n, last, s);
  }

  /** Exactly which runs are stuck, for any number of loops: those whose last step is a read that comes too late. */
  lemma StuckIff(events: seq<Event>, n: nat, last: nat, s: State)
    requires Run(events, n, last, s)
    ensures Stuck(s) <==> events != [] && exists t :: Run(events[..|events| - 1], n, last, t) && ReadTooLate(t, s) && events[|events| - 1] == Read
  {
    RunInv(events, n, last, s);
    if events != [] {
      var front, e := events[..|events| - 1], events[|events| - 1];
      var t :| Run(front, n, last, t) && StepTo(t, e, s);
      RunInv(front, n, last, t);
      if Stuck(s) {
        assert e == Read && ReadTooLate(t, s);
      }
    }
  }
}
