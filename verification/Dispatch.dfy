/**
  One-shot dispatch over many listener threads: listener_t::loop of core/src/listener.cpp with add, enable,
  remove and Delete of core/include/mms/listener.h. A registration of epoll is armed or disarmed; handing an
  event out disarms it. Threads and processors are numbers, a processor's number is not used again.
 */
module Dispatch {
  datatype Registration = Absent | Armed | Disarmed

  /** A thread waits, works through what epoll_wait gave it, the first of it being next or under way, or has left. */
  datatype Thread = Idle | Busy(batch: seq<nat>, handling: bool) | Gone

  datatype State = State(
    threads: map<nat, Thread>,
    registered: map<nat, Registration>,   // for every processor ever added
    spent: set<nat>,                      // handed out to a thread that left before it armed them again
    removed: set<nat>,                    // taken out of epoll
    deleted: set<nat>                     // and freed
  )

  predicate Init(s: State) {
    && s.registered == map[] && s.spent == {} && s.removed == {} && s.deleted == {}
    && forall t :: t in s.threads ==> s.threads[t] == Idle
  }

  function Batch(s: State, t: nat): seq<nat> {
    if t in s.threads && s.threads[t].Busy? then s.threads[t].batch else []
  }

  predicate Distinct(ps: seq<nat>) {
    forall i, j :: 0 <= i < j < |ps| ==> ps[i] != ps[j]
  }

  predicate IsArmed(s: State, p: nat) {
    p in s.registered && s.registered[p] == Armed
  }

  /** The thread runs the handlers of p. */
  predicate Handles(s: State, t: nat, p: nat) {
    t in s.threads && s.threads[t].Busy? && s.threads[t].handling && s.threads[t].batch != [] && s.threads[t].batch[0] == p
  }

  datatype Event =
    | Add(p: nat)                    // a new processor
    | Wait(t: nat, ps: seq<nat>)     // epoll_wait returns these
    | Handle(t: nat)                 // the handlers of the next one are called
    | Rearm(t: nat)                  // they return SUCCESS or SOCKET_RETRY, and the loop enables it
    | Drop(t: nat)                   // peer closed, or any other result: the loop deletes it
    | RemoveSelf(t: nat)             // a handler takes its own processor out of epoll, as terminate_t does
    | Leave(t: nat)                  // a handler throws listener_terminate_thread_t
    | EnableSpent(p: nat)            // StopListenerThread arms its stopper again
    | Remove(p: nat)                 // and removes it at the end

  predicate Possible(s: State, e: Event) {
    match e
    case Add(p) => p !in s.registered
    case Wait(t, ps) => t in s.threads && s.threads[t] == Idle && ps != [] && Distinct(ps) && forall p :: p in ps ==> IsArmed(s, p)
    case Handle(t) => Batch(s, t) != [] && !s.threads[t].handling
    case Rearm(t) => Batch(s, t) != [] && s.threads[t].handling
    case Drop(t) => Batch(s, t) != []
    case RemoveSelf(t) => Batch(s, t) != [] && s.threads[t].handling
    case Leave(t) => Batch(s, t) != [] && s.threads[t].handling
    case EnableSpent(p) => p in s.spent
    case Remove(p) => p in s.spent || IsArmed(s, p)
  }

  function Rest(ps: seq<nat>): Thread
    requires ps != []
  {
    if |ps| == 1 then Idle else Busy(ps[1..], false)
  }

  function Next(s: State, e: Event): State
    requires Possible(s, e)
  {
    match e
    case Add(p) => s.(registered := s.registered[p := Armed])
    case Wait(t, ps) =>
      s.(threads := s.threads[t := Busy(ps, false)],
         registered := map p | p in s.registered :: if p in ps then Disarmed else s.registered[p])
    case Handle(t) => s.(threads := s.threads[t := s.threads[t].(handling := true)])
    case Rearm(t) =>
      var p := Batch(s, t)[0];
      var u := s.(threads := s.threads[t := Rest(Batch(s, t))]);
      // enabling what is no longer registered fails
      if p in s.registered && s.registered[p] == Absent then u.(removed := s.removed + {p})
      else u.(registered := s.registered[p := Armed])
    case Drop(t) =>
      var p := Batch(s, t)[0];
      s.(threads := s.threads[t := Rest(Batch(s, t))], registered := s.registered[p := Absent],
         removed := s.removed + {p}, deleted := s.deleted + {p})
    case RemoveSelf(t) => s.(registered := s.registered[Batch(s, t)[0] := Absent])
    case Leave(t) =>
      var ps := Batch(s, t);
      s.(threads := s.threads[t := Gone],
         spent := s.spent + (set p | p in ps && p in s.registered && s.registered[p] != Absent),
         removed := s.removed + (set p | p in ps && p in s.registered && s.registered[p] == Absent))
    case EnableSpent(p) => s.(registered := s.registered[p := Armed], spent := s.spent - {p})
    case Remove(p) => s.(registered := s.registered[p := Absent], spent := s.spent - {p}, removed := s.removed + {p})
  }

  /** The state after these events, and whether each was possible when it came. */
  function RunFrom(s: State, events: seq<Event>): (bool, State)
    decreases |events|
  {
    if events == [] then (true, s)
    else if !Possible(s, events[0]) then (false, s)
    else RunFrom(Next(s, events[0]), events[1..])
  }

  // The four places a processor can be in.

  predicate InBatch(s: State, p: nat, t: nat) {
    p in Batch(s, t)
  }

  /** How many of the four places hold p, other than a batch. */
  predicate Free(s: State, p: nat) {
    IsArmed(s, p) || p in s.spent || p in s.removed
  }

  ghost predicate Inv(s: State) {
    && (forall t: nat :: Distinct(Batch(s, t)))
    && (forall t: nat, p :: InBatch(s, p, t) ==> p in s.registered && !Free(s, p))
    && (forall t: nat, u: nat, p :: InBatch(s, p, t) && InBatch(s, p, u) ==> t == u)
    && (forall p :: p in s.registered ==> Free(s, p) || exists t :: InBatch(s, p, t))
    && (forall p :: p in s.spent ==> p in s.registered && s.registered[p] == Disarmed && p !in s.removed)
    && (forall p :: p in s.removed ==> p in s.registered && s.registered[p] == Absent)
    && s.deleted <= s.removed
  }

  lemma InitInv(s: State)
    requires Init(s)
    ensures Inv(s)
  {
  }

  lemma AfterBatch(ps: seq<nat>, p: nat)
    requires ps != [] && Distinct(ps)
    ensures Distinct(ps[1..]) && (p in ps[1..] <==> p in ps && p != ps[0])
  {
    if p in ps && p != ps[0] {
      var i :| 0 <= i < |ps| && ps[i] == p;
      assert ps[1..][i - 1] == p;
    }
  }

  /** What a step does to the batches: nothing, but for one thread. */
  function NewBatch(s: State, e: Event, t: nat): seq<nat>
    requires Possible(s, e)
  {
    match e
    case Wait(u, ps) => if t == u then ps else Batch(s, t)
    case Rearm(u) => if t == u then Batch(s, t)[1..] else Batch(s, t)
    case Drop(u) => if t == u then Batch(s, t)[1..] else Batch(s, t)
    case Leave(u) => if t == u then [] else Batch(s, t)
    case _ => Batch(s, t)
  }

  lemma BatchStep(s: State, e: Event, t: nat)
    requires Possible(s, e)
    ensures Batch(Next(s, e), t) == NewBatch(s, e, t)
  {
  }

  lemma BatchesStayExclusive(s: State, e: Event)
    requires Inv(s) && Possible(s, e)
    ensures forall t: nat :: Distinct(Batch(Next(s, e), t))
    ensures forall t: nat, u: nat, p :: InBatch(Next(s, e), p, t) && InBatch(Next(s, e), p, u) ==> t == u
    ensures forall t: nat, p :: InBatch(Next(s, e), p, t) ==> InBatch(s, p, t) || (e.Wait? && e.t == t && p in e.ps)
  {
    hide Next;
    forall t: nat ensures Distinct(Batch(Next(s, e), t)) {
      BatchStep(s, e, t);
      if Batch(s, t) != [] { AfterBatch(Batch(s, t), 0); }
    }
    forall t: nat, p | InBatch(Next(s, e), p, t)
      ensures InBatch(s, p, t) || (e.Wait? && e.t == t && p in e.ps)
    {
      BatchStep(s, e, t);
      if Batch(s, t) != [] { AfterBatch(Batch(s, t), p); }
    }
    forall t: nat, u: nat, p | InBatch(Next(s, e), p, t) && InBatch(Next(s, e), p, u) ensures t == u {
      assert InBatch(s, p, t) || (e.Wait? && e.t == t && p in e.ps);
      assert InBatch(s, p, u) || (e.Wait? && e.t == u && p in e.ps);
    }
  }

  /** A step moves processors between the places, but never puts one into two of them. */
  lemma PlacesStayApart(s: State, e: Event)
    requires Inv(s) && Possible(s, e)
    ensures var s' := Next(s, e);
            && (forall p :: p in s'.spent ==> p in s'.registered && s'.registered[p] == Disarmed && p !in s'.removed)
            && (forall p :: p in s'.removed ==> p in s'.registered && s'.registered[p] == Absent)
            && s'.deleted <= s'.removed
            && s.registered.Keys <= s'.registered.Keys
  {
    assert forall t: nat, p :: InBatch(s, p, t) ==> p in s.registered && !Free(s, p);
    if e.Rearm? || e.Drop? || e.Leave? || e.RemoveSelf? {
      HeadInBatch(s, e.t);
    }
    if e.Leave? {
      forall p | p in Batch(s, e.t) ensures InBatch(s, p, e.t) {}
    }
  }

  lemma HeadInBatch(s: State, t: nat)
    requires Batch(s, t) != []
    ensures InBatch(s, Batch(s, t)[0], t)
  {
  }

  /** What is in a batch afterwards is in none of the other places. */
  lemma BatchesStayApart(s: State, e: Event, t: nat, p: nat)
    requires Inv(s) && Possible(s, e) && InBatch(Next(s, e), p, t)
    ensures p in Next(s, e).registered && !Free(Next(s, e), p)
  {
    BatchStep(s, e, t);
    if Batch(s, t) != [] { AfterBatch(Batch(s, t), p); }
    if e.Wait? && e.t == t {
      assert IsArmed(s, p);
    } else {
      assert InBatch(s, p, t);
      if e.Rearm? || e.Drop? || e.Leave? || e.RemoveSelf? {
        HeadInBatch(s, e.t);
        assert e.t != t ==> !InBatch(s, p, e.t);
      }
    }
  }

  /** Nothing gets lost: every processor is still somewhere. */
  lemma PlacesStayFull(s: State, e: Event, p: nat)
    requires Inv(s) && Possible(s, e) && p in Next(s, e).registered
    ensures Free(Next(s, e), p) || exists t :: InBatch(Next(s, e), p, t)
  {
    if e.Rearm? || e.Drop? || e.Leave? || e.RemoveSelf? {
      HeadInBatch(s, e.t);
    }
    if p in s.registered {
      if !Free(s, p) {
        var t :| InBatch(s, p, t);
        BatchStep(s, e, t);
        AfterBatch(Batch(s, t), p);
        if !InBatch(Next(s, e), p, t) {
          LeftBatch(s, e, p, t);
        }
      } else if !Free(Next(s, e), p) {
        TakenIntoBatch(s, e, p);
      }
    }
  }

  lemma LeftBatch(s: State, e: Event, p: nat, t: nat)
    requires Inv(s) && Possible(s, e) && InBatch(s, p, t) && !InBatch(Next(s, e), p, t)
    ensures Free(Next(s, e), p)
  {
    BatchStep(s, e, t);
    AfterBatch(Batch(s, t), p);
    assert p in s.registered && !Free(s, p);
  }

  lemma TakenIntoBatch(s: State, e: Event, p: nat)
    requires Inv(s) && Possible(s, e) && Free(s, p) && !Free(Next(s, e), p)
    ensures e.Wait? && InBatch(Next(s, e), p, e.t)
  {
    if e.Rearm? || e.Drop? || e.Leave? || e.RemoveSelf? {
      HeadInBatch(s, e.t);
    }
    if e.Wait? {
      BatchStep(s, e, e.t);
    }
  }

  lemma InvStep(s: State, e: Event)
    requires Inv(s) && Possible(s, e)
    ensures Inv(Next(s, e))
  {
    hide Next, Free, InBatch, Possible;
    BatchesStayExclusive(s, e);
    PlacesStayApart(s, e);
    forall t: nat, p | InBatch(Next(s, e), p, t) ensures p in Next(s, e).registered && !Free(Next(s, e), p) {
      BatchesStayApart(s, e, t, p);
    }
    forall p | p in Next(s, e).registered ensures Free(Next(s, e), p) || exists t :: InBatch(Next(s, e), p, t) {
      PlacesStayFull(s, e, p);
    }
  }

  lemma {:induction false} RunInv(s: State, events: seq<Event>)
    requires Inv(s) && RunFrom(s, events).0
    ensures Inv(RunFrom(s, events).1)
    decreases |events|
  {
    if events != [] {
      InvStep(s, events[0]);
      RunInv(Next(s, events[0]), events[1..]);
    }
  }

  /**
    In every run each processor is in exactly one place: armed, in the batch of exactly one thread, spent or
    removed.
   */
  lemma ExactlyOnePlace(start: State, events: seq<Event>, p: nat)
    requires Init(start) && RunFrom(start, events).0 && p in RunFrom(start, events).1.registered
    ensures var s := RunFrom(start, events).1;
            && (Free(s, p) <==> !exists t :: InBatch(s, p, t))
            && (IsArmed(s, p) ==> p !in s.spent && p !in s.removed) && (p in s.spent ==> p !in s.removed)
            && (forall t: nat, u: nat :: InBatch(s, p, t) && InBatch(s, p, u) ==> t == u)
            && (forall t: nat :: Distinct(Batch(s, t)))
  {
    InitInv(start);
    RunInv(start, events);
  }

  /** No two threads ever run the handlers of one processor at the same time. */
  lemma OneThreadHandles(start: State, events: seq<Event>, p: nat, t: nat, u: nat)
    requires Init(start) && RunFrom(start, events).0
    requires Handles(RunFrom(start, events).1, t, p) && Handles(RunFrom(start, events).1, u, p)
    ensures t == u
  {
    InitInv(start);
    RunInv(start, events);
    HeadInBatch(RunFrom(start, events).1, t);
    HeadInBatch(RunFrom(start, events).1, u);
  }

  lemma {:induction false} RemovedStaysRemoved(s: State, events: seq<Event>, p: nat)
    requires Inv(s) && RunFrom(s, events).0 && p in s.removed
    ensures p in RunFrom(s, events).1.removed
    decreases |events|
  {
    if events != [] {
      InvStep(s, events[0]);
      RemovedStaysRemoved(Next(s, events[0]), events[1..], p);
    }
  }

  /** A deleted processor is never handed out or handled again, whatever happens afterwards. */
  lemma DeletedIsNeverDispatched(start: State, events: seq<Event>, later: seq<Event>, p: nat, t: nat)
    requires Init(start) && RunFrom(start, events).0 && p in RunFrom(start, events).1.deleted
    requires RunFrom(RunFrom(start, events).1, later).0
    ensures !InBatch(RunFrom(RunFrom(start, events).1, later).1, p, t)
    ensures !Handles(RunFrom(RunFrom(start, events).1, later).1, t, p)
  {
    var s := RunFrom(start, events).1;
    InitInv(start);
    RunInv(start, events);
    RunInv(s, later);
    RemovedStaysRemoved(s, later, p);
    var r := RunFrom(s, later).1;
    if Handles(r, t, p) {
      HeadInBatch(r, t);
    }
  }

  /**
    What a leaving thread still had in its batch is not handled any more, unless someone arms it again, which
    the source does only for its stopper: the other processors behind the stopper get no more events.
   */
  lemma {:induction false} SpentIsNotServed(s: State, events: seq<Event>, p: nat, t: nat)
    requires Inv(s) && RunFrom(s, events).0 && p in s.spent
    requires forall e :: e in events ==> e != EnableSpent(p)
    ensures !InBatch(RunFrom(s, events).1, p, t)
    decreases |events|
  {
    if events != [] {
      var e := events[0];
      assert e in events;
      InvStep(s, e);
      SpentStep(s, e, p);
      if p in Next(s, e).removed {
        RunInv(Next(s, e), events[1..]);
        RemovedStaysRemoved(Next(s, e), events[1..], p);
      } else {
        forall d | d in events[1..] ensures d != EnableSpent(p) { assert d in events; }
        SpentIsNotServed(Next(s, e), events[1..], p, t);
      }
    }
  }

  lemma SpentStep(s: State, e: Event, p: nat)
    requires Inv(s) && Possible(s, e) && p in s.spent && e != EnableSpent(p)
    ensures p in Next(s, e).spent || p in Next(s, e).removed
  {
  }

  /** A thread that leaves spends what it was handling and all that came behind it. */
  lemma LeaveSpendsTheRest(s: State, t: nat, p: nat)
    requires Inv(s) && Possible(s, Leave(t)) && InBatch(s, p, t)
    ensures p in Next(s, Leave(t)).spent || p in Next(s, Leave(t)).removed
    ensures forall u: nat :: !InBatch(Next(s, Leave(t)), p, u)
  {
    InvStep(s, Leave(t));
    assert p in s.registered && p in Batch(s, t);
    var s' := Next(s, Leave(t));
    assert p in s'.spent || p in s'.removed;
    assert Free(s', p);
  }

  // Who gets events: a processor is in service from the time it is added until something takes it out.

  /** It is armed, or a thread has it in its batch and can still arm it. */
  ghost predicate InService(s: State, p: nat) {
    IsArmed(s, p) || exists t :: InBatch(s, p, t) && p in s.registered && s.registered[p] == Disarmed
  }

  /** The event ends the service of p: it is deleted or removed, or the thread that has it leaves. */
  predicate TakesOut(s: State, e: Event, p: nat) {
    match e
    case Drop(t) => Batch(s, t) != [] && Batch(s, t)[0] == p
    case RemoveSelf(t) => Batch(s, t) != [] && Batch(s, t)[0] == p
    case Leave(t) => p in Batch(s, t)
    case Remove(q) => q == p
    case _ => false
  }

  /** What the events say: whether p was put in, and not taken out since. */
  function Served(s: State, events: seq<Event>, p: nat, on: bool): bool
    decreases |events|
  {
    if events == [] || !Possible(s, events[0]) then on
    else
      var e := events[0];
      Served(Next(s, e), events[1..], p, if TakesOut(s, e, p) then false else on || e == Add(p) || e == EnableSpent(p))
  }

  lemma ServiceStep(s: State, e: Event, p: nat)
    requires Inv(s) && Possible(s, e)
    ensures InService(Next(s, e), p) <==> !TakesOut(s, e, p) && (InService(s, p) || e == Add(p) || e == EnableSpent(p))
  {
    InvStep(s, e);
    if e.Rearm? || e.Drop? || e.Leave? || e.RemoveSelf? {
      HeadInBatch(s, e.t);
    }
    if TakesOut(s, e, p) {
      TakenOut(s, e, p);
    } else if InService(s, p) {
      StaysIn(s, e, p);
    } else if e != Add(p) && e != EnableSpent(p) {
      StaysOut(s, e, p);
    }
  }

  lemma TakenOut(s: State, e: Event, p: nat)
    requires Inv(s) && Possible(s, e) && TakesOut(s, e, p)
    ensures !InService(Next(s, e), p)
  {
    if e.Leave? {
      LeaveSpendsTheRest(s, e.t, p);
      assert InBatch(s, p, e.t);
    } else if e.Drop? || e.RemoveSelf? {
      HeadInBatch(s, e.t);
    }
  }

  lemma StaysIn(s: State, e: Event, p: nat)
    requires Inv(s) && Possible(s, e) && !TakesOut(s, e, p) && InService(s, p)
    ensures InService(Next(s, e), p)
  {
    if e.Rearm? || e.Drop? || e.Leave? || e.RemoveSelf? {
      HeadInBatch(s, e.t);
    }
    if IsArmed(s, p) {
      if e.Wait? && p in e.ps {
        BatchStep(s, e, e.t);
        assert InBatch(Next(s, e), p, e.t);
      }
    } else {
      var t :| InBatch(s, p, t) && p in s.registered && s.registered[p] == Disarmed;
      BatchStep(s, e, t);
      AfterBatch(Batch(s, t), p);
      if e.Wait? {
        assert forall q :: q in e.ps ==> IsArmed(s, q);
      }
      if !IsArmed(Next(s, e), p) {
        assert InBatch(Next(s, e), p, t);
      }
    }
  }

  lemma StaysOut(s: State, e: Event, p: nat)
    requires Inv(s) && Possible(s, e) && !InService(s, p) && e != Add(p) && e != EnableSpent(p)
    ensures !InService(Next(s, e), p)
  {
    if e.Rearm? || e.Drop? || e.Leave? || e.RemoveSelf? {
      HeadInBatch(s, e.t);
    }
    assert e.Wait? ==> forall q :: q in e.ps ==> IsArmed(s, q);
    forall t: nat ensures !(InBatch(Next(s, e), p, t) && p in Next(s, e).registered && Next(s, e).registered[p] == Disarmed) {
      BatchStep(s, e, t);
      if Batch(s, t) != [] { AfterBatch(Batch(s, t), p); }
      assert InBatch(Next(s, e), p, t) ==> InBatch(s, p, t);
      assert InBatch(s, p, t) ==> p in s.registered && s.registered[p] == Absent;
    }
  }

  lemma {:induction false} ServedFrom(s: State, events: seq<Event>, p: nat)
    requires Inv(s) && RunFrom(s, events).0
    ensures InService(RunFrom(s, events).1, p) <==> Served(s, events, p, InService(s, p))
    decreases |events|
  {
    hide InService, Inv, Next, Possible, TakesOut;
    if events != [] {
      InvStep(s, events[0]);
      ServiceStep(s, events[0], p);
      ServedFrom(Next(s, events[0]), events[1..], p);
    }
  }

  /**
    In every run: a processor is armed, or in a batch to be armed again, exactly if it was added or enabled and
    has not been deleted, removed or left behind since. While it is in no batch, any idle thread can be given it.
   */
  lemma ServedIff(start: State, events: seq<Event>, p: nat, u: nat)
    requires Init(start) && RunFrom(start, events).0
    ensures var s := RunFrom(start, events).1;
            && (InService(s, p) <==> Served(start, events, p, false))
            && (InService(s, p) && (forall t :: !InBatch(s, p, t)) && u in s.threads && s.threads[u] == Idle ==> Possible(s, Wait(u, [p])))
  {
    InitInv(start);
    ServedFrom(start, events, p);
  }

  /** Where no thread leaves and p is not taken out, p stays in service: it is armed or in a batch. */
  lemma KeptInService(start: State, events: seq<Event>, p: nat)
    requires Init(start) && RunFrom(start, events).0 && p in RunFrom(start, events).1.registered
    requires forall k: nat :: k < |events| ==> !TakesOut(RunFrom(start, events[..k]).1, events[k], p)
    ensures var s := RunFrom(start, events).1; IsArmed(s, p) || exists t :: InBatch(s, p, t)
  {
    ServedIff(start, events, p, 0);
    InitInv(start);
    NeverTakenOut(start, events, p, false);
  }

  lemma {:induction false} NeverTakenOut(s: State, events: seq<Event>, p: nat, on: bool)
    requires Inv(s) && RunFrom(s, events).0 && p in RunFrom(s, events).1.registered && (p in s.registered ==> on)
    requires forall k: nat :: k < |events| ==> !TakesOut(RunFrom(s, events[..k]).1, events[k], p)
    ensures Served(s, events, p, on)
    decreases |events|
  {
    if events != [] {
      var e, rest := events[0], events[1..];
      assert events[..0] == [];
      assert !TakesOut(RunFrom(s, events[..0]).1, e, p);
      forall k: nat | k < |rest| ensures !TakesOut(RunFrom(Next(s, e), rest[..k]).1, rest[k], p) {
        assert events[..k + 1][1..] == rest[..k] && events[..k + 1][0] == e;
        assert !TakesOut(RunFrom(s, events[..k + 1]).1, events[k + 1], p);
      }
      InvStep(s, e);
      OnlyAddRegisters(s, e, p);
      NeverTakenOut(Next(s, e), rest, p, on || e == Add(p) || e == EnableSpent(p));
    }
  }

  lemma OnlyAddRegisters(s: State, e: Event, p: nat)
    requires Inv(s) && Possible(s, e)
    ensures p in Next(s, e).registered ==> p in s.registered || e == Add(p)
  {
    if e.Rearm? || e.Drop? || e.Leave? || e.RemoveSelf? {
      HeadInBatch(s, e.t);
    }
  }

  lemma RearmIs(s: State, t: nat)
    requires Inv(s) && Possible(s, Rearm(t))
    ensures var s', ps := Next(s, Rearm(t)), Batch(s, t);
            && Batch(s', t) == ps[1..] && t in s'.threads && (|ps| == 1 ==> s'.threads[t] == Idle)
            && (|ps| > 1 ==> !s'.threads[t].handling)
            && (forall p :: p in s.registered && p != ps[0] ==> p in s'.registered && s'.registered[p] == s.registered[p])
            && ps[0] in s.registered && ps[0] in s'.registered
            && (s.registered[ps[0]] != Absent ==> IsArmed(s', ps[0]))
  {
    HeadInBatch(s, t);
  }

  /** A thread can work its batch off: it is idle then, and all that was not taken out is armed. */
  lemma {:induction false} BatchCanBeServed(s: State, t: nat) returns (more: seq<Event>)
    requires Inv(s) && Batch(s, t) != []
    ensures RunFrom(s, more).0 && t in RunFrom(s, more).1.threads && RunFrom(s, more).1.threads[t] == Idle
    ensures forall p :: p in Batch(s, t) && p in s.registered && s.registered[p] != Absent ==> IsArmed(RunFrom(s, more).1, p)
    ensures forall p :: p in s.registered && p !in Batch(s, t) ==>
              p in RunFrom(s, more).1.registered && RunFrom(s, more).1.registered[p] == s.registered[p]
    decreases |Batch(s, t)|
  {
    hide Inv;
    var ps := Batch(s, t);
    var handled := if s.threads[t].handling then s else Next(s, Handle(t));
    var before: seq<Event> := if s.threads[t].handling then [] else [Handle(t)];
    if !s.threads[t].handling {
      InvStep(s, Handle(t));
    }
    assert Batch(handled, t) == ps && handled.registered == s.registered;
    InvStep(handled, Rearm(t));
    RearmIs(handled, t);
    var next := Next(handled, Rearm(t));
    var rest: seq<Event> := [];
    if |ps| > 1 {
      rest := BatchCanBeServed(next, t);
    }
    BatchDistinct(s, t);
    assert ps == [ps[0]] + ps[1..];
    more := before + ([Rearm(t)] + rest);
    RunStep(handled, Rearm(t), rest);
    if !s.threads[t].handling {
      RunStep(s, Handle(t), [Rearm(t)] + rest);
    } else {
      assert more == [Rearm(t)] + rest;
    }
  }

  lemma BatchDistinct(s: State, t: nat)
    requires Inv(s) && Batch(s, t) != []
    ensures Batch(s, t)[0] !in Batch(s, t)[1..]
  {
    AfterBatch(Batch(s, t), Batch(s, t)[0]);
  }

  /** So in every run, from wherever it is. */
  lemma RunCanServe(start: State, events: seq<Event>, t: nat) returns (more: seq<Event>)
    requires Init(start) && RunFrom(start, events).0 && Batch(RunFrom(start, events).1, t) != []
    ensures var s := RunFrom(start, events).1;
            && RunFrom(s, more).0 && t in RunFrom(s, more).1.threads && RunFrom(s, more).1.threads[t] == Idle
            && forall p :: p in Batch(s, t) && p in s.registered && s.registered[p] != Absent ==> IsArmed(RunFrom(s, more).1, p)
  {
    InitInv(start);
    RunInv(start, events);
    more := BatchCanBeServed(RunFrom(start, events).1, t);
  }

  // Who is freed.

  /** How often these events delete p. */
  function Drops(s: State, events: seq<Event>, p: nat): nat
    decreases |events|
  {
    if events == [] || !Possible(s, events[0]) then 0
    else (if events[0].Drop? && Batch(s, events[0].t)[0] == p then 1 else 0) + Drops(Next(s, events[0]), events[1..], p)
  }

  lemma DropStep(s: State, e: Event, p: nat)
    requires Inv(s) && Possible(s, e)
    ensures p in Next(s, e).deleted <==> p in s.deleted || (e.Drop? && Batch(s, e.t)[0] == p)
    ensures e.Drop? && Batch(s, e.t)[0] == p ==> p !in s.deleted
  {
    if e.Drop? {
      HeadInBatch(s, e.t);
    }
  }

  lemma {:induction false} DropsFrom(s: State, events: seq<Event>, p: nat)
    requires Inv(s) && RunFrom(s, events).0
    ensures (if p in s.deleted then 1 else 0) + Drops(s, events, p) == if p in RunFrom(s, events).1.deleted then 1 else 0
    decreases |events|
  {
    hide Inv, Next, Batch;
    if events != [] {
      InvStep(s, events[0]);
      DropStep(s, events[0], p);
      DropsFrom(Next(s, events[0]), events[1..], p);
    }
  }

  /** In every run a processor is freed at most once, and exactly if the loop of some thread deleted it. */
  lemma FreedOnce(start: State, events: seq<Event>, p: nat)
    requires Init(start) && RunFrom(start, events).0
    ensures Drops(start, events, p) == if p in RunFrom(start, events).1.deleted then 1 else 0
  {
    InitInv(start);
    DropsFrom(start, events, p);
  }

  // How many events epoll_wait may give at once decides what a leaving thread drops.

  /** max_event_epoll_return of the constructor: no call of epoll_wait gives more than k events. */
  ghost predicate BatchesWithin(events: seq<Event>, k: nat) {
    forall e :: e in events && e.Wait? ==> |e.ps| <= k
  }

  /** What a leaving thread takes out of service: all that is spent or removed only afterwards. */
  function Dropped(s: State, t: nat): set<nat>
    requires Possible(s, Leave(t))
  {
    var s' := Next(s, Leave(t));
    (s'.spent + s'.removed) - (s.spent + s.removed)
  }

  /** In every run with at most k events at once, a leaving thread drops no processor but the one whose handler threw. */
  ghost predicate DropsOnlyTheThrower(k: nat) {
    forall start, events, t: nat {:trigger BatchesWithin(events, k), Possible(RunFrom(start, events).1, Leave(t))} ::
      Init(start) && RunFrom(start, events).0 && BatchesWithin(events, k) && Possible(RunFrom(start, events).1, Leave(t)) ==>
        Dropped(RunFrom(start, events).1, t) <= {Batch(RunFrom(start, events).1, t)[0]}
  }

  lemma DroppedIsBatch(s: State, t: nat)
    requires Inv(s) && Possible(s, Leave(t))
    ensures Dropped(s, t) == set p | p in Batch(s, t)
  {
    var s' := Next(s, Leave(t));
    forall p ensures p in Dropped(s, t) <==> p in Batch(s, t) {
      if p in Batch(s, t) {
        LeaveSpendsTheRest(s, t, p);
        assert InBatch(s, p, t) && !Free(s, p);
      }
    }
  }

  lemma {:induction false} BatchesStayWithin(s: State, events: seq<Event>, k: nat, t: nat)
    requires RunFrom(s, events).0 && BatchesWithin(events, k) && forall u: nat :: |Batch(s, u)| <= k
    ensures |Batch(RunFrom(s, events).1, t)| <= k
    decreases |events|
  {
    if events != [] {
      var e := events[0];
      assert e in events;
      forall d | d in events[1..] ensures d in events {}
      forall u: nat ensures |Batch(Next(s, e), u)| <= k {
        BatchStep(s, e, u);
      }
      BatchesStayWithin(Next(s, e), events[1..], k, t);
    }
  }

  // A stopper, 0, and another processor, 1, handed out together.

  const ONE_THREAD := State(map[0 := Idle], map[], {}, {}, {})
  const STOPPER_FIRST: seq<Event> := [Add(0), Add(1), Wait(0, [0, 1]), Handle(0)]

  lemma RunStep(s: State, e: Event, events: seq<Event>)
    requires Possible(s, e)
    ensures RunFrom(s, [e] + events) == RunFrom(Next(s, e), events)
  {
    assert ([e] + events)[1..] == events;
  }

  lemma StopperFirst()
    ensures Init(ONE_THREAD) && RunFrom(ONE_THREAD, STOPPER_FIRST).0
    ensures var s := RunFrom(ONE_THREAD, STOPPER_FIRST).1; Possible(s, Leave(0)) && Batch(s, 0) == [0, 1]
  {
    var s1 := Next(ONE_THREAD, Add(0));
    var s2 := Next(s1, Add(1));
    assert forall p :: p in [0, 1] ==> IsArmed(s2, p);
    assert Possible(s2, Wait(0, [0, 1]));
    var s3 := Next(s2, Wait(0, [0, 1]));
    assert STOPPER_FIRST == [Add(0)] + ([Add(1)] + ([Wait(0, [0, 1])] + ([Handle(0)] + [])));
    RunStep(ONE_THREAD, Add(0), [Add(1)] + ([Wait(0, [0, 1])] + ([Handle(0)] + [])));
    RunStep(s1, Add(1), [Wait(0, [0, 1])] + ([Handle(0)] + []));
    RunStep(s2, Wait(0, [0, 1]), [Handle(0)] + []);
    RunStep(s3, Handle(0), []);
  }

  /** A run in which the processor behind the stopper is dropped, and gets no events however the run goes on. */
  lemma ProcessorBehindStopperIsLost(later: seq<Event>, t: nat)
    requires Possible(RunFrom(ONE_THREAD, STOPPER_FIRST).1, Leave(0))
    requires RunFrom(Next(RunFrom(ONE_THREAD, STOPPER_FIRST).1, Leave(0)), later).0
    requires forall e :: e in later ==> e != EnableSpent(1)
    ensures Init(ONE_THREAD) && RunFrom(ONE_THREAD, STOPPER_FIRST).0
    ensures 1 in Dropped(RunFrom(ONE_THREAD, STOPPER_FIRST).1, 0)
    ensures !InBatch(RunFrom(Next(RunFrom(ONE_THREAD, STOPPER_FIRST).1, Leave(0)), later).1, 1, t)
  {
    StopperFirst();
    InitInv(ONE_THREAD);
    RunInv(ONE_THREAD, STOPPER_FIRST);
    var s := RunFrom(ONE_THREAD, STOPPER_FIRST).1;
    DroppedIsBatch(s, 0);
    LeaveSpendsTheRest(s, 0, 1);
    InvStep(s, Leave(0));
    var s' := Next(s, Leave(0));
    if 1 in s'.spent {
      SpentIsNotServed(s', later, 1, t);
    } else {
      RunInv(s', later);
      RemovedStaysRemoved(s', later, 1);
    }
  }

  /** A leaving thread drops only the processor whose handler threw, in all runs, if and only if events come one at a time. */
  lemma DropsOnlyTheThrowerIff(k: nat)
    ensures DropsOnlyTheThrower(k) <==> k <= 1
  {
    if k <= 1 {
      forall start, events, t: nat | Init(start) && RunFrom(start, events).0 && BatchesWithin(events, k) &&
                                     Possible(RunFrom(start, events).1, Leave(t))
        ensures Dropped(RunFrom(start, events).1, t) <= {Batch(RunFrom(start, events).1, t)[0]}
      {
        OneAtATime(start, events, k, t);
      }
    } else {
      StopperFirst();
      InitInv(ONE_THREAD);
      RunInv(ONE_THREAD, STOPPER_FIRST);
      DroppedIsBatch(RunFrom(ONE_THREAD, STOPPER_FIRST).1, 0);
      assert BatchesWithin(STOPPER_FIRST, k);
      assert 1 in Dropped(RunFrom(ONE_THREAD, STOPPER_FIRST).1, 0);
    }
  }

  lemma OneAtATime(start: State, events: seq<Event>, k: nat, t: nat)
    requires Init(start) && RunFrom(start, events).0 && BatchesWithin(events, k) && k <= 1
    requires Possible(RunFrom(start, events).1, Leave(t))
    ensures Dropped(RunFrom(start, events).1, t) <= {Batch(RunFrom(start, events).1, t)[0]}
  {
    InitInv(start);
    RunInv(start, events);
    DroppedIsBatch(RunFrom(start, events).1, t);
    BatchesStayWithin(start, events, k, t);
  }
}
