/**
  The re-sorting reader of core/src/log.cpp in its non-live mode: records of several threads come almost in
  the order of their timestamps, and a priority queue holds them back until nothing earlier can come.
 */
module LogReader {
  import opened Options

  datatype Record = Record(timestamp: int, content: nat)

  /** buffer_time_in_nanos. */
  const WINDOW: int := 50 * 4 * 1000000

  /** What the reader holds: the priority queue and the rest of the file. */
  datatype Reader = Reader(queue: multiset<Record>, rest: seq<Record>)

  /** A record that top() may give: one with the smallest timestamp. */
  predicate IsTop(r: Record, queue: multiset<Record>) {
    r in queue && forall q :: q in queue ==> r.timestamp <= q.timestamp
  }

  /** std::abs(priqueue.top()->timestamp - logreadtemp->timestamp) < buffer_time_in_nanos */
  predicate Near(t: Record, r: Record) {
    -WINDOW < t.timestamp - r.timestamp < WINDOW
  }

  /** The next record only goes into the queue. */
  ghost predicate HoldsBack(s: Reader)
    requires s.rest != []
  {
    s.queue == multiset{} || exists t :: IsTop(t, s.queue) && Near(t, s.rest[0])
  }

  /** One call of readnextstring: records are read until one is far from the top, or the file ends. */
  ghost predicate Emits(s: Reader, out: Record, s': Reader)
    decreases |s.rest|
  {
    if s.rest == [] then
      IsTop(out, s.queue) && s' == Reader(s.queue - multiset{out}, [])
    else
      var more := Reader(s.queue + multiset{s.rest[0]}, s.rest[1..]);
      if HoldsBack(s) then
        Emits(more, out, s')
      else
        IsTop(out, more.queue) && s' == Reader(more.queue - multiset{out}, more.rest)
  }

  /** The calls up to the one that finds nothing give these records. */
  ghost predicate EmitsAll(s: Reader, outs: seq<Record>)
    decreases |outs|
  {
    if outs == [] then s == Reader(multiset{}, [])
    else exists s' :: Emits(s, outs[0], s') && EmitsAll(s', outs[1..])
  }

  predicate Sorted(rs: seq<Record>) {
    forall i, j :: 0 <= i < j < |rs| ==> rs[i].timestamp <= rs[j].timestamp
  }

  /** No record is later than the window behind an earlier one. */
  predicate InWindow(records: seq<Record>) {
    forall i, j :: 0 <= i < j < |records| ==> records[j].timestamp >= records[i].timestamp - WINDOW
  }

  /** Whatever is still to come is at least as late as r allows: all records read keep to the window. */
  ghost predicate Before(t: int, s: Reader) {
    && (forall q :: q in s.queue ==> t <= q.timestamp)
    && (forall i :: 0 <= i < |s.rest| ==> t <= s.rest[i].timestamp)
  }

  /** The records in the queue and behind them keep to the window. */
  ghost predicate Bounded(s: Reader) {
    && InWindow(s.rest)
    && (forall q, i :: q in s.queue && 0 <= i < |s.rest| ==> s.rest[i].timestamp >= q.timestamp - WINDOW)
  }

  lemma {:induction false} TopExists(queue: multiset<Record>) returns (t: Record)
    requires queue != multiset{}
    ensures IsTop(t, queue)
    decreases |queue|
  {
    var r :| r in queue;
    var others := queue - multiset{r};
    if others == multiset{} {
      assert forall q :: q in queue ==> q == r || q in others;
      t := r;
    } else {
      var u := TopExists(others);
      t := if u.timestamp < r.timestamp then u else r;
      assert forall q :: q in queue ==> q == r || q in others;
    }
  }

  lemma TakeIn(queue: multiset<Record>, rest: seq<Record>)
    requires rest != []
    ensures (queue + multiset{rest[0]}) + multiset(rest[1..]) == queue + multiset(rest)
  {
    assert rest == [rest[0]] + rest[1..];
  }

  lemma FrontAndRest(outs: seq<Record>, behind: multiset<Record>)
    requires outs != [] && multiset(outs[1..]) == behind
    ensures multiset(outs) == behind + multiset{outs[0]}
  {
    assert outs == [outs[0]] + outs[1..];
  }

  lemma TakeOut(queue: multiset<Record>, out: Record, rest: multiset<Record>)
    ensures out in queue ==> (queue - multiset{out}) + rest + multiset{out} == queue + rest
  {
  }

  /** A call takes records in and gives one out; none is lost or made up. */
  lemma {:induction false} EmitsConserves(s: Reader, out: Record, s': Reader)
    requires Emits(s, out, s')
    ensures s'.queue + multiset(s'.rest) + multiset{out} == s.queue + multiset(s.rest)
    ensures |s'.rest| <= |s.rest|
    decreases |s.rest|
  {
    if s.rest == [] {
      TakeOut(s.queue, out, multiset(s.rest));
    } else {
      TakeIn(s.queue, s.rest);
      TakeOut(s.queue + multiset{s.rest[0]}, out, multiset(s.rest[1..]));
      if HoldsBack(s) {
        EmitsConserves(Reader(s.queue + multiset{s.rest[0]}, s.rest[1..]), out, s');
      }
    }
  }

  /** Within the window, what is given out is before everything that is still to come. */
  lemma {:induction false} EmitsInOrder(s: Reader, out: Record, s': Reader)
    requires Emits(s, out, s') && Bounded(s)
    ensures Bounded(s') && Before(out.timestamp, s')
    ensures forall t :: Before(t, s) ==> t <= out.timestamp
    decreases |s.rest|
  {
    if s.rest == [] {
      TopInOrder(s, out);
    } else {
      var more := Reader(s.queue + multiset{s.rest[0]}, s.rest[1..]);
      BoundedMore(s);
      BeforeMore(s);
      if HoldsBack(s) {
        hide Bounded, Before;
        EmitsInOrder(more, out, s');
      } else {
        hide Bounded, Before;
        var t := TopExists(s.queue);
        FarRecord(s, t, out);
        TopInOrder(more, out);
      }
    }
  }

  lemma TopInOrder(s: Reader, out: Record)
    requires Bounded(s) && IsTop(out, s.queue)
    requires forall i :: 0 <= i < |s.rest| ==> out.timestamp <= s.rest[i].timestamp
    ensures Bounded(Reader(s.queue - multiset{out}, s.rest)) && Before(out.timestamp, Reader(s.queue - multiset{out}, s.rest))
    ensures forall t :: Before(t, s) ==> t <= out.timestamp
  {
    assert forall q :: q in s.queue - multiset{out} ==> q in s.queue;
  }

  lemma BoundedMore(s: Reader)
    requires s.rest != [] && Bounded(s)
    ensures Bounded(Reader(s.queue + multiset{s.rest[0]}, s.rest[1..]))
  {
    var more := Reader(s.queue + multiset{s.rest[0]}, s.rest[1..]);
    forall q, i | q in more.queue && 0 <= i < |more.rest| ensures more.rest[i].timestamp >= q.timestamp - WINDOW {
      assert more.rest[i] == s.rest[i + 1];
    }
  }

  lemma BeforeMore(s: Reader)
    requires s.rest != []
    ensures forall t :: Before(t, s) ==> Before(t, Reader(s.queue + multiset{s.rest[0]}, s.rest[1..]))
  {
  }

  /** A record as far as the window from the top: nothing behind it can come before what is given out. */
  lemma FarRecord(s: Reader, t: Record, out: Record)
    requires s.rest != [] && Bounded(s) && IsTop(t, s.queue) && !Near(t, s.rest[0])
    requires IsTop(out, s.queue + multiset{s.rest[0]})
    ensures forall i :: 0 <= i < |s.rest[1..]| ==> out.timestamp <= s.rest[1..][i].timestamp
  {
    var x := s.rest[0];
    assert t in s.queue + multiset{x} && x in s.queue + multiset{x};
    assert x.timestamp >= t.timestamp - WINDOW;
    forall i | 0 <= i < |s.rest[1..]| ensures out.timestamp <= s.rest[1..][i].timestamp {
      var r := s.rest[i + 1];
      assert r.timestamp >= x.timestamp - WINDOW && r.timestamp >= t.timestamp - WINDOW;
    }
  }

  lemma {:induction false} AllConserves(s: Reader, outs: seq<Record>)
    requires EmitsAll(s, outs)
    ensures multiset(outs) == s.queue + multiset(s.rest)
    decreases |outs|
  {
    if outs != [] {
      var s' :| Emits(s, outs[0], s') && EmitsAll(s', outs[1..]);
      hide Emits;
      EmitsConserves(s, outs[0], s');
      AllConserves(s', outs[1..]);
      FrontAndRest(outs, s'.queue + multiset(s'.rest));
    }
  }

  lemma {:induction false} AllInOrder(s: Reader, outs: seq<Record>)
    requires EmitsAll(s, outs) && Bounded(s)
    ensures Sorted(outs)
    ensures forall t :: outs != [] && Before(t, s) ==> t <= outs[0].timestamp
    decreases |outs|
  {
    if outs != [] {
      var s' :| Emits(s, outs[0], s') && EmitsAll(s', outs[1..]);
      EmitsInOrder(s, outs[0], s');
      AllInOrder(s', outs[1..]);
      forall i, j | 0 <= i < j < |outs| ensures outs[i].timestamp <= outs[j].timestamp {
        assert outs[j] == outs[1..][j - 1];
        if i > 0 { assert outs[i] == outs[1..][i - 1]; } else { assert outs[1..][0].timestamp <= outs[1..][j - 1].timestamp; }
      }
    }
  }

  /** Reading a file to its end gives each record once, and if they keep to the window, in order. */
  lemma SortedPermutation(records: seq<Record>, outs: seq<Record>)
    requires EmitsAll(Reader(multiset{}, records), outs)
    ensures multiset(outs) == multiset(records)
    ensures InWindow(records) ==> Sorted(outs)
  {
    AllConserves(Reader(multiset{}, records), outs);
    if InWindow(records) {
      AllInOrder(Reader(multiset{}, records), outs);
    }
  }

  // The window is exact: these three records are one nanosecond outside of it.

  const FIRST := Record(WINDOW + 1, 0)
  const SECOND := Record(2 * WINDOW + 1, 1)
  const LATE := Record(WINDOW, 2)

  lemma FirstIsEmitted()
    ensures Emits(Reader(multiset{}, [FIRST, SECOND, LATE]), FIRST, Reader(multiset{SECOND}, [LATE]))
  {
    var t := Reader(multiset{FIRST}, [SECOND, LATE]);
    assert [FIRST, SECOND, LATE][1..] == [SECOND, LATE] && [SECOND, LATE][1..] == [LATE];
    assert multiset{} + multiset{FIRST} == multiset{FIRST} && multiset{FIRST} + multiset{SECOND} == multiset{FIRST, SECOND};
    assert multiset{FIRST, SECOND} - multiset{FIRST} == multiset{SECOND};
    assert forall r :: IsTop(r, t.queue) ==> r == FIRST;
    assert IsTop(FIRST, multiset{FIRST, SECOND});
    assert Emits(t, FIRST, Reader(multiset{SECOND}, [LATE]));
  }

  lemma LateIsEmitted()
    ensures Emits(Reader(multiset{SECOND}, [LATE]), LATE, Reader(multiset{SECOND}, []))
  {
    assert [LATE][1..] == [] && multiset{SECOND} + multiset{LATE} == multiset{SECOND, LATE};
    assert multiset{SECOND, LATE} - multiset{LATE} == multiset{SECOND};
    assert forall r :: IsTop(r, multiset{SECOND}) ==> r == SECOND;
    assert IsTop(LATE, multiset{SECOND, LATE});
  }

  lemma SecondIsEmitted()
    ensures EmitsAll(Reader(multiset{SECOND}, []), [SECOND])
  {
    assert multiset{SECOND} - multiset{SECOND} == multiset{} && IsTop(SECOND, multiset{SECOND});
    assert Emits(Reader(multiset{SECOND}, []), SECOND, Reader(multiset{}, []));
    assert [SECOND][1..] == [];
    assert EmitsAll(Reader(multiset{}, []), []);
  }

  lemma EmitsThen(s: Reader, out: Record, s': Reader, outs: seq<Record>)
    requires Emits(s, out, s') && EmitsAll(s', outs)
    ensures EmitsAll(s, [out] + outs)
  {
    assert ([out] + outs)[1..] == outs;
  }

  /** One nanosecond beyond the window, and records come out of order. */
  lemma WindowIsExact()
    ensures EmitsAll(Reader(multiset{}, [FIRST, SECOND, LATE]), [FIRST, LATE, SECOND]) && !Sorted([FIRST, LATE, SECOND])
    ensures forall i, j :: 0 <= i < j < 3 ==>
              [FIRST, SECOND, LATE][j].timestamp >= [FIRST, SECOND, LATE][i].timestamp - (WINDOW + 1)
  {
    hide Emits, EmitsAll;
    FirstIsEmitted();
    LateIsEmitted();
    SecondIsEmitted();
    assert [LATE] + [SECOND] == [LATE, SECOND] && [FIRST] + [LATE, SECOND] == [FIRST, LATE, SECOND];
    EmitsThen(Reader(multiset{SECOND}, [LATE]), LATE, Reader(multiset{SECOND}, []), [SECOND]);
    EmitsThen(Reader(multiset{}, [FIRST, SECOND, LATE]), FIRST, Reader(multiset{SECOND}, [LATE]), [LATE, SECOND]);
    var outs := [FIRST, LATE, SECOND];
    assert outs[0].timestamp > outs[1].timestamp;
  }

  /** Every file whose records are at most so late is read in order. */
  ghost predicate SortsUpTo(late: nat) {
    forall records, outs :: LateBy(records, late) && EmitsAll(Reader(multiset{}, records), outs) ==> Sorted(outs)
  }

  /** No record is more nanoseconds than that behind an earlier one. */
  predicate LateBy(records: seq<Record>, late: nat) {
    forall i, j :: 0 <= i < j < |records| ==> records[j].timestamp >= records[i].timestamp - late
  }

  /** What the reader can put right is a delay of 200 milliseconds, and no more. */
  lemma SortsUpToIff(late: nat)
    ensures SortsUpTo(late) <==> late <= 200_000_000
  {
    hide EmitsAll, Sorted;
    if late <= 200_000_000 {
      forall records, outs | LateBy(records, late) && EmitsAll(Reader(multiset{}, records), outs) ensures Sorted(outs) {
        SortedPermutation(records, outs);
      }
    } else {
      WindowIsExact();
      assert LateBy([FIRST, SECOND, LATE], late);
    }
  }

  /** What s emits next, the reader at start emits. */
  ghost predicate Continues(start: Reader, s: Reader) {
    forall out, s' :: Emits(s, out, s') ==> Emits(start, out, s')
  }

  lemma SameContinues(s: Reader)
    ensures Continues(s, s)
  {
  }

  lemma LastEmits(start: Reader, s: Reader, out: Record)
    requires Continues(start, s) && s.rest == [] && IsTop(out, s.queue)
    ensures Emits(start, out, Reader(s.queue - multiset{out}, []))
  {
    assert Emits(s, out, Reader(s.queue - multiset{out}, []));
  }

  lemma FarEmits(start: Reader, s: Reader, out: Record)
    requires Continues(start, s)
    requires s.rest != [] && !HoldsBack(s)
    requires IsTop(out, s.queue + multiset{s.rest[0]})
    ensures Emits(start, out, Reader(s.queue + multiset{s.rest[0]} - multiset{out}, s.rest[1..]))
  {
    assert Emits(s, out, Reader(s.queue + multiset{s.rest[0]} - multiset{out}, s.rest[1..]));
  }

  lemma HoldBack(start: Reader, s: Reader)
    requires Continues(start, s)
    requires s.rest != [] && HoldsBack(s)
    ensures Continues(start, Reader(s.queue + multiset{s.rest[0]}, s.rest[1..]))
  {
    forall out, s' | Emits(Reader(s.queue + multiset{s.rest[0]}, s.rest[1..]), out, s') ensures Emits(start, out, s') {
      assert Emits(s, out, s');
    }
  }

  class Log {
    const file: seq<Record>
    var next: nat                       // the position in the file
    var priqueue: multiset<Record>

    ghost predicate Valid()
      reads this
    {
      next <= |file|
    }

    ghost function Value(): Reader
      reads this
      requires Valid()
    {
      Reader(priqueue, file[next..])
    }

    constructor (file: seq<Record>)
      ensures Valid() && Value() == Reader(multiset{}, file)
    {
      this.file, next, priqueue := file, 0, multiset{};
    }

    method Pop() returns (r: Record)
      requires priqueue != multiset{}
      modifies this`priqueue
      ensures IsTop(r, old(priqueue)) && priqueue == old(priqueue) - multiset{r}
    {
      ghost var t := TopExists(priqueue);
      r :| IsTop(r, priqueue) && r in priqueue;
      priqueue := priqueue - multiset{r};
    }

    /** readnextstring(false); None is the empty string of the end. */
    method ReadNext() returns (r: Option<Record>)
      requires Valid()
      modifies this
      ensures Valid()
      ensures match r
              case Some(out) => Emits(old(Value()), out, Value())
              case None => old(Value()) == Reader(multiset{}, []) == Value()
    {
      hide Emits, Continues, IsTop, HoldsBack;
      ghost var start := Value();
      SameContinues(start);
      while true
        invariant Valid() && Continues(start, Value())
        invariant Value() == Reader(multiset{}, []) ==> old(Value()) == Reader(multiset{}, [])
        decreases |file| - next
      {
        ghost var s := Value();
        if next == |file| {
          if priqueue == multiset{} {
            return None;
          }
          var out := Pop();
          LastEmits(start, s, out);
          return Some(out);
        }
        r := Take();
        if r.Some? {
          FarEmits(start, s, r.value);
          return;
        }
        HoldBack(start, s);
      }
    }

    /** One record read: it goes into the queue, and if it is far from the top, the top comes out. */
    method Take() returns (r: Option<Record>)
      requires Valid() && next < |file|
      modifies this
      ensures Valid() && next == old(next) + 1 && Value().rest == old(Value()).rest[1..]
      ensures r.None? <==> HoldsBack(old(Value()))
      ensures match r
              case None => priqueue == old(priqueue) + multiset{old(Value()).rest[0]}
              case Some(out) =>
                && IsTop(out, old(priqueue) + multiset{old(Value()).rest[0]})
                && priqueue == old(priqueue) + multiset{old(Value()).rest[0]} - multiset{out}
    {
      hide IsTop, Near;
      var x := file[next];
      assert Value().rest[1..] == file[next + 1..];
      var holdBack := priqueue == multiset{};
      if !holdBack {
        holdBack := TopIsNear(x);
      }
      priqueue := priqueue + multiset{x};
      next := next + 1;
      r := None;
      if !holdBack {
        var out := Pop();
        r := Some(out);
      }
    }

    method TopIsNear(x: Record) returns (near: bool)
      requires priqueue != multiset{}
      ensures near <==> exists t :: IsTop(t, priqueue) && Near(t, x)
    {
      ghost var u := TopExists(priqueue);
      var t: Record :| IsTop(t, priqueue) && t in priqueue;
      near := Near(t, x);
    }
  }

  /** The loop of the log reader tool: print until the empty string. */
  method ReadAll(file: seq<Record>) returns (outs: seq<Record>)
    ensures multiset(outs) == multiset(file)
    ensures InWindow(file) ==> Sorted(outs)
  {
    hide Emits, EmitsAll, Goes;
    var log := new Log(file);
    outs := [];
    ghost var start := log.Value();
    NothingYet(start);
    while true
      invariant fresh(log) && log.Valid() && Goes(start, outs, log.Value())
      decreases |log.Value().queue| + |log.Value().rest|
    {
      ghost var s := log.Value();
      var r := log.ReadNext();
      if r.None? {
        break;
      }
      EmitsConserves(s, r.value, log.Value());
      Fewer(s, r.value, log.Value());
      OneMore(start, outs, s, r.value, log.Value());
      outs := outs + [r.value];
    }
    AtEnd(start, outs);
    SortedPermutation(file, outs);
  }

  /** After these outputs the reader is at s: what s goes on to emit, the reader emits behind them. */
  ghost predicate Goes(start: Reader, outs: seq<Record>, s: Reader) {
    forall more :: EmitsAll(s, more) ==> EmitsAll(start, outs + more)
  }

  lemma NothingYet(start: Reader)
    ensures Goes(start, [], start)
  {
    assert forall more: seq<Record> :: [] + more == more;
  }

  lemma OneMore(start: Reader, outs: seq<Record>, s: Reader, out: Record, s': Reader)
    requires Goes(start, outs, s) && Emits(s, out, s')
    ensures Goes(start, outs + [out], s')
  {
    forall more | EmitsAll(s', more) ensures EmitsAll(start, outs + [out] + more) {
      EmitsThen(s, out, s', more);
      assert outs + [out] + more == outs + ([out] + more);
    }
  }

  lemma AtEnd(start: Reader, outs: seq<Record>)
    requires Goes(start, outs, Reader(multiset{}, []))
    ensures EmitsAll(start, outs)
  {
    assert EmitsAll(Reader(multiset{}, []), []);
    assert outs + [] == outs;
  }

  lemma Fewer(s: Reader, out: Record, s': Reader)
    requires s'.queue + multiset(s'.rest) + multiset{out} == s.queue + multiset(s.rest)
    ensures |s'.queue| + |s'.rest| < |s.queue| + |s.rest|
  {
    assert |s'.queue + multiset(s'.rest) + multiset{out}| == |s'.queue| + |s'.rest| + 1;
  }
}
