/**
  The ring of core/include/mms/lockfree/fixedqueue.h, between one producer and one consumer thread. Checking
  the indices, touching the slot and publishing the new index are separate steps of each.
 */
module Ring {
  import Bits

  // The slots that are in use.

  function Wrap(i: nat, max: nat): (w: nat)
    requires max > 0
    ensures w < max
  {
    i % max
  }

  /** For an index that is less than once too large, the remainder is a subtraction at most. */
  lemma WrapIs(i: nat, max: nat)
    requires max > 0 && i < 2 * max
    ensures Wrap(i, max) == if i < max then i else i - max
  {
    Bits.DivModUnique(i, max, if i < max then 0 else 1, if i < max then i else i - max);
  }

  /** size(). */
  function Count(start: nat, end: nat, max: nat): (n: nat)
    requires max > 0 && start < max
    ensures n < max
  {
    (max + end - start) % max
  }

  lemma CountIs(start: nat, end: nat, max: nat)
    requires start < max && end < max
    ensures Count(start, end, max) == if start <= end then end - start else max + end - start
  {
    WrapIs(max + end - start, max);
  }

  /** Where entry k of the queue lies. */
  function Slot(start: nat, k: nat, max: nat): (i: nat)
    requires max > 0
    ensures i < max
  {
    Wrap(start + k, max)
  }

  /** The entries from start to end, round the ring. */
  function Queue<T>(storage: seq<T>, start: nat, end: nat): (q: seq<T>)
    requires |storage| > 0 && start < |storage| && end < |storage|
    ensures |q| == Count(start, end, |storage|)
  {
    seq(Count(start, end, |storage|), k requires 0 <= k < Count(start, end, |storage|) => storage[Slot(start, k, |storage|)])
  }

  predicate IsFull(start: nat, end: nat, max: nat)
    requires max > 0
  {
    Wrap(end + 1, max) == start
  }

  lemma FullIsCount(start: nat, end: nat, max: nat)
    requires start < max && end < max
    ensures IsFull(start, end, max) <==> Count(start, end, max) == max - 1
    ensures start == end <==> Count(start, end, max) == 0
  {
    WrapIs(end + 1, max);
    CountIs(start, end, max);
  }

  /** The slot behind the queue is none of its slots, so writing it leaves the queue as it is. */
  lemma WriteIsOutside<T>(storage: seq<T>, start: nat, end: nat, v: T)
    requires |storage| > 0 && start < |storage| && end < |storage|
    ensures Queue(storage[end := v], start, end) == Queue(storage, start, end)
  {
    CountIs(start, end, |storage|);
    forall k | 0 <= k < Count(start, end, |storage|) ensures Slot(start, k, |storage|) != end {
      WrapIs(start + k, |storage|);
    }
  }

  lemma PublishEnd<T>(storage: seq<T>, start: nat, end: nat)
    requires |storage| > 0 && start < |storage| && end < |storage| && !IsFull(start, end, |storage|)
    ensures Queue(storage, start, Wrap(end + 1, |storage|)) == Queue(storage, start, end) + [storage[end]]
  {
    var max := |storage|;
    WrapIs(end + 1, max);
    CountIs(start, end, max);
    CountIs(start, Wrap(end + 1, max), max);
    WrapIs(start + Count(start, end, max), max);
  }

  lemma PublishStart<T>(storage: seq<T>, start: nat, end: nat)
    requires |storage| > 0 && start < |storage| && end < |storage| && start != end
    ensures Queue(storage, start, end) == [storage[start]] + Queue(storage, Wrap(start + 1, |storage|), end)
  {
    var max := |storage|;
    WrapIs(start + 1, max);
    CountIs(start, end, max);
    CountIs(Wrap(start + 1, max), end, max);
    WrapIs(start, max);
    assert Slot(start, 0, max) == start;
    var q, r := Queue(storage, start, end), Queue(storage, Wrap(start + 1, max), end);
    forall k | 0 <= k < |r| ensures r[k] == q[k + 1] {
      WrapIs(Wrap(start + 1, max) + k, max);
      WrapIs(start + (k + 1), max);
      assert Slot(Wrap(start + 1, max), k, max) == Slot(start, k + 1, max);
    }
  }

  /** push_back_unsafe does not check: it appends exactly when the ring is not full. */
  lemma UnsafePushIff<T>(storage: seq<T>, start: nat, end: nat, v: T)
    requires |storage| > 0 && start < |storage| && end < |storage|
    ensures Queue(storage[end := v], start, Wrap(end + 1, |storage|)) == Queue(storage, start, end) + [v] <==>
            !IsFull(start, end, |storage|)
  {
    WriteIsOutside(storage, start, end, v);
    if IsFull(start, end, |storage|) {
      CountIs(start, Wrap(end + 1, |storage|), |storage|);
      assert Queue(storage[end := v], start, Wrap(end + 1, |storage|)) == [];
    } else {
      PublishEnd(storage[end := v], start, end);
    }
  }

  // The two threads.

  datatype Producer<T> = ProducerIdle | NotFull(value: T) | Stored(value: T)
  datatype Consumer<T> = ConsumerIdle | NotEmpty | Loaded(value: T)

  datatype State<T> = State(
    storage: seq<T>,
    start: nat,
    end: nat,
    producer: Producer<T>,
    consumer: Consumer<T>,
    pushed: seq<T>,
    popped: seq<T>
  )

  datatype Event<T> =
    | CheckFull(value: T)    // the test of push_back
    | Store                  // storage[EndIndex] = value
    | AdvanceEnd             // EndIndex = NextEndIndex
    | CheckEmpty             // empty(), which the consumer asks before get_pop_front
    | Load                   // ret = storage[StartIndex]
    | AdvanceStart           // StartIndex = (StartIndex + 1) % max_size

  predicate WellFormed<T>(s: State<T>) {
    |s.storage| > 0 && s.start < |s.storage| && s.end < |s.storage|
  }

  predicate Possible<T>(s: State<T>, e: Event<T>)
    requires WellFormed(s)
  {
    match e
    case CheckFull(_) => s.producer.ProducerIdle?
    case Store => s.producer.NotFull?
    case AdvanceEnd => s.producer.Stored?
    case CheckEmpty => s.consumer.ConsumerIdle?
    case Load => s.consumer.NotEmpty?
    case AdvanceStart => s.consumer.Loaded?
  }

  function Next<T>(s: State<T>, e: Event<T>): (s': State<T>)
    requires WellFormed(s) && Possible(s, e)
    ensures WellFormed(s') && |s'.storage| == |s.storage|
  {
    match e
    case CheckFull(v) => if IsFull(s.start, s.end, |s.storage|) then s else s.(producer := NotFull(v))
    case Store => s.(storage := s.storage[s.end := s.producer.value], producer := Stored(s.producer.value))
    case AdvanceEnd => s.(end := Wrap(s.end + 1, |s.storage|), producer := ProducerIdle, pushed := s.pushed + [s.producer.value])
    case CheckEmpty => if s.start == s.end then s else s.(consumer := NotEmpty)
    case Load => s.(consumer := Loaded(s.storage[s.start]))
    case AdvanceStart => s.(start := Wrap(s.start + 1, |s.storage|), consumer := ConsumerIdle, popped := s.popped + [s.consumer.value])
  }

  function RunFrom<T>(s: State<T>, events: seq<Event<T>>): (r: (bool, State<T>))
    requires WellFormed(s)
    ensures WellFormed(r.1)
    decreases |events|
  {
    if events == [] then (true, s)
    else if !Possible(s, events[0]) then (false, s)
    else RunFrom(Next(s, events[0]), events[1..])
  }

  function Queued<T>(s: State<T>): seq<T>
    requires WellFormed(s)
  {
    Queue(s.storage, s.start, s.end)
  }

  ghost predicate Inv<T>(s: State<T>) {
    && WellFormed(s) && s.popped + Queued(s) == s.pushed
    && (!s.producer.ProducerIdle? ==> !IsFull(s.start, s.end, |s.storage|))
    && (s.producer.Stored? ==> s.storage[s.end] == s.producer.value)
    && (!s.consumer.ConsumerIdle? ==> s.start != s.end)
    && (s.consumer.Loaded? ==> s.storage[s.start] == s.consumer.value)
  }

  lemma Regroup<T>(a: seq<T>, b: seq<T>, c: seq<T>)
    ensures (a + b) + c == a + (b + c)
  {
  }

  /** The consumer only makes room and the producer only adds entries: what the other has checked stays true. */
  lemma ChecksStayTrue(start: nat, end: nat, max: nat)
    requires start < max && end < max
    ensures start != end ==> !IsFull(Wrap(start + 1, max), end, max)
    ensures !IsFull(start, end, max) ==> start != Wrap(end + 1, max)
  {
    WrapIs(start + 1, max);
    WrapIs(end + 1, max);
  }

  lemma InvStep<T>(s: State<T>, e: Event<T>)
    requires Inv(s) && Possible(s, e)
    ensures Inv(Next(s, e))
  {
    hide Queue, Wrap, Count, IsFull;
    ChecksStayTrue(s.start, s.end, |s.storage|);
    match e
    case Store =>
      WriteIsOutside(s.storage, s.start, s.end, s.producer.value);
    case AdvanceEnd =>
      PublishEnd(s.storage, s.start, s.end);
      Regroup(s.popped, Queued(s), [s.producer.value]);
      FullMeans(s.start, s.end, |s.storage|);
    case AdvanceStart =>
      PublishStart(s.storage, s.start, s.end);
      Regroup(s.popped, [s.consumer.value], Queued(Next(s, e)));
    case _ =>
  }

  lemma FullMeans(start: nat, end: nat, max: nat)
    requires max > 0
    ensures IsFull(start, end, max) <==> Wrap(end + 1, max) == start
  {
  }

  lemma {:induction false} RunInv<T>(s: State<T>, events: seq<Event<T>>)
    requires Inv(s) && RunFrom(s, events).0
    ensures Inv(RunFrom(s, events).1) && |RunFrom(s, events).1.storage| == |s.storage|
    decreases |events|
  {
    if events != [] {
      InvStep(s, events[0]);
      RunInv(Next(s, events[0]), events[1..]);
    }
  }

  predicate Init<T>(s: State<T>) {
    WellFormed(s) && s.start == 0 && s.end == 0 && s.producer.ProducerIdle? && s.consumer.ConsumerIdle? && s.pushed == [] && s.popped == []
  }

  /**
    In every interleaving what was popped and what is queued make up what was pushed, in order, and the ring
    holds at most one entry less than it has slots.
   */
  lemma FirstInFirstOut<T>(s: State<T>, events: seq<Event<T>>)
    requires Init(s) && RunFrom(s, events).0
    ensures var r := RunFrom(s, events).1;
            r.popped + Queued(r) == r.pushed && |Queued(r)| <= |s.storage| - 1
  {
    RunInv(s, events);
  }

  /** The producer never writes a slot that holds an entry the consumer has still to read. */
  lemma NeverOverwrites<T>(s: State<T>, events: seq<Event<T>>, k: nat)
    requires Init(s) && RunFrom(s, events).0 && Possible(RunFrom(s, events).1, Store)
    requires k < |Queued(RunFrom(s, events).1)|
    ensures var r := RunFrom(s, events).1; Slot(r.start, k, |r.storage|) != r.end
    ensures Queued(Next(RunFrom(s, events).1, Store)) == Queued(RunFrom(s, events).1)
  {
    var r := RunFrom(s, events).1;
    RunInv(s, events);
    CountIs(r.start, r.end, |r.storage|);
    WrapIs(r.start + k, |r.storage|);
    WriteIsOutside(r.storage, r.start, r.end, r.producer.value);
  }

  /** What the consumer has loaded is the oldest entry, and still is when it publishes. */
  lemma LoadsTheOldest<T>(s: State<T>, events: seq<Event<T>>)
    requires Init(s) && RunFrom(s, events).0 && RunFrom(s, events).1.consumer.Loaded?
    ensures var r := RunFrom(s, events).1; |Queued(r)| > 0 && r.consumer.value == Queued(r)[0]
  {
    var r := RunFrom(s, events).1;
    RunInv(s, events);
    FullIsCount(r.start, r.end, |r.storage|);
    WrapIs(r.start, |r.storage|);
  }

  lemma ThreeSteps<T>(s: State<T>, a: Event<T>, b: Event<T>, c: Event<T>)
    requires WellFormed(s) && Possible(s, a) && Possible(Next(s, a), b) && Possible(Next(Next(s, a), b), c)
    ensures RunFrom(s, [a, b, c]) == (true, Next(Next(Next(s, a), b), c))
  {
    assert [a, b, c] == [a] + ([b] + ([c] + []));
    OneStep(s, a, [b] + ([c] + []));
    OneStep(Next(s, a), b, [c] + []);
    OneStep(Next(Next(s, a), b), c, []);
  }

  lemma OneStep<T>(s: State<T>, e: Event<T>, rest: seq<Event<T>>)
    requires WellFormed(s) && Possible(s, e)
    ensures RunFrom(s, [e] + rest) == RunFrom(Next(s, e), rest)
  {
    assert ([e] + rest)[1..] == rest;
  }

  lemma InitInv<T>(s: State<T>)
    requires Init(s)
    ensures Inv(s)
  {
  }

  /** At any time an idle producer gets its value into the queue with its three steps, exactly if a slot besides one is free. */
  lemma PushesIff<T>(s: State<T>, events: seq<Event<T>>, v: T)
    requires Init(s) && RunFrom(s, events).0 && RunFrom(s, events).1.producer.ProducerIdle?
    ensures var r := RunFrom(s, events).1;
            if |Queued(r)| < |s.storage| - 1 then
              var p := RunFrom(r, [CheckFull(v), Store, AdvanceEnd]);
              p.0 && Queued(p.1) == Queued(r) + [v] && p.1.pushed == r.pushed + [v] && p.1.popped == r.popped
            else Possible(r, CheckFull(v)) && Next(r, CheckFull(v)) == r
  {
    hide Queue, Wrap, Count, IsFull, RunFrom;
    var r := RunFrom(s, events).1;
    InitInv(s);
    RunInv(s, events);
    FullIsCount(r.start, r.end, |r.storage|);
    if |Queued(r)| < |s.storage| - 1 {
      ThreeSteps(r, CheckFull(v), Store, AdvanceEnd);
      WriteIsOutside(r.storage, r.start, r.end, v);
      PublishEnd(r.storage[r.end := v], r.start, r.end);
    }
  }

  /** At any time an idle consumer takes the oldest entry off with its three steps, exactly if there is one. */
  lemma PopsIff<T>(s: State<T>, events: seq<Event<T>>)
    requires Init(s) && RunFrom(s, events).0 && RunFrom(s, events).1.consumer.ConsumerIdle?
    ensures var r := RunFrom(s, events).1;
            if |Queued(r)| > 0 then
              var p := RunFrom(r, [CheckEmpty, Load, AdvanceStart]);
              p.0 && Queued(p.1) == Queued(r)[1..] && p.1.popped == r.popped + [Queued(r)[0]] && p.1.pushed == r.pushed
            else Possible(r, CheckEmpty) && Next(r, CheckEmpty) == r
  {
    hide Queue, Wrap, Count, IsFull, RunFrom;
    var r := RunFrom(s, events).1;
    InitInv(s);
    RunInv(s, events);
    FullIsCount(r.start, r.end, |r.storage|);
    if |Queued(r)| > 0 {
      ThreeSteps(r, CheckEmpty, Load, AdvanceStart);
      PublishStart(r.storage, r.start, r.end);
    }
  }

  // The class, used by one thread.

  class FixedQueue<T> {
    var storage: array<T>
    var startIndex: nat
    var endIndex: nat

    ghost predicate Valid()
      reads this, storage
    {
      storage.Length > 0 && startIndex < storage.Length && endIndex < storage.Length
    }

    ghost function Contents(): seq<T>
      reads this, storage
      requires Valid()
    {
      Queue(storage[..], startIndex, endIndex)
    }

    constructor (size: nat, zero: T)
      requires size > 0
      ensures Valid() && Contents() == [] && storage.Length == size && fresh(storage)
    {
      storage := new T[size](_ => zero);
      startIndex, endIndex := 0, 0;
      new;
      CountIs(0, 0, size);
    }

    method Full() returns (full: bool)
      requires Valid()
      ensures full == (|Contents()| == storage.Length - 1)
    {
      FullIsCount(startIndex, endIndex, storage.Length);
      full := (endIndex + 1) % storage.Length == startIndex;
    }

    method Empty() returns (empty: bool)
      requires Valid()
      ensures empty == (Contents() == [])
    {
      FullIsCount(startIndex, endIndex, storage.Length);
      empty := startIndex == endIndex;
    }

    method Size() returns (size: nat)
      requires Valid()
      ensures size == |Contents()|
    {
      size := (storage.Length + endIndex - startIndex) % storage.Length;
    }

    method PushBack(value: T) returns (ok: bool)
      requires Valid()
      modifies this`endIndex, storage
      ensures Valid() && ok == (|old(Contents())| < storage.Length - 1)
      ensures Contents() == if ok then old(Contents()) + [value] else old(Contents())
    {
      hide Queue, Wrap, Count, IsFull;
      FullIsCount(startIndex, endIndex, storage.Length);
      var next := Wrap(endIndex + 1, storage.Length);
      FullMeans(startIndex, endIndex, storage.Length);
      ok := next != startIndex;
      if ok {
        WriteIsOutside(storage[..], startIndex, endIndex, value);
        PublishEnd(storage[..][endIndex := value], startIndex, endIndex);
        storage[endIndex] := value;
        assert storage[..] == old(storage[..])[endIndex := value];
        endIndex := next;
      }
    }

    method GetPopFront() returns (value: T)
      requires Valid() && Contents() != []
      modifies this`startIndex
      ensures Valid() && old(Contents()) == [value] + Contents()
    {
      hide Queue, Wrap, Count, IsFull;
      FullIsCount(startIndex, endIndex, storage.Length);
      PublishStart(storage[..], startIndex, endIndex);
      value := storage[startIndex];
      startIndex := Wrap(startIndex + 1, storage.Length);
    }
  }
}
