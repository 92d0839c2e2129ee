/**
  One logger of core/include/mms/log/log.h: the thread that owns it fills a buffer, and the log thread, or the
  owner when the buffer is full, writes it to the file under the mutex. The owner checks, copies and publishes
  without the mutex, so all steps interleave; copying and writing go byte by byte.
 */
module LogPipeline {
  import opened Options

  type Byte = n: int | 0 <= n < 256

  /** init_log_memory. */
  const CAPACITY: nat := 1048576

  datatype Who = Owner | Flusher

  /** Where the owner is in log and replinish. */
  datatype Phase =
    | Idle
    | Replenishing(entry: seq<Byte>)            // the entry does not fit
    | Resetting(entry: seq<Byte>)               // flushed, and before the cursors go back
    | Copying(entry: seq<Byte>, done: nat)

  /** flush, from its snapshot of next_write on; the mutex is held. */
  datatype Flush = NoFlush | Flush(who: Who, current: nat, pos: nat)

  datatype State = State(
    hasBuffer: bool,
    buffer: seq<Byte>,
    nextRead: nat,
    nextWrite: nat,
    phase: Phase,
    flush: Flush,
    file: seq<Byte>,                            // what has been written of this logger
    entries: seq<seq<Byte>>                     // the entries published so far
  )

  const START := State(false, [], 0, 0, Idle, NoFlush, [], [])

  function Concat(entries: seq<seq<Byte>>): seq<Byte> {
    if entries == [] then [] else Concat(entries[..|entries| - 1]) + entries[|entries| - 1]
  }

  datatype Event =
    | Begin(entry: seq<Byte>)     // log: the check whether the entry fits
    | Alloc(memory: seq<Byte>)    // replinish for the first time; fresh memory holds anything
    | Snapshot(taker: Who)           // flush: the mutex is taken and next_write read
    | WriteByte                   // part of ::write
    | Advance                     // the end of flush
    | Reset                       // the second part of replinish
    | CopyByte                    // part of std::copy
    | Publish                     // next_write is moved

  predicate Possible(s: State, e: Event) {
    match e
    case Begin(entry) => s.phase == Idle && 0 < |entry| <= CAPACITY
    case Alloc(memory) => s.phase.Replenishing? && !s.hasBuffer && s.flush == NoFlush && |memory| == CAPACITY
    case Snapshot(taker) => s.flush == NoFlush && (taker == Owner ==> s.phase.Replenishing? && s.hasBuffer)
    case WriteByte => s.flush.Flush? && s.flush.pos < s.flush.current && s.flush.pos < |s.buffer|
    case Advance => s.flush.Flush? && s.flush.pos == s.flush.current
    case Reset => s.phase.Resetting? && s.flush == NoFlush
    case CopyByte => s.phase.Copying? && s.phase.done < |s.phase.entry| && s.nextWrite + s.phase.done < |s.buffer|
    case Publish => s.phase.Copying? && s.phase.done == |s.phase.entry|
  }

  /** The owner goes on once its own flush is over. */
  function AfterFlush(phase: Phase, who: Who): Phase {
    if who == Owner && phase.Replenishing? then Resetting(phase.entry) else phase
  }

  function Next(s: State, e: Event): State
    requires Possible(s, e)
  {
    match e
    case Begin(entry) =>
      // buffer_end is null before the first allocation, so the check fails then as well
      s.(phase := if s.nextWrite + |entry| >= (if s.hasBuffer then CAPACITY else 0) then Replenishing(entry) else Copying(entry, 0))
    case Alloc(memory) => s.(hasBuffer := true, buffer := memory, nextRead := 0, nextWrite := 0, phase := Copying(s.phase.entry, 0))
    case Snapshot(taker) =>
      if s.nextRead == s.nextWrite then s.(phase := AfterFlush(s.phase, taker))
      else s.(flush := Flush(taker, s.nextWrite, s.nextRead))
    case WriteByte => s.(file := s.file + [s.buffer[s.flush.pos]], flush := s.flush.(pos := s.flush.pos + 1))
    case Advance => s.(nextRead := s.flush.current, flush := NoFlush, phase := AfterFlush(s.phase, s.flush.who))
    case Reset => s.(nextRead := 0, nextWrite := 0, phase := Copying(s.phase.entry, 0))
    case CopyByte =>
      s.(buffer := s.buffer[s.nextWrite + s.phase.done := s.phase.entry[s.phase.done]], phase := s.phase.(done := s.phase.done + 1))
    case Publish => s.(nextWrite := s.nextWrite + |s.phase.entry|, entries := s.entries + [s.phase.entry], phase := Idle)
  }

  /** The states a run of these events goes through, from the start; None where an event was not possible. */

  function RunTo(events: seq<Event>): Option<State> {
    if events == [] then Some(START) else
      match RunTo(events[..|events| - 1])
      case None => None
      case Some(s) =>
        var e := events[|events| - 1];
        if Possible(s, e) then Some(Next(s, e)) else None
  }

  /** From where on the file still lacks what is in the buffer. */
  function Unwritten(s: State): nat {
    if s.flush.Flush? then s.flush.pos else s.nextRead
  }

  ghost predicate CursorsInOrder(s: State) {
    && s.nextRead <= s.nextWrite <= |s.buffer|
    && |s.buffer| == (if s.hasBuffer then CAPACITY else 0)
    && (s.flush.Flush? ==> s.hasBuffer && s.nextRead <= s.flush.pos <= s.flush.current <= s.nextWrite)
  }

  /** file ++ buffer[next_read..next_write] is what was published. */
  ghost predicate NothingLost(s: State)
    requires CursorsInOrder(s)
  {
    s.file + s.buffer[Unwritten(s)..s.nextWrite] == Concat(s.entries)
  }

  /** The file ends, or after this flush will end, between two entries. */
  ghost predicate NothingTorn(s: State, whole: nat)
    requires CursorsInOrder(s)
  {
    && whole <= |s.entries|
    && s.file + (if s.flush.Flush? then s.buffer[s.flush.pos..s.flush.current] else []) == Concat(s.entries[..whole])
  }

  ghost predicate OwnerOk(s: State) {
    && (s.flush.Flush? && s.flush.who == Owner ==> s.phase.Replenishing?)
    && match s.phase
       case Idle => true
       case Replenishing(entry) => 0 < |entry| <= CAPACITY && (s.flush.Flush? && s.flush.who == Owner ==> s.flush.current == s.nextWrite)
       case Resetting(entry) => 0 < |entry| <= CAPACITY && s.hasBuffer && s.nextRead == s.nextWrite && s.flush == NoFlush
       case Copying(entry, done) =>
         && s.hasBuffer && done <= |entry| && s.nextWrite + |entry| <= |s.buffer| && s.nextWrite + done <= |s.buffer|
         && s.buffer[s.nextWrite..s.nextWrite + done] == entry[..done]
  }

  ghost predicate Inv(s: State) {
    CursorsInOrder(s) && OwnerOk(s) && NothingLost(s) && exists whole: nat :: NothingTorn(s, whole)
  }

  lemma StepCursors(s: State, e: Event)
    requires CursorsInOrder(s) && OwnerOk(s) && Possible(s, e)
    ensures CursorsInOrder(Next(s, e))
  {
  }

  lemma StepOwner(s: State, e: Event)
    requires CursorsInOrder(s) && OwnerOk(s) && Possible(s, e)
    ensures OwnerOk(Next(s, e))
  {
    if e.CopyByte? {
      var k := s.nextWrite + s.phase.done;
      assert s.buffer[k := s.phase.entry[s.phase.done]][s.nextWrite..k + 1] == s.buffer[s.nextWrite..k] + [s.phase.entry[s.phase.done]];
    }
  }

  lemma SliceStep(b: seq<Byte>, i: nat, j: nat)
    requires i < j <= |b|
    ensures [b[i]] + b[i + 1..j] == b[i..j]
  {
  }

  lemma OutsideSlice(b: seq<Byte>, k: nat, v: Byte, i: nat, j: nat)
    requires i <= j <= k < |b|
    ensures b[k := v][i..j] == b[i..j]
  {
  }

  lemma ConcatPublish(entries: seq<seq<Byte>>, entry: seq<Byte>, whole: nat)
    requires whole <= |entries|
    ensures Concat(entries + [entry]) == Concat(entries) + entry
    ensures (entries + [entry])[..whole] == entries[..whole]
  {
    assert (entries + [entry])[..|entries|] == entries;
  }

  lemma StepLost(s: State, e: Event)
    requires CursorsInOrder(s) && OwnerOk(s) && NothingLost(s) && Possible(s, e) && CursorsInOrder(Next(s, e))
    ensures NothingLost(Next(s, e))
  {
    hide *;
    match e
    case WriteByte =>
      WriteKeeps(s);
    case CopyByte =>
      CopyKeeps(s);
    case Publish =>
      PublishKeeps(s);
    case Alloc(memory) =>
      StartKeeps(s, e);
    case Reset =>
      StartKeeps(s, e);
    case _ =>
      CursorKeeps(s, e);
  }

  lemma CopyKeeps(s: State)
    requires CursorsInOrder(s) && NothingLost(s) && Possible(s, CopyByte) && CursorsInOrder(Next(s, CopyByte))
    ensures NothingLost(Next(s, CopyByte))
  {
    hide Concat;
    OutsideSlice(s.buffer, s.nextWrite + s.phase.done, s.phase.entry[s.phase.done], Unwritten(s), s.nextWrite);
  }

  /** A flush that begins or ends leaves what is written and what is not. */
  lemma CursorKeeps(s: State, e: Event)
    requires CursorsInOrder(s) && NothingLost(s) && (e.Begin? || e.Snapshot? || e.Advance?) && Possible(s, e)
    requires CursorsInOrder(Next(s, e))
    ensures NothingLost(Next(s, e))
  {
    hide Concat;
  }

  lemma WriteKeeps(s: State)
    requires CursorsInOrder(s) && OwnerOk(s) && NothingLost(s) && Possible(s, WriteByte) && CursorsInOrder(Next(s, WriteByte))
    ensures NothingLost(Next(s, WriteByte))
  {
    hide Concat, OwnerOk;
    SliceStep(s.buffer, s.flush.pos, s.nextWrite);
    Regroup(s.file, [s.buffer[s.flush.pos]], s.buffer[s.flush.pos + 1..s.nextWrite]);
  }

  /** The cursors go to the start of the buffer only when everything is written. */
  lemma StartKeeps(s: State, e: Event)
    requires CursorsInOrder(s) && OwnerOk(s) && NothingLost(s) && (e.Alloc? || e.Reset?) && Possible(s, e)
    requires CursorsInOrder(Next(s, e))
    ensures NothingLost(Next(s, e))
  {
    hide Concat;
    assert s.nextRead == s.nextWrite;
    NothingBetween(s.buffer, s.nextRead, s.nextWrite);
    NothingBetween(Next(s, e).buffer, 0, 0);
  }

  lemma PublishKeeps(s: State)
    requires CursorsInOrder(s) && OwnerOk(s) && NothingLost(s) && Possible(s, Publish) && CursorsInOrder(Next(s, Publish))
    ensures NothingLost(Next(s, Publish))
  {
    hide Concat;
    var i, j, end := Unwritten(s), s.nextWrite, s.nextWrite + |s.phase.entry|;
    ConcatPublish(s.entries, s.phase.entry, 0);
    assert s.buffer[i..end] == s.buffer[i..j] + s.buffer[j..end];
    assert s.phase.entry[..|s.phase.entry|] == s.phase.entry;
    Regroup(s.file, s.buffer[i..j], s.buffer[j..end]);
  }

  lemma Regroup(a: seq<Byte>, b: seq<Byte>, c: seq<Byte>)
    ensures (a + b) + c == a + (b + c)
  {
  }

  lemma NothingBetween(b: seq<Byte>, i: nat, j: nat)
    requires i <= j <= |b|
    ensures i == j ==> b[i..j] == []
  {
  }

  lemma StepTorn(s: State, e: Event, whole: nat) returns (whole': nat)
    requires Inv(s) && Possible(s, e) && CursorsInOrder(Next(s, e)) && NothingTorn(s, whole)
    ensures NothingTorn(Next(s, e), whole')
  {
    hide Concat, NothingLost;
    whole' := whole;
    match e
    case Snapshot(_) =>
      if s.nextRead != s.nextWrite {
        whole' := |s.entries|;
        SnapshotTakesAll(s, e);
      }
    case WriteByte =>
      WriteKeepsWhole(s, whole);
    case Advance =>
      NothingBetween(s.buffer, s.flush.pos, s.flush.current);
    case CopyByte =>
      if s.flush.Flush? {
        OutsideSlice(s.buffer, s.nextWrite + s.phase.done, s.phase.entry[s.phase.done], s.flush.pos, s.flush.current);
      }
    case Publish =>
      ConcatPublish(s.entries, s.phase.entry, whole);
    case _ =>
  }

  lemma SnapshotTakesAll(s: State, e: Event)
    requires Inv(s) && e.Snapshot? && Possible(s, e) && s.nextRead != s.nextWrite && CursorsInOrder(Next(s, e))
    ensures NothingTorn(Next(s, e), |s.entries|)
  {
    hide Concat;
    assert s.entries[..|s.entries|] == s.entries;
  }

  lemma WriteKeepsWhole(s: State, whole: nat)
    requires CursorsInOrder(s) && NothingTorn(s, whole) && Possible(s, WriteByte) && CursorsInOrder(Next(s, WriteByte))
    ensures NothingTorn(Next(s, WriteByte), whole)
  {
    hide Concat;
    SliceStep(s.buffer, s.flush.pos, s.flush.current);
    Regroup(s.file, [s.buffer[s.flush.pos]], s.buffer[s.flush.pos + 1..s.flush.current]);
  }

  lemma InvStep(s: State, e: Event)
    requires Inv(s) && Possible(s, e)
    ensures Inv(Next(s, e))
  {
    hide NothingLost, NothingTorn, Next, Possible, OwnerOk, CursorsInOrder;
    StepCursors(s, e);
    StepOwner(s, e);
    StepLost(s, e);
    var whole: nat :| NothingTorn(s, whole);
    var whole' := StepTorn(s, e, whole);
    assert NothingTorn(Next(s, e), whole');
  }

  lemma {:induction false} RunInv(events: seq<Event>)
    requires RunTo(events).Some?
    ensures Inv(RunTo(events).value)
  {
    hide Inv, Next, Possible;
    if events == [] {
      StartInv();
    } else {
      RunInv(events[..|events| - 1]);
      InvStep(RunTo(events[..|events| - 1]).value, events[|events| - 1]);
    }
  }

  lemma StartInv()
    ensures Inv(START)
  {
    assert NothingTorn(START, 0);
  }

  /** In every interleaving nothing is lost, repeated or reordered: the file and what the cursors enclose make up the published entries. */
  lemma FileAndBufferArePublished(events: seq<Event>)
    requires RunTo(events).Some? && RunTo(events).value.flush == NoFlush
    ensures var s := RunTo(events).value;
            && s.nextRead <= s.nextWrite <= |s.buffer| && (s.hasBuffer ==> |s.buffer| == CAPACITY)
            && s.file + s.buffer[s.nextRead..s.nextWrite] == Concat(s.entries)
  {
    RunInv(events);
  }

  /** Nor is an entry torn: between flushes the file holds a number of whole entries, the oldest ones. */
  lemma FileHoldsWholeEntries(events: seq<Event>)
    requires RunTo(events).Some? && RunTo(events).value.flush == NoFlush
    ensures var s := RunTo(events).value;
            exists whole: nat :: whole <= |s.entries| && s.file == Concat(s.entries[..whole])
  {
    RunInv(events);
    var s := RunTo(events).value;
    var whole: nat :| NothingTorn(s, whole);
    assert s.file + [] == s.file;
  }

  /** Also while a flush is under way the file is a beginning of what was published. */
  lemma FileIsPrefix(events: seq<Event>)
    requires RunTo(events).Some?
    ensures RunTo(events).value.file <= Concat(RunTo(events).value.entries)
  {
    RunInv(events);
  }

  /** The assertions of flush and replinish hold, and no byte is copied outside the buffer. */
  lemma AssertionsHold(events: seq<Event>)
    requires RunTo(events).Some?
    ensures var s := RunTo(events).value;
            && s.nextWrite >= s.nextRead
            && (s.phase.Resetting? ==> s.nextRead == s.nextWrite)
            && (s.phase.Copying? ==> s.nextWrite + |s.phase.entry| <= |s.buffer|)
            && (s.flush.Flush? ==> s.flush.current <= |s.buffer|)
  {
    RunInv(events);
  }

  /** A flush that finds the owner idle leaves the whole log in the file. */
  lemma FlushWhileIdle(events: seq<Event>)
    requires RunTo(events).Some? && Possible(RunTo(events).value, Advance)
    requires RunTo(events).value.flush.current == RunTo(events).value.nextWrite
    ensures Next(RunTo(events).value, Advance).file == Concat(RunTo(events).value.entries)
  {
    RunInv(events);
    var s := RunTo(events).value;
    assert s.buffer[s.flush.pos..s.nextWrite] == [];
  }

  /** The owner is never blocked for good: once no flush holds the mutex, it has a step to take. */
  lemma OwnerCanGoOn(events: seq<Event>, memory: seq<Byte>)
    requires RunTo(events).Some? && |memory| == CAPACITY
    ensures var s := RunTo(events).value;
            && (s.flush.Flush? ==> Possible(s, WriteByte) || Possible(s, Advance))
            && (s.flush == NoFlush && s.phase != Idle ==> OwnerStep(s, memory))
  {
    hide RunTo;
    RunInv(events);
    StateCanGoOn(RunTo(events).value, memory);
  }

  predicate OwnerStep(s: State, memory: seq<Byte>) {
    Possible(s, Alloc(memory)) || Possible(s, Snapshot(Owner)) || Possible(s, Reset) || Possible(s, CopyByte) || Possible(s, Publish)
  }

  lemma StateCanGoOn(s: State, memory: seq<Byte>)
    requires CursorsInOrder(s) && OwnerOk(s) && |memory| == CAPACITY
    ensures s.flush.Flush? ==> Possible(s, WriteByte) || Possible(s, Advance)
    ensures s.flush == NoFlush && s.phase != Idle ==> OwnerStep(s, memory)
  {
  }

  // What the flusher can do.

  /** A step of the flusher's own. */
  predicate IsFlushers(e: Event) {
    e == Snapshot(Flusher) || e == WriteByte || e == Advance
  }

  lemma RunMore(events: seq<Event>, e: Event)
    requires RunTo(events).Some? && Possible(RunTo(events).value, e)
    ensures RunTo(events + [e]) == Some(Next(RunTo(events).value, e))
  {
    assert (events + [e])[..|events|] == events;
  }

  lemma AllMore(more: seq<Event>, e: Event)
    requires (forall d :: d in more ==> IsFlushers(d)) && IsFlushers(e)
    ensures forall d :: d in more + [e] ==> IsFlushers(d)
  {
  }

  /** What a flush has taken on is written, without another step of the owner. */
  lemma {:induction false} FlushToEnd(events: seq<Event>, start: seq<Event>, done: seq<Event>) returns (more: seq<Event>)
    requires events == start + done && RunTo(events).Some? && RunTo(events).value.flush.Flush?
    requires forall d :: d in done ==> IsFlushers(d)
    ensures forall d :: d in more ==> IsFlushers(d)
    ensures var s, r := RunTo(events).value, RunTo(start + more);
            && r.Some? && r.value.flush == NoFlush && r.value.nextRead == s.flush.current
            && r.value.nextWrite == s.nextWrite && r.value.entries == s.entries
            && r.value.phase == AfterFlush(s.phase, s.flush.who)
    decreases var f := RunTo(events).value.flush; f.current - f.pos
  {
    hide RunTo, IsFlushers, Inv;
    var s := RunTo(events).value;
    RunInv(events);
    FlushGoesOn(s);
    var e := if s.flush.pos < s.flush.current then WriteByte else Advance;
    RunMore(events, e);
    FlushersOwn(e);
    AllMore(done, e);
    assert events + [e] == start + (done + [e]);
    if e == WriteByte {
      more := FlushToEnd(events + [e], start, done + [e]);
    } else {
      more := done + [e];
    }
  }

  lemma FlushersOwn(e: Event)
    requires e == Snapshot(Flusher) || e == WriteByte || e == Advance
    ensures IsFlushers(e)
  {
  }

  lemma FlushGoesOn(s: State)
    requires Inv(s) && s.flush.Flush?
    ensures s.flush.pos <= s.flush.current && Possible(s, if s.flush.pos < s.flush.current then WriteByte else Advance)
  {
  }

  /** Whenever no flush is under way the flusher can bring the file up to date on its own, whatever the owner is doing. */
  lemma FlusherCatchesUp(events: seq<Event>) returns (more: seq<Event>)
    requires RunTo(events).Some? && RunTo(events).value.flush == NoFlush
    ensures forall d :: d in more ==> IsFlushers(d)
    ensures var s, r := RunTo(events).value, RunTo(events + more);
            r.Some? && r.value.file == Concat(r.value.entries) && r.value.entries == s.entries && r.value.phase == s.phase
  {
    hide RunTo, IsFlushers, Inv, Concat;
    var s := RunTo(events).value;
    if s.nextRead == s.nextWrite {
      more := [];
      assert events + more == events;
    } else {
      var e := Snapshot(Flusher);
      RunMore(events, e);
      FlushersOwn(e);
      more := FlushToEnd(events + [e], events, [e]);
    }
    AllIsWritten(events + more);
  }

  lemma AllIsWritten(events: seq<Event>)
    requires RunTo(events).Some? && RunTo(events).value.flush == NoFlush
    requires RunTo(events).value.nextRead == RunTo(events).value.nextWrite
    ensures RunTo(events).value.file == Concat(RunTo(events).value.entries)
  {
    RunInv(events);
    var s := RunTo(events).value;
    assert s.file + [] == s.file;
  }

  // When the owner needs a flush.

  /** The entry leaves at least one byte of the buffer free. */
  predicate Fits(s: State, entry: seq<Byte>) {
    s.hasBuffer && s.nextWrite + |entry| < 1024 * 1024
  }

  /** The owner goes on without a new buffer and without moving the cursors back. */
  predicate KeepsBuffer(e: Event) {
    !e.Alloc? && !e.Reset?
  }

  /** The owner is about to log, and after these events of either thread it has published one entry more. */
  ghost predicate Publishes(events: seq<Event>, entry: seq<Byte>, more: seq<Event>) {
    && RunTo(events + ([Begin(entry)] + more)).Some? && RunTo(events).Some?
    && RunTo(events + ([Begin(entry)] + more)).value.entries == RunTo(events).value.entries + [entry]
    && forall e :: e in more ==> KeepsBuffer(e)
  }

  /** The rest of an entry is copied byte by byte and published. */
  lemma {:induction false} CopyToEnd(events: seq<Event>, start: seq<Event>, done: seq<Event>) returns (more: seq<Event>)
    requires events == start + done && RunTo(events).Some? && RunTo(events).value.phase.Copying?
    requires forall d :: d in done ==> KeepsBuffer(d)
    ensures forall d :: d in more ==> KeepsBuffer(d)
    ensures var s := RunTo(events).value;
            RunTo(start + more).Some? && RunTo(start + more).value.entries == s.entries + [s.phase.entry]
    decreases var p := RunTo(events).value.phase; |p.entry| - p.done
  {
    hide RunTo, Inv;
    var s := RunTo(events).value;
    RunInv(events);
    CopyGoesOn(s);
    var e := if s.phase.done < |s.phase.entry| then CopyByte else Publish;
    RunMore(events, e);
    assert events + [e] == start + (done + [e]);
    if e == CopyByte {
      more := CopyToEnd(events + [e], start, done + [e]);
    } else {
      more := done + [e];
    }
  }

  lemma CopyGoesOn(s: State)
    requires Inv(s) && s.phase.Copying?
    ensures s.phase.done <= |s.phase.entry| && Possible(s, if s.phase.done < |s.phase.entry| then CopyByte else Publish)
  {
  }

  ghost predicate Waits(s: State, entries: seq<seq<Byte>>) {
    (s.phase.Replenishing? || s.phase.Resetting?) && s.entries == entries
  }

  lemma {:induction false} WaitsOn(events: seq<Event>, more: seq<Event>, entries: seq<seq<Byte>>)
    requires RunTo(events + more).Some? && RunTo(events).Some? && Waits(RunTo(events).value, entries)
    requires forall e :: e in more ==> KeepsBuffer(e)
    ensures Waits(RunTo(events + more).value, entries)
    decreases |more|
  {
    if more == [] {
      assert events + more == events;
    } else {
      var front, e := more[..|more| - 1], more[|more| - 1];
      assert (events + more)[..|events + more| - 1] == events + front;
      assert e in more;
      WaitsOn(events, front, entries);
    }
  }

  /**
    Exactly when the owner can publish an entry into the buffer as it is, without a flush: it is allocated, and
    a byte of it stays free.
   */
  lemma PublishesIff(events: seq<Event>, entry: seq<Byte>)
    requires RunTo(events).Some? && Possible(RunTo(events).value, Begin(entry))
    ensures (exists more :: Publishes(events, entry, more)) <==> Fits(RunTo(events).value, entry)
  {
    hide RunTo;
    var s := RunTo(events).value;
    RunMore(events, Begin(entry));
    var begun := events + [Begin(entry)];
    if Fits(s, entry) {
      var more := CopyToEnd(begun, begun, []);
      assert begun + more == events + ([Begin(entry)] + more);
      assert Publishes(events, entry, more);
    } else {
      forall more ensures !Publishes(events, entry, more) {
        if Publishes(events, entry, more) {
          assert begun + more == events + ([Begin(entry)] + more);
          WaitsOn(begun, more, s.entries);
        }
      }
    }
  }

  // The owner gets its entry published, whatever phase it is in.

  function EntryOf(phase: Phase): seq<Byte>
    requires phase != Idle
  {
    match phase case Replenishing(entry) => entry case Resetting(entry) => entry case Copying(entry, _) => entry
  }

  lemma Then(events: seq<Event>, a: seq<Event>, b: seq<Event>)
    ensures events + (a + b) == (events + a) + b
  {
  }

  lemma FinishCopy(events: seq<Event>) returns (more: seq<Event>)
    requires RunTo(events).Some? && RunTo(events).value.phase.Copying?
    ensures RunTo(events + more).Some?
    ensures RunTo(events + more).value.entries == RunTo(events).value.entries + [RunTo(events).value.phase.entry]
  {
    hide RunTo;
    assert events + [] == events;
    more := CopyToEnd(events, events, []);
  }

  lemma FinishReset(events: seq<Event>) returns (more: seq<Event>)
    requires RunTo(events).Some? && RunTo(events).value.phase.Resetting? && RunTo(events).value.flush == NoFlush
    ensures RunTo(events + more).Some?
    ensures RunTo(events + more).value.entries == RunTo(events).value.entries + [RunTo(events).value.phase.entry]
  {
    hide RunTo;
    RunMore(events, Reset);
    more := FinishCopy(events + [Reset]);
    Then(events, [Reset], more);
    more := [Reset] + more;
  }

  /** From any time at which no flush is under way the owner can publish the entry it is logging on its own. */
  lemma OwnerCanPublish(events: seq<Event>, memory: seq<Byte>) returns (more: seq<Event>)
    requires RunTo(events).Some? && RunTo(events).value.flush == NoFlush && RunTo(events).value.phase != Idle
    requires |memory| == CAPACITY
    ensures RunTo(events + more).Some?
    ensures RunTo(events + more).value.entries == RunTo(events).value.entries + [EntryOf(RunTo(events).value.phase)]
  {
    hide RunTo, IsFlushers;
    var s := RunTo(events).value;
    match s.phase
    case Copying(_, _) => more := FinishCopy(events);
    case Resetting(_) => more := FinishReset(events);
    case Replenishing(_) =>
      var e := if s.hasBuffer then Snapshot(Owner) else Alloc(memory);
      RunMore(events, e);
      var begun := events + [e];
      var t := RunTo(begun).value;
      if t.phase.Copying? {
        more := FinishCopy(begun);
      } else if t.flush == NoFlush {
        more := FinishReset(begun);
      } else {
        assert begun + [] == begun;
        var flushed := FlushToEnd(begun, begun, []);
        more := FinishReset(begun + flushed);
        Then(begun, flushed, more);
        more := flushed + more;
      }
      Then(events, [e], more);
      more := [e] + more;
  }
}
