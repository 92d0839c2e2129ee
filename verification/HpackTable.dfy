/**
  The header tables of library/http/include/http/hpack.h: a list of header lines with an index by line and an
  index by field, map_table_t, and the table with a size limit, dynamic_table_t.
 */
module HpackTable {
  import Bits

  datatype Entry<F> = Entry(field: F, value: string)

  /** The first index of a field, and how many entries have it. */
  datatype Occurrence = Occurrence(first: nat, count: nat)

  datatype Table<F> = Table(entries: seq<Entry<F>>, lines: map<Entry<F>, nat>, fields: map<F, Occurrence>)

  function Empty<F>(): Table<F> {
    Table([], map[], map[])
  }

  function Push<F>(t: Table<F>, e: Entry<F>): Table<F> {
    var index := |t.entries|;
    Table(t.entries + [e],
          if e.value != "" && e !in t.lines then t.lines[e := index] else t.lines,
          t.fields[e.field := if e.field in t.fields then t.fields[e.field].(count := t.fields[e.field].count + 1) else Occurrence(index, 1)])
  }

  /** pop_back: the index by line forgets the entry, whether or not there is another like it. */
  function Pop<F>(t: Table<F>): Table<F>
    requires t.entries != []
  {
    var e := t.entries[|t.entries| - 1];
    Table(t.entries[..|t.entries| - 1],
          if e.value != "" then t.lines - {e} else t.lines,
          if e.field !in t.fields || t.fields[e.field].count <= 1 then t.fields - {e.field}
          else t.fields[e.field := t.fields[e.field].(count := t.fields[e.field].count - 1)])
  }

  // What the indexes should say.

  function CountOf<F(==)>(entries: seq<Entry<F>>, field: F): nat {
    if entries == [] then 0 else CountOf(entries[..|entries| - 1], field) + if entries[|entries| - 1].field == field then 1 else 0
  }

  ghost predicate IsFirst<F>(entries: seq<Entry<F>>, field: F, i: nat) {
    i < |entries| && entries[i].field == field && forall j :: 0 <= j < i ==> entries[j].field != field
  }

  /** entry_map says for each field of the table its first index and how often it is there, and knows no other. */
  ghost predicate FieldsExact<F(!new)>(t: Table<F>) {
    forall f :: if f in t.fields then IsFirst(t.entries, f, t.fields[f].first) && t.fields[f].count == CountOf(t.entries, f)
                else CountOf(t.entries, f) == 0
  }

  /** Every hit of entry_value_map points at an equal entry. */
  ghost predicate LinesSound<F>(t: Table<F>) {
    forall e :: e in t.lines ==> e.value != "" && t.lines[e] < |t.entries| && t.entries[t.lines[e]] == e
  }

  /** And there is a hit, at the first place, for every entry with a value. */
  ghost predicate LinesExact<F>(t: Table<F>) {
    && LinesSound(t)
    && forall i :: 0 <= i < |t.entries| && t.entries[i].value != "" ==> t.entries[i] in t.lines && t.lines[t.entries[i]] <= i
  }

  lemma {:induction false} CountZero<F>(entries: seq<Entry<F>>, field: F)
    ensures CountOf(entries, field) == 0 <==> forall i :: 0 <= i < |entries| ==> entries[i].field != field
  {
    if entries != [] {
      CountZero(entries[..|entries| - 1], field);
    }
  }

  lemma CountPush<F>(entries: seq<Entry<F>>, e: Entry<F>, field: F)
    ensures CountOf(entries + [e], field) == CountOf(entries, field) + if e.field == field then 1 else 0
  {
    assert (entries + [e])[..|entries|] == entries;
  }

  lemma FirstPush<F>(entries: seq<Entry<F>>, e: Entry<F>, field: F, i: nat)
    ensures IsFirst(entries, field, i) ==> IsFirst(entries + [e], field, i)
    ensures CountOf(entries, e.field) == 0 ==> IsFirst(entries + [e], e.field, |entries|)
  {
    CountZero(entries, e.field);
  }

  lemma PushFields<F(!new)>(t: Table<F>, e: Entry<F>)
    requires FieldsExact(t)
    ensures FieldsExact(Push(t, e))
  {
    var t' := Push(t, e);
    forall f ensures if f in t'.fields then IsFirst(t'.entries, f, t'.fields[f].first) && t'.fields[f].count == CountOf(t'.entries, f)
                     else CountOf(t'.entries, f) == 0
    {
      CountPush(t.entries, e, f);
      FirstPush(t.entries, e, f, if f in t.fields then t.fields[f].first else 0);
    }
  }

  lemma PopFields<F(!new)>(t: Table<F>)
    requires FieldsExact(t) && t.entries != []
    ensures FieldsExact(Pop(t))
    ensures t.entries[|t.entries| - 1].field in t.fields
  {
    var t', e := Pop(t), t.entries[|t.entries| - 1];
    assert t.entries == t'.entries + [e];
    CountPush(t'.entries, e, e.field);
    forall f ensures if f in t'.fields then IsFirst(t'.entries, f, t'.fields[f].first) && t'.fields[f].count == CountOf(t'.entries, f)
                     else CountOf(t'.entries, f) == 0
    {
      CountPush(t'.entries, e, f);
      CountZero(t'.entries, f);
      if f in t'.fields {
        FirstStays(t'.entries, e, f, t'.fields[f].first);
      }
    }
  }

  lemma FirstStays<F>(entries: seq<Entry<F>>, e: Entry<F>, f: F, i: nat)
    requires IsFirst(entries + [e], f, i) && CountOf(entries, f) > 0
    ensures IsFirst(entries, f, i)
  {
    CountZero(entries, f);
    var k :| 0 <= k < |entries| && entries[k].field == f;
    assert (entries + [e])[k].field == f;
    assert forall j :: 0 <= j < |entries| ==> (entries + [e])[j] == entries[j];
  }

  lemma PushLines<F>(t: Table<F>, e: Entry<F>)
    ensures LinesSound(t) ==> LinesSound(Push(t, e))
    ensures LinesExact(t) ==> LinesExact(Push(t, e))
  {
  }

  ghost predicate OccursBefore<F>(entries: seq<Entry<F>>, i: nat)
    requires i < |entries|
  {
    exists j :: 0 <= j < i && entries[j] == entries[i]
  }

  /** Taking an entry off keeps the hits right, and if all hits were there, they stay so exactly when it was the only one of its kind. */
  lemma PopLines<F>(t: Table<F>)
    requires t.entries != [] && LinesExact(t)
    ensures LinesExact(Pop(t)) <==> t.entries[|t.entries| - 1].value == "" || !OccursBefore(t.entries, |t.entries| - 1)
  {
    var n := |t.entries| - 1;
    var e, t' := t.entries[n], Pop(t);
    if e.value != "" && OccursBefore(t.entries, n) {
      var j :| 0 <= j < n && t.entries[j] == e;
      assert t'.entries[j] == e && e !in t'.lines;
    } else {
      forall x | x in t'.lines ensures t'.lines[x] < |t'.entries| && t'.entries[t'.lines[x]] == x {
        assert t.entries[t.lines[x]] == x;
      }
      forall i | 0 <= i < |t'.entries| && t'.entries[i].value != "" ensures t'.entries[i] in t'.lines && t'.lines[t'.entries[i]] <= i {
        assert t.entries[i] == t'.entries[i] && t.entries[i] in t.lines;
      }
    }
  }

  lemma PopSound<F>(t: Table<F>)
    requires t.entries != [] && LinesSound(t)
    ensures LinesSound(Pop(t))
  {
    forall x | x in Pop(t).lines ensures Pop(t).lines[x] < |Pop(t).entries| && Pop(t).entries[Pop(t).lines[x]] == x {
      assert x in t.lines && t.entries[t.lines[x]] == x;
    }
  }

  // The table with a limit.

  datatype Op<F> = PushBack(entry: Entry<F>) | PopBack | Clear | Insert(entry: Entry<F>) | UpdateSize(size: nat)

  datatype Dynamic<F> = Dynamic(table: Table<F>, maxSize: nat)

  function Shrunk<F>(t: Table<F>, size: nat): (s: Table<F>)
    decreases |t.entries|
    ensures |s.entries| == if size < |t.entries| then size else |t.entries|
  {
    if size < |t.entries| then Shrunk(Pop(t), size) else t
  }

  predicate Possible<F>(d: Dynamic<F>, op: Op<F>) {
    op.PopBack? ==> d.table.entries != []
  }

  function Apply<F>(d: Dynamic<F>, op: Op<F>): Dynamic<F>
    requires Possible(d, op)
  {
    match op
    case PushBack(e) => d.(table := Push(d.table, e))
    case PopBack => d.(table := Pop(d.table))
    case Clear => d.(table := Empty())
    // section 4.4 of RFC 7541 would evict entries one by one; the source clears the table
    case Insert(e) => d.(table := Push(if |d.table.entries| >= d.maxSize then Empty() else d.table, e))
    case UpdateSize(n) => if d.maxSize == n then d else Dynamic(Shrunk(d.table, n), n)
  }

  function RunFrom<F>(d: Dynamic<F>, ops: seq<Op<F>>): (bool, Dynamic<F>)
    decreases |ops|
  {
    if ops == [] then (true, d) else if !Possible(d, ops[0]) then (false, d) else RunFrom(Apply(d, ops[0]), ops[1..])
  }

  ghost predicate Indexed<F(!new)>(t: Table<F>) {
    FieldsExact(t) && LinesSound(t)
  }

  lemma EmptyIndexed<F(!new)>()
    ensures Indexed(Empty<F>()) && LinesExact(Empty<F>())
  {
  }

  lemma LastIsKnown<F(!new)>(t: Table<F>)
    requires Indexed(t) && t.entries != []
    ensures var f := t.entries[|t.entries| - 1].field; f in t.fields && t.fields[f].count >= 1
  {
    hide LinesSound;
    var f := t.entries[|t.entries| - 1].field;
    CountZero(t.entries, f);
    PopFields(t);
  }

  lemma {:induction false} ShrunkIndexed<F(!new)>(t: Table<F>, size: nat)
    requires Indexed(t)
    ensures Indexed(Shrunk(t, size))
    decreases |t.entries|
  {
    if size < |t.entries| {
      PopFields(t);
      PopSound(t);
      ShrunkIndexed(Pop(t), size);
    }
  }

  lemma ApplyIndexed<F(!new)>(d: Dynamic<F>, op: Op<F>)
    requires Indexed(d.table) && Possible(d, op)
    ensures Indexed(Apply(d, op).table)
  {
    hide FieldsExact, LinesSound;
    EmptyIndexed<F>();
    match op
    case PushBack(e) => PushFields(d.table, e); PushLines(d.table, e);
    case PopBack => PopFields(d.table); PopSound(d.table);
    case Clear =>
    case Insert(e) =>
      PushFields(d.table, e); PushLines(d.table, e);
      PushFields(Empty<F>(), e); PushLines(Empty<F>(), e);
    case UpdateSize(n) => ShrunkIndexed(d.table, n);
  }

  /** Over every run from an empty table the field index is exact, and every hit of the line index points at an equal entry. */
  lemma {:induction false} RunIndexed<F(!new)>(d: Dynamic<F>, ops: seq<Op<F>>)
    requires Indexed(d.table) && RunFrom(d, ops).0
    ensures Indexed(RunFrom(d, ops).1.table)
    decreases |ops|
  {
    if ops != [] {
      hide Indexed;
      ApplyIndexed(d, ops[0]);
      RunIndexed(Apply(d, ops[0]), ops[1..]);
    }
  }

  lemma FieldIndexIsExact<F(!new)>(maxSize: nat, ops: seq<Op<F>>)
    requires RunFrom(Dynamic(Empty<F>(), maxSize), ops).0
    ensures FieldsExact(RunFrom(Dynamic(Empty<F>(), maxSize), ops).1.table)
    ensures LinesSound(RunFrom(Dynamic(Empty<F>(), maxSize), ops).1.table)
  {
    EmptyIndexed<F>();
    RunIndexed(Dynamic(Empty<F>(), maxSize), ops);
  }

  // No pair twice.

  ghost predicate NoPairTwice<F>(entries: seq<Entry<F>>) {
    forall i, j :: 0 <= i < j < |entries| ==> entries[i] != entries[j]
  }

  /** No operation of the run puts a pair into a table that has it. */
  ghost predicate PushesNewOnly<F>(d: Dynamic<F>, ops: seq<Op<F>>)
    decreases |ops|
  {
    ops == [] ||
    (Possible(d, ops[0]) && (ops[0].PushBack? || ops[0].Insert? ==> ops[0].entry !in d.table.entries) &&
     PushesNewOnly(Apply(d, ops[0]), ops[1..]))
  }

  lemma {:induction false} ShrunkExact<F>(t: Table<F>, size: nat)
    requires NoPairTwice(t.entries) && LinesExact(t)
    ensures NoPairTwice(Shrunk(t, size).entries) && LinesExact(Shrunk(t, size))
    decreases |t.entries|
  {
    if size < |t.entries| {
      PopLines(t);
      ShrunkExact(Pop(t), size);
    }
  }

  lemma ApplyExact<F>(d: Dynamic<F>, op: Op<F>)
    requires NoPairTwice(d.table.entries) && LinesExact(d.table) && Possible(d, op)
    requires op.PushBack? || op.Insert? ==> op.entry !in d.table.entries
    ensures NoPairTwice(Apply(d, op).table.entries) && LinesExact(Apply(d, op).table)
  {
    hide LinesExact;
    EmptyLines<F>();
    match op
    case PushBack(e) => PushLines(d.table, e); PushNew(d.table.entries, e);
    case PopBack => PopLines(d.table);
    case Clear =>
    case Insert(e) =>
      PushLines(d.table, e); PushNew(d.table.entries, e);
      PushLines(Empty<F>(), e); PushNew([], e);
    case UpdateSize(n) => ShrunkExact(d.table, n);
  }

  lemma EmptyLines<F>()
    ensures LinesExact(Empty<F>()) && NoPairTwice<F>([])
  {
  }

  lemma PushNew<F>(entries: seq<Entry<F>>, e: Entry<F>)
    requires NoPairTwice(entries) && e !in entries
    ensures NoPairTwice(entries + [e])
  {
  }

  /** While no pair is pushed that is there already, every entry with a value is found, at its place. */
  lemma {:induction false} LineIndexIsExact<F>(d: Dynamic<F>, ops: seq<Op<F>>)
    requires NoPairTwice(d.table.entries) && LinesExact(d.table) && PushesNewOnly(d, ops)
    ensures RunFrom(d, ops).0 && LinesExact(RunFrom(d, ops).1.table) && NoPairTwice(RunFrom(d, ops).1.table.entries)
    decreases |ops|
  {
    if ops != [] {
      hide LinesExact, NoPairTwice;
      ApplyExact(d, ops[0]);
      LineIndexIsExact(Apply(d, ops[0]), ops[1..]);
    }
  }

  /** A pair pushed twice and taken off once is not found any more, though it is still in the table. */
  lemma PairTwiceIsLost(e: Entry<nat>)
    requires e.value != ""
    ensures var t := Pop(Push(Push(Empty(), e), e));
            e in t.entries && e !in t.lines && FieldsExact(t) && t.fields[e.field] == Occurrence(0, 1)
  {
    var t1 := Push(Empty(), e);
    var t2 := Push(t1, e);
    EmptyIndexed<nat>();
    PushFields(Empty(), e);
    PushFields(t1, e);
    PopFields(t2);
    assert t1.entries == [e] && t2.entries == [e, e] && t2.entries[..1] == [e];
    assert Pop(t2).entries[0] == e;
  }

  /** The size of a dynamic table stays within its limit, but for the one entry that is always let in. */
  lemma {:induction false} SizeIsBounded<F>(d: Dynamic<F>, ops: seq<Op<F>>)
    requires RunFrom(d, ops).0 && forall op :: op in ops ==> !op.PushBack?
    requires |d.table.entries| <= Max(1, d.maxSize)
    ensures |RunFrom(d, ops).1.table.entries| <= Max(1, RunFrom(d, ops).1.maxSize)
    decreases |ops|
  {
    if ops != [] {
      assert ops[0] in ops;
      SizeIsBounded(Apply(d, ops[0]), ops[1..]);
    }
  }

  function Max(a: nat, b: nat): nat {
    if a < b then b else a
  }

  // Which entries are there.

  /** With room, an insert keeps all entries in front of the new one; a full table has the new one only. */
  lemma InsertKeepsAllIff<F>(d: Dynamic<F>, e: Entry<F>)
    requires d.table.entries != []
    ensures var after := Apply(d, Insert(e)).table.entries;
            && (d.table.entries <= after <==> |d.table.entries| < d.maxSize || d.table.entries == [e])
            && after[|after| - 1] == e && (|after| == |d.table.entries| + 1 || after == [e])
  {
    if |d.table.entries| >= d.maxSize && d.table.entries <= [e] {
      assert [e][..|d.table.entries|] == d.table.entries;
    }
  }

  /** A smaller limit keeps the oldest entries, as many as it allows. */
  lemma {:induction false} ShrunkIsFirst<F>(t: Table<F>, size: nat)
    ensures Shrunk(t, size).entries == if size < |t.entries| then t.entries[..size] else t.entries
    decreases |t.entries|
  {
    if size < |t.entries| {
      ShrunkIsFirst(Pop(t), size);
      assert t.entries[..|t.entries| - 1][..if size < |t.entries| - 1 then size else |t.entries| - 1] == t.entries[..size];
    }
  }

  lemma UpdateKeepsFirst<F>(d: Dynamic<F>, size: nat)
    ensures var after := Apply(d, UpdateSize(size));
            && after.maxSize == size
            && after.table.entries == if size < |d.table.entries| && size != d.maxSize then d.table.entries[..size] else d.table.entries
  {
    ShrunkIsFirst(d.table, size);
  }

  lemma {:induction false} RunMore<F>(d: Dynamic<F>, ops: seq<Op<F>>, op: Op<F>)
    requires RunFrom(d, ops).0 && Possible(RunFrom(d, ops).1, op)
    ensures RunFrom(d, ops + [op]) == (true, Apply(RunFrom(d, ops).1, op))
    decreases |ops|
  {
    if ops == [] {
      assert ops + [op] == [op] && [op][1..] == [];
    } else {
      assert (ops + [op])[1..] == ops[1..] + [op];
      RunMore(Apply(d, ops[0]), ops[1..], op);
    }
  }

  function Inserts<F>(es: seq<Entry<F>>): (ops: seq<Op<F>>)
    ensures |ops| == |es|
  {
    seq(|es|, i requires 0 <= i < |es| => Insert(es[i]))
  }

  /** How many entries there are after k inserts: from one after the table was cleared up to the limit, and then one again. */
  function Held(k: nat, maxSize: nat): nat
    requires k > 0
  {
    (k - 1) % Max(1, maxSize) + 1
  }

  lemma HeldNext(k: nat, maxSize: nat)
    requires k > 0
    ensures Held(1, maxSize) == 1 && 0 < Held(k, maxSize) <= k
    ensures Held(k + 1, maxSize) == if Held(k, maxSize) >= maxSize then 1 else Held(k, maxSize) + 1
  {
    var n := Max(1, maxSize);
    var q, r := (k - 1) / n, (k - 1) % n;
    Bits.DivModUnique(0, n, 0, 0);
    Bits.ModSmall(r, n);
    assert k - 1 == n * q + r;
    if r + 1 == n {
      assert n * (q + 1) == n * q + n;
      Bits.DivModUnique(k, n, q + 1, 0);
    } else {
      Bits.DivModUnique(k, n, q, r + 1);
    }
    if q == 0 {
      assert n * q == 0;
    } else {
      Bits.MulBound(q, n);
    }
  }

  /** After a run of inserts into an empty table it holds the last of them, so many, in their order. */
  lemma {:induction false} InsertsKeepLast<F>(maxSize: nat, es: seq<Entry<F>>)
    requires es != []
    ensures Held(|es|, maxSize) <= |es|
    ensures var r := RunFrom(Dynamic(Empty(), maxSize), Inserts(es));
            r.0 && r.1.maxSize == maxSize && r.1.table.entries == es[|es| - Held(|es|, maxSize)..]
    decreases |es|
  {
    hide RunFrom, Push, Held, Max;
    var start, front, last := Dynamic(Empty<F>(), maxSize), es[..|es| - 1], es[|es| - 1];
    HeldNext(|es|, maxSize);
    InsertsMore(es);
    PushIsLast(Empty<F>(), last);
    if front == [] {
      RunNothing(start);
      RunMore(start, Inserts(front), Insert(last));
      assert es == [last];
    } else {
      InsertsKeepLast(maxSize, front);
      RunMore(start, Inserts(front), Insert(last));
      PushIsLast(RunFrom(start, Inserts(front)).1.table, last);
      HeldNext(|front|, maxSize);
      Grown(es, Held(|front|, maxSize));
    }
  }

  lemma InsertsMore<F>(es: seq<Entry<F>>)
    requires es != []
    ensures Inserts(es) == Inserts(es[..|es| - 1]) + [Insert(es[|es| - 1])]
    ensures es[..|es| - 1] == [] ==> Inserts(es[..|es| - 1]) == []
  {
  }

  lemma RunNothing<F>(d: Dynamic<F>)
    ensures RunFrom(d, []) == (true, d)
  {
  }

  lemma PushIsLast<F>(t: Table<F>, e: Entry<F>)
    ensures Push(t, e).entries == t.entries + [e]
  {
  }

  lemma Grown<T>(es: seq<T>, size: nat)
    requires 0 < size < |es|
    ensures es[..|es| - 1][|es| - 1 - size..] + [es[|es| - 1]] == es[|es| - (size + 1)..]
    ensures [] + [es[|es| - 1]] == es[|es| - 1..]
  {
  }

  // static_table_t is built with the list constructor, which fills in the entries only.

  function FromList<F>(list: seq<Entry<F>>): Table<F> {
    Table(list, map[], map[])
  }

  /** So nothing is found in it by field or by line. */
  lemma ListTableIsNotIndexed<F(!new)>(list: seq<Entry<F>>)
    ensures FieldsExact(FromList(list)) <==> list == []
    ensures LinesExact(FromList(list)) <==> forall i :: 0 <= i < |list| ==> list[i].value == ""
  {
    if list != [] {
      CountZero(list, list[0].field);
      assert list[0].field !in FromList(list).fields;
    }
  }

  // The classes.

  class DynamicTable<F(!new, ==)> {
    var entries: seq<Entry<F>>
    var entryValueMap: map<Entry<F>, nat>
    var entryMap: map<F, Occurrence>
    var maxSize: nat

    ghost function Value(): Dynamic<F>
      reads this
    {
      Dynamic(Table(entries, entryValueMap, entryMap), maxSize)
    }

    constructor (maxSize: nat)
      ensures Value() == Dynamic(Empty(), maxSize) && Indexed(Value().table)
    {
      entries, entryValueMap, entryMap := [], map[], map[];
      this.maxSize := maxSize;
      new;
      EmptyIndexed<F>();
    }

    method PushBackEntry(e: Entry<F>)
      requires Indexed(Value().table)
      modifies this
      ensures Value() == Apply(old(Value()), PushBack(e)) && Indexed(Value().table)
    {
      hide FieldsExact, LinesSound, Shrunk, Indexed;
      ApplyIndexed(Value(), PushBack(e));
      entries := entries + [e];
      var index := |entries| - 1;
      if e.value != "" {
        // insert leaves an entry that is there
        if e !in entryValueMap {
          entryValueMap := entryValueMap[e := index];
        }
      }
      if e.field !in entryMap {
        entryMap := entryMap[e.field := Occurrence(index, 1)];
      } else {
        entryMap := entryMap[e.field := entryMap[e.field].(count := entryMap[e.field].count + 1)];
      }
    }

    method PopBackEntry()
      requires Indexed(Value().table) && entries != []
      modifies this
      ensures Value() == Apply(old(Value()), PopBack) && Indexed(Value().table)
    {
      hide FieldsExact, LinesSound, Shrunk, Indexed;
      ApplyIndexed(Value(), PopBack);
      LastIsKnown(Value().table);
      var e := entries[|entries| - 1];
      entries := entries[..|entries| - 1];
      if e.value != "" {
        entryValueMap := entryValueMap - {e};
      }
      // the field is there, so the exception of the debug build is not thrown
      if entryMap[e.field].count == 1 {
        entryMap := entryMap - {e.field};
      } else {
        entryMap := entryMap[e.field := entryMap[e.field].(count := entryMap[e.field].count - 1)];
      }
    }

    method ClearAll()
      modifies this
      ensures Value() == Apply(old(Value()), Clear) && Indexed(Value().table)
    {
      EmptyIndexed<F>();
      entries, entryValueMap, entryMap := [], map[], map[];
    }

    method UpdateTo(newSize: nat)
      requires Indexed(Value().table)
      modifies this
      ensures Value() == Apply(old(Value()), UpdateSize(newSize)) && Indexed(Value().table)
    {
      if maxSize == newSize {
        return;
      }
      maxSize := newSize;
      while newSize < |entries|
        invariant maxSize == newSize && Indexed(Value().table)
        invariant Shrunk(Value().table, newSize) == Shrunk(old(Value().table), newSize)
        decreases |entries|
      {
        PopBackEntry();
      }
    }

    method InsertEntry(e: Entry<F>)
      requires Indexed(Value().table)
      modifies this
      ensures Value() == Apply(old(Value()), Insert(e)) && Indexed(Value().table)
    {
      if |entries| >= maxSize {
        ClearAll();
      }
      PushBackEntry(e);
    }

    /** operator[](field): -1 for a field that is not there. */
    method IndexOfField(f: F) returns (index: int)
      requires Indexed(Value().table)
      ensures if index == -1 then forall i :: 0 <= i < |entries| ==> entries[i].field != f
              else index >= 0 && IsFirst(entries, f, index)
    {
      CountZero(entries, f);
      index := if f in entryMap then entryMap[f].first else -1;
    }
  }
}
