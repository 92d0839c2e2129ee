/**
  The list of stream headers of class request in library/http/include/http/http2.h, ordered by the streams
  they depend on: insert and the destructor.
 */
module DependencyList {
  import opened Options
  import opened Chains

  // What insert does to the order of the headers and to the map from stream identifiers.

  datatype List<O> = List(chain: seq<O>, headers: map<nat, O>)

  /** One call: placeholder is the dummy header it makes if the stream depended on is not there. */
  datatype Call<O> = Call(header: O, id: nat, dependency: nat, placeholder: O)

  ghost predicate NeedsPlaceholder<O>(l: List<O>, c: Call<O>) {
    c.dependency != 0 && c.dependency !in l.headers
  }

  ghost predicate IsList<O>(l: List<O>) {
    && Distinct(l.chain)
    && forall id :: id in l.headers ==> l.headers[id] in l.chain
  }

  ghost function PlaceOf<O>(chain: seq<O>, n: O): (j: nat)
    requires n in chain
    ensures j < |chain| && chain[j] == n
  {
    var j: nat :| j < |chain| && chain[j] == n;
    j
  }

  /** unordered_map::insert: an identifier that is there keeps its header. */
  function Keep<O>(m: map<nat, O>, id: nat, n: O): map<nat, O> {
    if id in m then m else m[id := n]
  }

  /** The header in its place on the chain, and the placeholder in the map. */
  ghost function Placed<O>(l: List<O>, c: Call<O>): List<O>
    requires IsList(l)
  {
    if c.dependency == 0 then List(l.chain + [c.header], l.headers)
    else if c.dependency in l.headers then
      List(InsertedAfter(l.chain, PlaceOf(l.chain, l.headers[c.dependency]), c.header), l.headers)
    else List(l.chain + [c.placeholder] + [c.header], l.headers[c.dependency := c.placeholder])
  }

  ghost function Inserted<O>(l: List<O>, c: Call<O>): List<O>
    requires IsList(l)
  {
    List(Placed(l, c).chain, Keep(Placed(l, c).headers, c.id, c.header))
  }

  /** What the call puts on the chain. */
  ghost function Made<O>(l: List<O>, c: Call<O>): seq<O> {
    if NeedsPlaceholder(l, c) then [c.placeholder, c.header] else [c.header]
  }

  ghost predicate IsNew<O>(l: List<O>, c: Call<O>) {
    c.header !in l.chain && (NeedsPlaceholder(l, c) ==> c.placeholder !in l.chain && c.placeholder != c.header)
  }

  ghost predicate Before<O>(chain: seq<O>, a: O, b: O) {
    exists i, j :: 0 <= i < j < |chain| && chain[i] == a && chain[j] == b
  }

  /** What the header was made dependent on. */
  ghost function Parent<O>(l: List<O>, c: Call<O>): O {
    if NeedsPlaceholder(l, c) then c.placeholder else if c.dependency == 0 then c.header else l.headers[c.dependency]
  }

  lemma InsertedKeeps<O>(l: List<O>, c: Call<O>)
    requires IsList(l) && IsNew(l, c)
    ensures IsList(Inserted(l, c)) && multiset(Inserted(l, c).chain) == multiset(l.chain) + multiset(Made(l, c))
  {
    if c.dependency != 0 && c.dependency in l.headers {
      var j := PlaceOf(l.chain, l.headers[c.dependency]);
      InsertedDistinct(l.chain, j, c.header);
      InsertedContents(l.chain, j, c.header);
    }
  }

  lemma InsertedContents<O>(chain: seq<O>, j: nat, n: O)
    requires j < |chain|
    ensures multiset(InsertedAfter(chain, j, n)) == multiset(chain) + multiset([n])
    ensures forall x :: x in InsertedAfter(chain, j, n) <==> x in chain || x == n
  {
    assert chain == chain[..j + 1] + chain[j + 1..];
    var more := InsertedAfter(chain, j, n);
    InsertedElements(chain, j, n);
    forall x | x in chain ensures x in more {
      var k := PlaceOf(chain, x);
      assert more[if k <= j then k else k + 1] == x;
    }
    forall x | x in more ensures x in chain || x == n {
      var k := PlaceOf(more, x);
      assert k != j + 1 ==> chain[if k <= j then k else k - 1] == x;
    }
    assert more[j + 1] == n;
  }

  lemma InsertedLast<O>(chain: seq<O>, j: nat, n: O)
    requires j < |chain| && Distinct(chain)
    ensures var more := InsertedAfter(chain, j, n);
            more != [] && more[|more| - 1] == if chain[j] == chain[|chain| - 1] then n else chain[|chain| - 1]
  {
    InsertedElements(chain, j, n);
  }

  /** Headers on the chain keep their order, whatever is inserted. */
  lemma OrderIsKept<O>(l: List<O>, c: Call<O>, a: O, b: O)
    requires IsList(l) && IsNew(l, c) && Before(l.chain, a, b)
    ensures Before(Inserted(l, c).chain, a, b)
  {
    hide InsertedAfter, Before;
    if c.dependency == 0 {
      AppendOrder(l.chain, [c.header], a, b);
    } else if c.dependency in l.headers {
      InsertOrder(l.chain, PlaceOf(l.chain, l.headers[c.dependency]), c.header, a, b);
    } else {
      AppendOrder(l.chain, [c.placeholder], a, b);
      AppendOrder(l.chain + [c.placeholder], [c.header], a, b);
    }
  }

  lemma InsertOrder<O>(chain: seq<O>, k: nat, n: O, a: O, b: O)
    requires k < |chain| && Before(chain, a, b)
    ensures Before(InsertedAfter(chain, k, n), a, b)
  {
    var i, j :| 0 <= i < j < |chain| && chain[i] == a && chain[j] == b;
    InsertedElements(chain, k, n);
    var more := InsertedAfter(chain, k, n);
    assert more[if i <= k then i else i + 1] == a && more[if j <= k then j else j + 1] == b;
  }

  lemma AppendOrder<O>(chain: seq<O>, more: seq<O>, a: O, b: O)
    requires Before(chain, a, b)
    ensures Before(chain + more, a, b)
  {
    var i, j :| 0 <= i < j < |chain| && chain[i] == a && chain[j] == b;
    assert (chain + more)[i] == a && (chain + more)[j] == b;
  }

  // Where a call puts the header.

  /** b stands right behind a. */
  ghost predicate RightBehind<O>(chain: seq<O>, a: O, b: O) {
    exists j :: 0 <= j < |chain| - 1 && chain[j] == a && chain[j + 1] == b
  }

  /** The chain without what was made. */
  function Others<O(==)>(chain: seq<O>, made: seq<O>): seq<O> {
    if chain == [] then []
    else Others(chain[..|chain| - 1], made) + if chain[|chain| - 1] in made then [] else [chain[|chain| - 1]]
  }

  lemma {:induction false} OthersSum<O>(a: seq<O>, b: seq<O>, made: seq<O>)
    ensures Others(a + b, made) == Others(a, made) + Others(b, made)
  {
    if b == [] {
      assert a + b == a;
    } else {
      OthersSum(a, b[..|b| - 1], made);
      assert (a + b)[..|a + b| - 1] == a + b[..|b| - 1];
    }
  }

  lemma {:induction false} OthersAll<O>(chain: seq<O>, made: seq<O>)
    requires forall x :: x in chain ==> x !in made
    ensures Others(chain, made) == chain
  {
    if chain != [] {
      OthersAll(chain[..|chain| - 1], made);
    }
  }

  lemma {:induction false} OthersNone<O>(chain: seq<O>, made: seq<O>)
    requires forall x :: x in chain ==> x in made
    ensures Others(chain, made) == []
  {
    if chain != [] {
      OthersNone(chain[..|chain| - 1], made);
    }
  }

  lemma OthersAround<O>(a: seq<O>, b: seq<O>, made: seq<O>)
    requires forall x :: x in a || x in b ==> x !in made
    ensures Others(a + made + b, made) == a + b
  {
    hide Others;
    OthersSum(a + made, b, made);
    OthersSum(a, made, made);
    OthersAll(a, made);
    OthersAll(b, made);
    OthersNone(made, made);
    assert a + [] == a;
  }

  /**
    A header with a dependency stands right behind its parent, and the others as they stood; one without a
    dependency, and a placeholder, stand at the end.
   */
  lemma PlacedRightBehind<O>(l: List<O>, c: Call<O>)
    requires IsList(l) && IsNew(l, c)
    ensures var chain := Inserted(l, c).chain;
            && Others(chain, Made(l, c)) == l.chain
            && (c.dependency != 0 ==> RightBehind(chain, Parent(l, c), c.header))
            && (c.dependency == 0 || NeedsPlaceholder(l, c) ==> chain == l.chain + Made(l, c))
  {
    hide Others;
    var chain := Inserted(l, c).chain;
    if c.dependency != 0 && c.dependency in l.headers {
      var k := PlaceOf(l.chain, l.headers[c.dependency]);
      InsertedElements(l.chain, k, c.header);
      assert chain[k] == l.headers[c.dependency] && chain[k + 1] == c.header;
      var a, b := l.chain[..k + 1], l.chain[k + 1..];
      assert l.chain == a + b;
      assert chain == a + [c.header] + b;
      OthersAround(a, b, [c.header]);
    } else {
      var made := Made(l, c);
      assert chain == l.chain + made == l.chain + made + [];
      OthersAround(l.chain, [], made);
      assert l.chain + [] == l.chain;
      if NeedsPlaceholder(l, c) {
        assert chain[|l.chain|] == c.placeholder && chain[|l.chain| + 1] == c.header;
      }
    }
  }

  /** What is in the map stays there; the stream depended on and the new one are in it, and no others. */
  lemma MapKeeps<O>(l: List<O>, c: Call<O>)
    requires IsList(l)
    ensures var m := Inserted(l, c).headers;
            && (forall id :: id in l.headers ==> id in m && m[id] == l.headers[id])
            && (forall id :: id in m ==> id in l.headers || id == c.id || (id == c.dependency && c.dependency != 0))
            && (c.dependency != 0 ==> c.dependency in m && m[c.dependency] == Parent(l, c))
            && c.id in m && (c.id !in l.headers && c.id != c.dependency ==> m[c.id] == c.header)
  {
  }

  /** A header follows the one it depends on. */
  lemma FollowsParent<O>(l: List<O>, c: Call<O>)
    requires IsList(l) && IsNew(l, c) && c.dependency != 0
    ensures Before(Inserted(l, c).chain, Parent(l, c), c.header)
  {
    var chain := Inserted(l, c).chain;
    if c.dependency in l.headers {
      var k := PlaceOf(l.chain, l.headers[c.dependency]);
      InsertedElements(l.chain, k, c.header);
      assert chain[k] == l.headers[c.dependency] && chain[k + 1] == c.header;
    } else {
      assert chain[|l.chain|] == c.placeholder && chain[|l.chain| + 1] == c.header;
    }
  }

  // Runs of calls.

  ghost predicate AllNew<O>(l: List<O>, calls: seq<Call<O>>)
    requires IsList(l)
    decreases |calls|
  {
    calls == [] || (IsNew(l, calls[0]) && (InsertedKeeps(l, calls[0]); AllNew(Inserted(l, calls[0]), calls[1..])))
  }

  ghost function AfterCalls<O>(l: List<O>, calls: seq<Call<O>>): List<O>
    requires IsList(l) && AllNew(l, calls)
    decreases |calls|
  {
    if calls == [] then l else
      InsertedKeeps(l, calls[0]);
      AfterCalls(Inserted(l, calls[0]), calls[1..])
  }

  /** All the headers and placeholders made in a run. */
  ghost function AllMade<O>(l: List<O>, calls: seq<Call<O>>): seq<O>
    requires IsList(l) && AllNew(l, calls)
    decreases |calls|
  {
    if calls == [] then [] else
      InsertedKeeps(l, calls[0]);
      Made(l, calls[0]) + AllMade(Inserted(l, calls[0]), calls[1..])
  }

  lemma {:induction false} RunOrderIsKept<O>(l: List<O>, calls: seq<Call<O>>, a: O, b: O)
    requires IsList(l) && AllNew(l, calls) && Before(l.chain, a, b)
    ensures Before(AfterCalls(l, calls).chain, a, b)
    decreases |calls|
  {
    if calls != [] {
      InsertedKeeps(l, calls[0]);
      OrderIsKept(l, calls[0], a, b);
      RunOrderIsKept(Inserted(l, calls[0]), calls[1..], a, b);
    }
  }

  /** After any run the chain holds every header and placeholder exactly once, and the map only has headers on it. */
  lemma {:induction false} RunHoldsAll<O>(l: List<O>, calls: seq<Call<O>>)
    requires IsList(l) && AllNew(l, calls)
    ensures IsList(AfterCalls(l, calls))
    ensures multiset(AfterCalls(l, calls).chain) == multiset(l.chain) + multiset(AllMade(l, calls))
    decreases |calls|
  {
    if calls != [] {
      InsertedKeeps(l, calls[0]);
      RunHoldsAll(Inserted(l, calls[0]), calls[1..]);
      SumOf(l.chain, Made(l, calls[0]), AllMade(Inserted(l, calls[0]), calls[1..]));
    }
  }

  lemma SumOf<O>(a: seq<O>, b: seq<O>, c: seq<O>)
    ensures (multiset(a) + multiset(b)) + multiset(c) == multiset(a) + multiset(b + c)
  {
  }

  /** Each header that was made dependent on another still follows it, after any run. */
  lemma {:induction false} RunFollowsParents<O>(l: List<O>, calls: seq<Call<O>>, k: nat)
    requires IsList(l) && AllNew(l, calls) && k < |calls| && calls[k].dependency != 0
    ensures AllNew(l, calls[..k])
    ensures Before(AfterCalls(l, calls).chain, Parent(AfterCalls(l, calls[..k]), calls[k]), calls[k].header)
    decreases |calls|
  {
    InsertedKeeps(l, calls[0]);
    var next := Inserted(l, calls[0]);
    if k == 0 {
      assert calls[..0] == [];
      FollowsParent(l, calls[0]);
      RunOrderIsKept(next, calls[1..], Parent(l, calls[0]), calls[0].header);
    } else {
      RunFollowsParents(next, calls[1..], k - 1);
      assert calls[..k][1..] == calls[1..][..k - 1] && calls[..k][0] == calls[0];
    }
  }

  lemma {:induction false} RunMapKeeps<O>(l: List<O>, calls: seq<Call<O>>, id: nat)
    requires IsList(l) && AllNew(l, calls) && id in l.headers
    ensures id in AfterCalls(l, calls).headers && AfterCalls(l, calls).headers[id] == l.headers[id]
    decreases |calls|
  {
    if calls != [] {
      InsertedKeeps(l, calls[0]);
      MapKeeps(l, calls[0]);
      RunMapKeeps(Inserted(l, calls[0]), calls[1..], id);
    }
  }

  /** What is right behind a comes before all else behind a. */
  lemma RightBehindIsFirst<O>(chain: seq<O>, a: O, b: O, c: O)
    requires Distinct(chain) && RightBehind(chain, a, b) && Before(chain, a, c) && b != c
    ensures Before(chain, b, c)
  {
    var j :| 0 <= j < |chain| - 1 && chain[j] == a && chain[j + 1] == b;
    var x, y :| 0 <= x < y < |chain| && chain[x] == a && chain[y] == c;
    assert x == j && y != j + 1;
  }

  /** One more call, made dependent on a stream that another header was made dependent on before. */
  lemma LaterIsCloser<O>(l: List<O>, c: Call<O>, other: O)
    requires IsList(l) && IsNew(l, c) && c.dependency in l.headers && c.dependency != 0
    requires Before(l.chain, l.headers[c.dependency], other)
    ensures Before(Inserted(l, c).chain, c.header, other)
  {
    hide Inserted, RightBehind, Before, Others;
    var parent := l.headers[c.dependency];
    InsertedKeeps(l, c);
    PlacedRightBehind(l, c);
    OrderIsKept(l, c, parent, other);
    BeforeIsIn(l.chain, parent, other);
    RightBehindIsFirst(Inserted(l, c).chain, parent, c.header, other);
  }

  lemma BeforeIsIn<O>(chain: seq<O>, a: O, b: O)
    requires Before(chain, a, b)
    ensures b in chain
  {
  }

  /** Of two headers made dependent on the same stream the later one comes first, after any run. */
  lemma {:induction false} RunLaterIsCloser<O>(l: List<O>, calls: seq<Call<O>>, i: nat, k: nat)
    requires IsList(l) && AllNew(l, calls) && i < k < |calls|
    requires calls[i].dependency == calls[k].dependency != 0
    ensures Before(AfterCalls(l, calls).chain, calls[k].header, calls[i].header)
    decreases |calls|
  {
    hide Inserted, Before;
    var next, rest := Inserted(l, calls[0]), calls[1..];
    InsertedKeeps(l, calls[0]);
    if i > 0 {
      RunLaterIsCloser(next, rest, i - 1, k - 1);
    } else {
      MapKeeps(l, calls[0]);
      FollowsParent(l, calls[0]);
      LaterCallIsCloser(next, rest, k - 1, calls[0].header);
    }
  }

  lemma {:induction false} LaterCallIsCloser<O>(l: List<O>, calls: seq<Call<O>>, k: nat, other: O)
    requires IsList(l) && AllNew(l, calls) && k < |calls| && calls[k].dependency != 0
    requires calls[k].dependency in l.headers && Before(l.chain, l.headers[calls[k].dependency], other)
    ensures Before(AfterCalls(l, calls).chain, calls[k].header, other)
    decreases |calls|
  {
    hide Inserted, Before;
    var c, next, rest := calls[0], Inserted(l, calls[0]), calls[1..];
    InsertedKeeps(l, c);
    MapKeeps(l, c);
    if k == 0 {
      LaterIsCloser(l, c, other);
      RunOrderIsKept(next, rest, c.header, other);
    } else {
      OrderIsKept(l, c, l.headers[calls[k].dependency], other);
      LaterCallIsCloser(next, rest, k - 1, other);
    }
  }

  // The linked list.

  class Header {
    const id: nat
    var next: Header?

    constructor (id: nat)
      ensures this.id == id && next == null
    {
      this.id, next := id, null;
    }
  }

  function Ref(n: Header?): Option<Header> {
    if n == null then None else Some(n)
  }

  class Requests {
    var first: Header?
    var last: Header?
    var headerMap: map<nat, Header>
    ghost var chain: seq<Header>

    ghost function Heap(): map<Header, Option<Header>>
      reads this, chain
    {
      map n | n in chain :: Ref(n.next)
    }

    ghost function Value(): List<Header>
      reads this
    {
      List(chain, headerMap)
    }

    /** Following next from first goes along the chain and ends at last. */
    ghost predicate Valid()
      reads this, chain
    {
      && IsList(Value()) && Hangs(Heap(), Ref(first), chain)
      && last == if chain == [] then null else chain[|chain| - 1]
    }

    constructor ()
      ensures Valid() && Value() == List([], map[])
    {
      first, last, headerMap, chain := null, null, map[], [];
    }

    /** A header that is on no chain yet is put behind the last one. */
    method Append(header: Header)
      requires Valid() && header !in chain && header.next == null
      modifies this, chain
      ensures Valid() && chain == old(chain) + [header] && headerMap == old(headerMap) && header.next == null
    {
      hide IsList, Hangs;
      ghost var heap: map<Header, Option<Header>> := Heap()[header := None];
      AppendHangs(heap, header);
      if last != null {
        heap := heap[last := Some(header)];
        last.next := header;
      } else {
        first := header;
      }
      last := header;
      chain := chain + [header];
      assert Heap() == heap;
    }

    lemma AppendHangs(heap: map<Header, Option<Header>>, header: Header)
      requires Valid() && header !in chain && heap == Heap()[header := None]
      ensures last == null <==> chain == []
      ensures last != null ==> Hangs(heap[last := Some(header)], Ref(first), chain + [header])
      ensures last == null ==> Hangs(heap, Some(header), chain + [header])
      ensures last != null ==> last in chain
      ensures IsList(List(chain + [header], headerMap))
    {
      OtherHangs(Heap(), Ref(first), chain, header, None);
      if last != null {
        AppendOne(heap, Ref(first), chain, header);
      }
    }

    /** A header is put right behind one that is on the chain. */
    method InsertBehind(request: Header, header: Header)
      requires Valid() && request in chain && header !in chain
      modifies this, chain, header
      ensures Valid() && headerMap == old(headerMap)
      ensures chain == InsertedAfter(old(chain), PlaceOf(old(chain), request), header)
    {
      hide IsList, Hangs, InsertedAfter;
      ghost var j := PlaceOf(chain, request);
      ghost var heap: map<Header, Option<Header>> := Heap();
      InsertHangs(j, header);
      header.next := request.next;
      request.next := header;
      if request == last {
        last := header;
      }
      chain := InsertedAfter(chain, j, header);
      assert Heap() == heap[header := heap[request]][request := Some(header)];
    }

    lemma InsertHangs(j: nat, header: Header)
      requires Valid() && j < |chain| && header !in chain
      ensures chain[j] in Heap()
      ensures var more := InsertedAfter(chain, j, header);
              && Hangs(Heap()[header := Heap()[chain[j]]][chain[j] := Some(header)], Ref(first), more)
              && IsList(List(more, headerMap)) && (forall n :: n in more <==> n in chain || n == header)
              && more[|more| - 1] == (if chain[j] == last then header else last) && more != []
    {
      hide InsertedAfter, Hangs, Distinct;
      InsertOne(Heap(), Ref(first), chain, j, header);
      InsertedContents(chain, j, header);
      InsertedLast(chain, j, header);
    }

    /** The stream depended on is not there: a dummy header for it goes to the end, and the header behind it. */
    method AppendWithPlaceholder(header: Header, dependency: nat) returns (placeholder: Header)
      requires Valid() && header !in chain && header.next == null && dependency !in headerMap
      modifies this, chain
      ensures Valid() && fresh(placeholder) && header in chain
      ensures Value() == List(old(chain) + [placeholder] + [header], old(headerMap)[dependency := placeholder])
    {
      hide IsList, Hangs;
      placeholder := new Header(dependency);
      Append(placeholder);
      Append(header);
      AddToMap(dependency, placeholder);
    }

    method AddToMap(id: nat, header: Header)
      requires Valid() && header in chain
      modifies this`headerMap
      ensures Valid() && chain == old(chain) && headerMap == old(headerMap)[id := header]
    {
      headerMap := headerMap[id := header];
    }

    /** insert: a fresh header, and the stream that it depends on, 0 for none. */
    method Insert(header: Header, dependency: nat) returns (ghost placeholder: Header)
      requires Valid() && header !in chain && header.next == null
      modifies this, chain, header
      ensures Valid() && (placeholder == header || fresh(placeholder))
      ensures dependency != 0 && dependency !in old(headerMap) ==> fresh(placeholder)
      ensures old(IsList(Value())) && Value() == Inserted(old(Value()), Call(header, header.id, dependency, placeholder))
    {
      hide InsertedAfter, Hangs;
      placeholder := header;
      if dependency != 0 {
        if dependency in headerMap {
          InsertBehind(headerMap[dependency], header);
          InsertedContents(old(chain), PlaceOf(old(chain), old(headerMap)[dependency]), header);
        } else {
          placeholder := AppendWithPlaceholder(header, dependency);
        }
      } else {
        Append(header);
      }
      if header.id !in headerMap {
        AddToMap(header.id, header);
      }
    }

    lemma BeginDestroy()
      requires Valid()
      ensures Distinct(chain) && Hangs(Heap(), At(chain, 0), chain) && Ref(first) == At(chain, 0)
      ensures IsSnapshot(Heap())
    {
    }

    /** The destructor: every header is freed, once, in the order of the chain, and none is read after that. */
    method Destroy() returns (freed: seq<Header>)
      requires Valid()
      modifies this`first
      ensures first == null && freed == old(chain) && Distinct(freed)
    {
      ghost var c: seq<Header>, heap: map<Header, Option<Header>> := chain, Heap();
      freed := [];
      BeginDestroy();
      hide *;
      while first != null
        invariant freed <= c && Ref(first) == At(c, |freed|)
        invariant IsSnapshot(heap)
        decreases |c| - |freed|
      {
        var current: Header := first;
        OneFreed(heap, c, freed, current);
        var next := current.next;
        freed := freed + [current];
        first := next;
      }
      AllFreed(c, freed);
    }
  }

  ghost predicate IsSnapshot(heap: map<Header, Option<Header>>)
    reads heap.Keys
  {
    forall n :: n in heap ==> Ref(n.next) == heap[n]
  }

  lemma OneFreed(heap: map<Header, Option<Header>>, chain: seq<Header>, freed: seq<Header>, current: Header)
    requires Hangs(heap, At(chain, 0), chain) && freed <= chain && Ref(current) == At(chain, |freed|) && IsSnapshot(heap)
    ensures freed + [current] <= chain && Ref(current.next) == At(chain, |freed + [current]|)
  {
  }

  lemma AllFreed(chain: seq<Header>, freed: seq<Header>)
    requires freed <= chain && Ref(null) == At(chain, |freed|)
    ensures freed == chain
  {
  }
}
