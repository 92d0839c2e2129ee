/**
  What the buckets of library/lockfree/include/SplitOrderList.h mean: lists of entries, each in the bucket of
  its hash, that stand for a finite map; and the operations on them under any interleaving of threads that
  hold the lock of a bucket.
 */
module HashBuckets {
  import opened Options
  import opened Chains

  datatype Entry<K, V> = Entry(key: K, value: V)

  type Buckets<K, V> = seq<seq<Entry<K, V>>>

  /** Every entry sits in the bucket of its hash, and no bucket has two with one key. */
  ghost predicate Placed<K(!new), V>(bs: Buckets<K, V>, hash: K -> nat) {
    && |bs| > 0
    && (forall i, j :: 0 <= i < |bs| && 0 <= j < |bs[i]| ==> hash(bs[i][j].key) % |bs| == i)
    && (forall i, j, k :: 0 <= i < |bs| && 0 <= j < k < |bs[i]| ==> bs[i][j].key != bs[i][k].key)
  }

  ghost predicate Holds<K, V>(b: seq<Entry<K, V>>, key: K) {
    exists j :: 0 <= j < |b| && b[j].key == key
  }

  /** The buckets stand for the map m. */
  ghost predicate StandsFor<K(!new), V>(bs: Buckets<K, V>, hash: K -> nat, m: map<K, V>) {
    && Placed(bs, hash)
    && (forall i, j :: 0 <= i < |bs| && 0 <= j < |bs[i]| ==> bs[i][j].key in m && m[bs[i][j].key] == bs[i][j].value)
    && (forall key {:trigger key in m} :: key in m ==> Holds(bs[hash(key) % |bs|], key))
  }

  function Total<K, V>(bs: Buckets<K, V>): nat {
    if bs == [] then 0 else Total(bs[..|bs| - 1]) + |bs[|bs| - 1]|
  }

  lemma {:induction false} TotalStep<K, V>(bs: Buckets<K, V>, i: nat, b: seq<Entry<K, V>>)
    requires i < |bs|
    ensures Total(bs[i := b]) == Total(bs) - |bs[i]| + |b|
    decreases |bs|
  {
    var front := bs[..|bs| - 1];
    if i < |bs| - 1 {
      TotalStep(front, i, b);
      assert bs[i := b][..|bs| - 1] == front[i := b];
    } else {
      assert bs[i := b][..|bs| - 1] == front;
    }
  }

  lemma {:induction false} TotalOfNone<K, V>(bs: Buckets<K, V>)
    requires forall i :: 0 <= i < |bs| ==> bs[i] == []
    ensures Total(bs) == 0
  {
    if bs != [] {
      TotalOfNone(bs[..|bs| - 1]);
    }
  }

  /** A key that is not in its bucket is put at the front. */
  lemma InsertStands<K(!new), V>(bs: Buckets<K, V>, hash: K -> nat, m: map<K, V>, key: K, value: V)
    requires StandsFor(bs, hash, m) && key !in m
    ensures var i := hash(key) % |bs|;
            StandsFor(bs[i := [Entry(key, value)] + bs[i]], hash, m[key := value])
  {
    var i := hash(key) % |bs|;
    var b := [Entry(key, value)] + bs[i];
    var bs', m' := bs[i := b], m[key := value];
    forall k | k in m' ensures Holds(bs'[hash(k) % |bs'|], k) {
      if k == key {
        assert b[0].key == key;
      } else {
        var j :| 0 <= j < |bs[hash(k) % |bs|]| && bs[hash(k) % |bs|][j].key == k;
        assert hash(k) % |bs| == i ==> b[j + 1].key == k;
      }
    }
  }

  lemma RemoveStands<K(!new), V>(bs: Buckets<K, V>, hash: K -> nat, m: map<K, V>, i: nat, j: nat)
    requires StandsFor(bs, hash, m) && i < |bs| && j < |bs[i]|
    ensures StandsFor(bs[i := Without(bs[i], j)], hash, m - {bs[i][j].key})
  {
    var key, b := bs[i][j].key, Without(bs[i], j);
    var bs', m' := bs[i := b], m - {key};
    assert forall k :: 0 <= k < |b| ==> b[k] == bs[i][if k < j then k else k + 1];
    forall k | k in m' ensures Holds(bs'[hash(k) % |bs'|], k) {
      var n :| 0 <= n < |bs[hash(k) % |bs|]| && bs[hash(k) % |bs|][n].key == k;
      if hash(k) % |bs| == i {
        assert n != j;
        assert b[if n < j then n else n - 1].key == k;
      }
    }
    forall x, y | 0 <= x < |bs'| && 0 <= y < |bs'[x]| ensures bs'[x][y].key in m' {
      if x != i {
        assert hash(bs[x][y].key) % |bs| == x;
      }
    }
  }

  lemma FirstEntry<K(!new), V>(bs: Buckets<K, V>, hash: K -> nat, m: map<K, V>, i: nat)
    requires StandsFor(bs, hash, m) && i < |bs| && bs[i] != []
    ensures bs[i][0].key in m
  {
  }

  /** The number of entries is the number of keys. */
  lemma {:induction false} TotalIsSize<K(!new), V>(bs: Buckets<K, V>, hash: K -> nat, m: map<K, V>)
    requires StandsFor(bs, hash, m)
    ensures Total(bs) == |m|
    decreases |m|
  {
    if m == map[] {
      forall i | 0 <= i < |bs| ensures bs[i] == [] {
        if bs[i] != [] {
          FirstEntry(bs, hash, m, i);
        }
      }
      TotalOfNone(bs);
    } else {
      var key :| key in m;
      var i := hash(key) % |bs|;
      var j :| 0 <= j < |bs[i]| && bs[i][j].key == key;
      RemoveStands(bs, hash, m, i, j);
      TotalStep(bs, i, Without(bs[i], j));
      assert m.Keys == (m - {key}).Keys + {key};
      TotalIsSize(bs[i := Without(bs[i], j)], hash, m - {key});
    }
  }

  /** One set of buckets stands for one map only. */
  lemma StandsForOneMap<K(!new), V>(bs: Buckets<K, V>, hash: K -> nat, m: map<K, V>, m': map<K, V>)
    requires StandsFor(bs, hash, m) && StandsFor(bs, hash, m')
    ensures m == m'
  {
    forall key ensures (key in m <==> key in m') && (key in m ==> m[key] == m'[key]) {
      if key in m {
        var j :| 0 <= j < |bs[hash(key) % |bs|]| && bs[hash(key) % |bs|][j].key == key;
      }
      if key in m' {
        var j :| 0 <= j < |bs[hash(key) % |bs|]| && bs[hash(key) % |bs|][j].key == key;
      }
    }
  }

  // Rehashing: the entries of the old buckets are taken over one by one.

  /** n holds the entries of the buckets before i and the first j of bucket i, and no others. */
  ghost predicate TakenOver<K, V>(bs: Buckets<K, V>, m: map<K, V>, n: map<K, V>, i: nat, j: nat) {
    && (forall x, y :: 0 <= x < |bs| && 0 <= y < |bs[x]| ==> (bs[x][y].key in n <==> x < i || (x == i && y < j)))
    && (forall key :: key in n ==> key in m && n[key] == m[key])
  }

  lemma TakeOverOne<K(!new), V>(bs: Buckets<K, V>, hash: K -> nat, m: map<K, V>, n: map<K, V>, i: nat, j: nat)
    requires StandsFor(bs, hash, m) && TakenOver(bs, m, n, i, j) && i < |bs| && j < |bs[i]|
    ensures bs[i][j].key !in n && TakenOver(bs, m, n[bs[i][j].key := bs[i][j].value], i, j + 1)
  {
    var e := bs[i][j];
    forall x, y | 0 <= x < |bs| && 0 <= y < |bs[x]|
      ensures bs[x][y].key in n[e.key := e.value] <==> x < i || (x == i && y < j + 1)
    {
      assert hash(bs[x][y].key) % |bs| == x && hash(e.key) % |bs| == i;
    }
  }

  lemma NextBucket<K, V>(bs: Buckets<K, V>, m: map<K, V>, n: map<K, V>, i: nat)
    requires i < |bs| && TakenOver(bs, m, n, i, |bs[i]|)
    ensures TakenOver(bs, m, n, i + 1, 0)
  {
  }

  lemma NoneTakenOver<K, V>(bs: Buckets<K, V>, m: map<K, V>)
    ensures TakenOver(bs, m, map[], 0, 0)
  {
  }

  lemma AllTakenOver<K(!new), V>(bs: Buckets<K, V>, hash: K -> nat, m: map<K, V>, n: map<K, V>)
    requires StandsFor(bs, hash, m) && TakenOver(bs, m, n, |bs|, 0)
    ensures n == m
  {
    forall key | key in m ensures key in n {
      var j :| 0 <= j < |bs[hash(key) % |bs|]| && bs[hash(key) % |bs|][j].key == key;
    }
  }

  function Empty<K, V>(n: nat): (bs: Buckets<K, V>)
    ensures |bs| == n && forall i :: 0 <= i < n ==> bs[i] == []
  {
    seq(n, _ => [])
  }

  /** The new table when the buckets before i and the first j of bucket i are taken over; each entry goes to the front. */
  function Rehashed<K, V>(bs: Buckets<K, V>, hash: K -> nat, n: nat, i: nat, j: nat): (r: Buckets<K, V>)
    requires n > 0 && i <= |bs| && (if i < |bs| then j <= |bs[i]| else j == 0)
    ensures |r| == n
    decreases i, j
  {
    if j > 0 then
      var r, e := Rehashed(bs, hash, n, i, j - 1), bs[i][j - 1];
      r[hash(e.key) % n := [e] + r[hash(e.key) % n]]
    else if i > 0 then Rehashed(bs, hash, n, i - 1, |bs[i - 1]|)
    else Empty(n)
  }

  lemma {:induction false} RehashedStands<K(!new), V>(bs: Buckets<K, V>, hash: K -> nat, m: map<K, V>, n: nat, i: nat, j: nat)
    returns (taken: map<K, V>)
    requires StandsFor(bs, hash, m) && n > 0 && i <= |bs| && (if i < |bs| then j <= |bs[i]| else j == 0)
    ensures StandsFor(Rehashed(bs, hash, n, i, j), hash, taken) && TakenOver(bs, m, taken, i, j)
    decreases i, j
  {
    hide StandsFor, TakenOver;
    if j > 0 {
      var e := bs[i][j - 1];
      taken := RehashedStands(bs, hash, m, n, i, j - 1);
      TakeOverOne(bs, hash, m, taken, i, j - 1);
      InsertStands(Rehashed(bs, hash, n, i, j - 1), hash, taken, e.key, e.value);
      assert Entry(e.key, e.value) == e;
      taken := taken[e.key := e.value];
    } else if i > 0 {
      taken := RehashedStands(bs, hash, m, n, i - 1, |bs[i - 1]|);
      NextBucket(bs, m, taken, i - 1);
    } else {
      taken := map[];
      EmptyStands<K, V>(hash, n);
      NoneTakenOver(bs, m);
    }
  }

  lemma EmptyStands<K(!new), V>(hash: K -> nat, n: nat)
    requires n > 0
    ensures StandsFor(Empty<K, V>(n), hash, map[])
  {
  }

  function Resized<K, V>(bs: Buckets<K, V>, hash: K -> nat, n: nat): Buckets<K, V>
    requires n > 0
  {
    Rehashed(bs, hash, n, |bs|, 0)
  }

  /** A table of any other size stands for the same map. */
  lemma ResizedStands<K(!new), V>(bs: Buckets<K, V>, hash: K -> nat, m: map<K, V>, n: nat)
    requires StandsFor(bs, hash, m) && n > 0
    ensures StandsFor(Resized(bs, hash, n), hash, m)
  {
    hide StandsFor;
    var taken := RehashedStands(bs, hash, m, n, |bs|, 0);
    AllTakenOver(bs, hash, m, taken);
  }

  // The operations as steps of threads. Under the lock of its bucket a thread goes along the list from node to
  // node, then makes its one change to the list, then changes the shared counter. Threads at other buckets do
  // their steps in between. A resize needs the map for itself.

  datatype Op<K, V> = Insert(key: K, value: V) | Remove(key: K) | Find(key: K)

  datatype Answer<V> = Done(ok: bool) | Found(value: Option<V>)

  /** What a thread holding a lock has done so far. */
  datatype Stage =
    | Walking(at: nat)             // the nodes before this one have other keys
    | Walked(end: Option<nat>)     // the node that has the key, if there is one
    | Applied(pending: int)        // what it has still to add to the counter

  datatype Holder<K, V> = Holder(op: Op<K, V>, stage: Stage)

  datatype State<!K(!new), V> = State(
    hash: K -> nat,
    buckets: Buckets<K, V>,
    size: int,
    locks: map<nat, Holder<K, V>>,       // by bucket
    history: seq<(Op<K, V>, Answer<V>)>  // what was applied, in this order, with what it returned
  )

  datatype Event<K, V> =
    | Acquire(op: Op<K, V>) | Look(bucket: nat) | Apply(bucket: nat) | CountIn(bucket: nat) | Release(bucket: nat)
    | Resize(capacity: nat)

  /** An operation that has walked its bucket: the new bucket, the change of the counter and the answer. */
  function OnBucket<K, V>(b: seq<Entry<K, V>>, op: Op<K, V>, end: Option<nat>): (seq<Entry<K, V>>, int, Answer<V>)
    requires end.Some? ==> end.value < |b|
  {
    match (op, end)
    case (Insert(key, value), None) => ([Entry(key, value)] + b, 1, Done(true))
    case (Insert(_, _), Some(_)) => (b, 0, Done(false))
    case (Remove(_), None) => (b, 0, Done(false))
    case (Remove(_), Some(j)) => (Without(b, j), -1, Done(true))
    case (Find(_), None) => (b, 0, Found(None))
    case (Find(_), Some(j)) => (b, 0, Found(Some(b[j].value)))
  }

  /** The same operation on the map. */
  function OnMap<K, V>(m: map<K, V>, op: Op<K, V>): (map<K, V>, Answer<V>) {
    match op
    case Insert(key, value) => if key in m then (m, Done(false)) else (m[key := value], Done(true))
    case Remove(key) => (m - {key}, Done(key in m))
    case Find(key) => (m, Found(if key in m then Some(m[key]) else None))
  }

  ghost predicate Possible<K(!new), V>(s: State<K, V>, e: Event<K, V>) {
    match e
    case Acquire(op) => |s.buckets| > 0 && s.hash(op.key) % |s.buckets| !in s.locks
    case Look(i) => i in s.locks && i < |s.buckets| && s.locks[i].stage.Walking?
    case Apply(i) =>
      && i in s.locks && i < |s.buckets| && s.locks[i].stage.Walked?
      && (s.locks[i].stage.end.Some? ==> s.locks[i].stage.end.value < |s.buckets[i]|)
    case CountIn(i) => i in s.locks && s.locks[i].stage.Applied? && s.locks[i].stage.pending != 0
    case Release(i) => i in s.locks && s.locks[i].stage == Applied(0)
    case Resize(capacity) => s.locks == map[] && capacity > 0
  }

  /** One look at the node a walk has reached. */
  function LookAt<K(==), V>(b: seq<Entry<K, V>>, key: K, at: nat): Stage {
    if at >= |b| then Walked(None) else if b[at].key == key then Walked(Some(at)) else Walking(at + 1)
  }

  ghost function Next<K(!new), V>(s: State<K, V>, e: Event<K, V>): State<K, V>
    requires Possible(s, e)
  {
    match e
    case Acquire(op) => s.(locks := s.locks[s.hash(op.key) % |s.buckets| := Holder(op, Walking(0))])
    case Look(i) =>
      var h := s.locks[i];
      s.(locks := s.locks[i := h.(stage := LookAt(s.buckets[i], h.op.key, h.stage.at))])
    // the write to the head or to the node before
    case Apply(i) =>
      var h := s.locks[i];
      var (b, change, answer) := OnBucket(s.buckets[i], h.op, h.stage.end);
      s.(buckets := s.buckets[i := b], locks := s.locks[i := h.(stage := Applied(change))], history := s.history + [(h.op, answer)])
    // fetch_add or fetch_sub
    case CountIn(i) => s.(size := s.size + s.locks[i].stage.pending, locks := s.locks[i := s.locks[i].(stage := Applied(0))])
    case Release(i) => s.(locks := s.locks - {i})
    case Resize(capacity) => s.(buckets := Resized(s.buckets, s.hash, capacity))
  }

  /** The map after these operations one at a time, if each gives the recorded answer. */
  function Replay<K, V(==)>(m: map<K, V>, history: seq<(Op<K, V>, Answer<V>)>): Option<map<K, V>> {
    if history == [] then Some(m) else
      match Replay(m, history[..|history| - 1])
      case None => None
      case Some(n) =>
        var (op, answer) := history[|history| - 1];
        if OnMap(n, op).1 == answer then Some(OnMap(n, op).0) else None
  }

  function Owed<K, V>(h: Holder<K, V>): int {
    if h.stage.Applied? then h.stage.pending else 0
  }

  /** What the holders of locks have still to add to the counter. */
  function Pending<K, V>(locks: map<nat, Holder<K, V>>, n: nat): int {
    if n == 0 then 0 else Pending(locks, n - 1) + if n - 1 in locks then Owed(locks[n - 1]) else 0
  }

  lemma {:induction false} PendingChange<K, V>(locks: map<nat, Holder<K, V>>, locks': map<nat, Holder<K, V>>, i: nat, n: nat)
    requires forall k :: k != i ==> (k in locks <==> k in locks') && (k in locks ==> locks[k] == locks'[k])
    ensures Pending(locks', n) == Pending(locks, n) +
              if i < n then (if i in locks' then Owed(locks'[i]) else 0) - (if i in locks then Owed(locks[i]) else 0) else 0
  {
    if n > 0 {
      PendingChange(locks, locks', i, n - 1);
    }
  }

  /** What a thread knows of its bucket stays true as long as it holds the lock. */
  ghost predicate Knows<K, V>(b: seq<Entry<K, V>>, key: K, stage: Stage) {
    match stage
    case Walking(at) => at <= |b| && forall k :: 0 <= k < at ==> b[k].key != key
    case Walked(None) => !Holds(b, key)
    case Walked(Some(j)) => j < |b| && b[j].key == key
    case Applied(_) => true
  }

  ghost predicate HolderOk<K(!new), V>(s: State<K, V>, i: nat)
    requires i in s.locks
  {
    i < |s.buckets| && s.hash(s.locks[i].op.key) % |s.buckets| == i && Knows(s.buckets[i], s.locks[i].op.key, s.locks[i].stage)
  }

  ghost predicate Inv<K(!new), V>(s: State<K, V>, m0: map<K, V>, m: map<K, V>) {
    && StandsFor(s.buckets, s.hash, m) && Replay(m0, s.history) == Some(m)
    && s.size + Pending(s.locks, |s.buckets|) == |m|
    && forall i {:trigger HolderOk(s, i)} :: i in s.locks ==> HolderOk(s, i)
  }

  /** A walk to its end is a look-up in the map. */
  lemma WalkFinds<K(!new), V>(bs: Buckets<K, V>, hash: K -> nat, m: map<K, V>, key: K, end: Option<nat>)
    requires StandsFor(bs, hash, m) && Knows(bs[hash(key) % |bs|], key, Walked(end))
    ensures var b := bs[hash(key) % |bs|];
            match end
            case None => key !in m
            case Some(j) => j < |b| && b[j].key == key && key in m && m[key] == b[j].value
  {
    if key in m {
      assert Holds(bs[hash(key) % |bs|], key);
    }
  }

  /** The change that a thread makes behind its walk is the operation on the map, with its answer. */
  lemma ApplyRefines<K(!new), V>(bs: Buckets<K, V>, hash: K -> nat, m: map<K, V>, op: Op<K, V>, end: Option<nat>)
    requires StandsFor(bs, hash, m) && Knows(bs[hash(op.key) % |bs|], op.key, Walked(end))
    ensures var i := hash(op.key) % |bs|;
            var (b, change, answer) := OnBucket(bs[i], op, end);
            && StandsFor(bs[i := b], hash, OnMap(m, op).0) && answer == OnMap(m, op).1
            && |OnMap(m, op).0| == |m| + change
  {
    hide StandsFor, Knows;
    WalkFinds(bs, hash, m, op.key, end);
    HashInRange(bs, hash, m, op.key);
    var i := hash(op.key) % |bs|;
    assert bs[i := bs[i]] == bs;
    match op
    case Insert(key, value) =>
      if key !in m {
        InsertStands(bs, hash, m, key, value);
        OneKeyMore(m, key, value);
      }
    case Remove(key) =>
      if key in m {
        RemoveStands(bs, hash, m, i, end.value);
        OneKeyLess(m, key);
      } else {
        NoKeyLess(m, key);
      }
    case Find(_) =>
  }

  lemma HashInRange<K(!new), V>(bs: Buckets<K, V>, hash: K -> nat, m: map<K, V>, key: K)
    requires StandsFor(bs, hash, m)
    ensures |bs| > 0 && hash(key) % |bs| < |bs|
  {
  }

  lemma OneKeyMore<K, V>(m: map<K, V>, key: K, value: V)
    requires key !in m
    ensures |m[key := value]| == |m| + 1
  {
    assert m[key := value].Keys == m.Keys + {key};
  }

  lemma OneKeyLess<K, V>(m: map<K, V>, key: K)
    requires key in m
    ensures |m - {key}| == |m| - 1
  {
    assert m.Keys == (m - {key}).Keys + {key};
  }

  lemma NoKeyLess<K, V>(m: map<K, V>, key: K)
    requires key !in m
    ensures m - {key} == m
  {
  }

  lemma ReplayOne<K, V>(m0: map<K, V>, history: seq<(Op<K, V>, Answer<V>)>, op: Op<K, V>, m: map<K, V>)
    requires Replay(m0, history) == Some(m)
    ensures Replay(m0, history + [(op, OnMap(m, op).1)]) == Some(OnMap(m, op).0)
  {
    assert (history + [(op, OnMap(m, op).1)])[..|history|] == history;
  }

  lemma {:induction false} NoPending<K, V>(n: nat)
    ensures Pending<K, V>(map[], n) == 0
  {
    if n > 0 {
      NoPending<K, V>(n - 1);
    }
  }

  /** Where the steps of one thread leave the others. */
  lemma OthersOk<K(!new), V>(s: State<K, V>, s': State<K, V>, i: nat)
    requires s'.hash == s.hash && |s'.buckets| == |s.buckets|
    requires forall k :: k != i && k in s'.locks ==> k in s.locks && HolderOk(s, k) && s'.locks[k] == s.locks[k]
    requires forall k :: k != i && 0 <= k < |s.buckets| ==> s'.buckets[k] == s.buckets[k]
    requires i in s'.locks ==> HolderOk(s', i)
    ensures forall k {:trigger HolderOk(s', k)} :: k in s'.locks ==> HolderOk(s', k)
  {
  }

  lemma LookKnows<K, V>(b: seq<Entry<K, V>>, key: K, at: nat)
    requires Knows(b, key, Walking(at))
    ensures Knows(b, key, LookAt(b, key, at)) && !LookAt(b, key, at).Applied?
  {
  }

  lemma InvStep<K(!new), V>(s: State<K, V>, e: Event<K, V>, m0: map<K, V>, m: map<K, V>) returns (m': map<K, V>)
    requires Inv(s, m0, m) && Possible(s, e)
    ensures Inv(Next(s, e), m0, m')
    ensures m' == if e.Apply? then OnMap(m, s.locks[e.bucket].op).0 else m
  {
    match e
    case Apply(i) => m' := ApplyStep(s, i, m0, m);
    case Resize(capacity) =>
      ResizeStep(s, capacity, m0, m);
      m' := m;
    case _ =>
      QuietStep(s, e, m0, m);
      m' := m;
  }

  lemma ApplyStep<K(!new), V>(s: State<K, V>, i: nat, m0: map<K, V>, m: map<K, V>) returns (m': map<K, V>)
    requires Inv(s, m0, m) && Possible(s, Apply(i))
    ensures Inv(Next(s, Apply(i)), m0, m') && m' == OnMap(m, s.locks[i].op).0
  {
    hide StandsFor, Replay, OnBucket, OnMap, Pending;
    var s', h := Next(s, Apply(i)), s.locks[i];
    m' := OnMap(m, h.op).0;
    assert HolderOk(s, i);
    ApplyRefines(s.buckets, s.hash, m, h.op, h.stage.end);
    PendingChange(s.locks, s'.locks, i, |s.buckets|);
    ReplayOne(m0, s.history, h.op, m);
    OthersOk(s, s', i);
  }

  lemma ResizeStep<K(!new), V>(s: State<K, V>, capacity: nat, m0: map<K, V>, m: map<K, V>)
    requires Inv(s, m0, m) && Possible(s, Resize(capacity))
    ensures Inv(Next(s, Resize(capacity)), m0, m)
  {
    hide StandsFor, Replay, Pending;
    ResizedStands(s.buckets, s.hash, m, capacity);
    NoPending<K, V>(|s.buckets|);
    NoPending<K, V>(capacity);
  }

  /** The steps that change no list. */
  lemma QuietStep<K(!new), V>(s: State<K, V>, e: Event<K, V>, m0: map<K, V>, m: map<K, V>)
    requires Inv(s, m0, m) && Possible(s, e) && !e.Apply? && !e.Resize?
    ensures Inv(Next(s, e), m0, m)
  {
    hide StandsFor, Replay, Pending, LookAt, Resized, OnBucket;
    var s' := Next(s, e);
    var i := if e.Acquire? then s.hash(e.op.key) % |s.buckets| else e.bucket;
    PendingChange(s.locks, s'.locks, i, |s.buckets|);
    assert i in s.locks ==> HolderOk(s, i);
    if e.Look? {
      LookKnows(s.buckets[i], s.locks[i].op.key, s.locks[i].stage.at);
    }
    OthersOk(s, s', i);
  }

  ghost predicate Init<K(!new), V>(s: State<K, V>, m0: map<K, V>) {
    StandsFor(s.buckets, s.hash, m0) && s.size == |m0| && s.locks == map[] && s.history == []
  }

  lemma InitInv<K(!new), V>(s: State<K, V>, m0: map<K, V>)
    requires Init(s, m0)
    ensures Inv(s, m0, m0)
  {
    hide StandsFor;
    NoPending<K, V>(|s.buckets|);
    assert s.locks == map[];
  }

  ghost predicate Run<K(!new), V>(s: State<K, V>, events: seq<Event<K, V>>, s': State<K, V>)
    decreases |events|
  {
    if events == [] then s' == s else Possible(s, events[0]) && Run(Next(s, events[0]), events[1..], s')
  }

  lemma {:induction false} RunInv<K(!new), V>(s: State<K, V>, events: seq<Event<K, V>>, s': State<K, V>, m0: map<K, V>, m: map<K, V>)
    returns (m': map<K, V>)
    requires Inv(s, m0, m) && Run(s, events, s')
    ensures Inv(s', m0, m')
    decreases |events|
  {
    hide Inv, Possible, Next;
    m' := m;
    if events != [] {
      m' := InvStep(s, events[0], m0, m);
      m' := RunInv(Next(s, events[0]), events[1..], s', m0, m');
    }
  }

  /**
    Under every interleaving the buckets stand for the map that the operations give when done one at a time, in
    the order in which they were applied and each with the answer it had then; and when no lock is held, the
    counter is the number of keys and of nodes.
   */
  lemma Linearizable<K(!new), V>(s: State<K, V>, events: seq<Event<K, V>>, s': State<K, V>, m0: map<K, V>) returns (m: map<K, V>)
    requires Init(s, m0) && Run(s, events, s')
    ensures Replay(m0, s'.history) == Some(m)
    ensures forall n :: StandsFor(s'.buckets, s'.hash, n) <==> n == m
    ensures s'.locks == map[] ==> s'.size == |m| == Total(s'.buckets)
  {
    hide StandsFor;
    InitInv(s, m0);
    m := RunInv(s, events, s', m0, m0);
    TotalIsSize(s'.buckets, s'.hash, m);
    NoPending<K, V>(|s'.buckets|);
    forall n | StandsFor(s'.buckets, s'.hash, n) ensures n == m {
      StandsForOneMap(s'.buckets, s'.hash, m, n);
    }
  }

  /**
    What a thread has seen on its walk holds until it makes its change, whatever the others do in between: the
    nodes behind it have other keys, and the node it found is still there, or the key still missing.
   */
  lemma WalkIsUndisturbed<K(!new), V>(s: State<K, V>, events: seq<Event<K, V>>, s': State<K, V>, m0: map<K, V>, i: nat)
    requires Init(s, m0) && Run(s, events, s') && i in s'.locks
    ensures i < |s'.buckets| && Knows(s'.buckets[i], s'.locks[i].op.key, s'.locks[i].stage)
  {
    hide StandsFor, Knows;
    InitInv(s, m0);
    var m := RunInv(s, events, s', m0, m0);
    assert HolderOk(s', i);
  }

  // A thread that holds a lock can always go on to its end.

  function StepsLeft(b: nat, stage: Stage): int {
    match stage
    case Walking(at) => 4 + b - at
    case Walked(_) => 3
    case Applied(pending) => if pending != 0 then 2 else 1
  }

  /** Its next step. */
  function NextStep(i: nat, stage: Stage): Event {
    match stage
    case Walking(_) => Look(i)
    case Walked(_) => Apply(i)
    case Applied(pending) => if pending != 0 then CountIn(i) else Release(i)
  }

  lemma GoesOn<K(!new), V>(s: State<K, V>, i: nat, m0: map<K, V>, m: map<K, V>)
    requires Inv(s, m0, m) && i in s.locks
    ensures i < |s.buckets| && Possible(s, NextStep<K, V>(i, s.locks[i].stage)) && StepsLeft(|s.buckets[i]|, s.locks[i].stage) > 0
    ensures var h, s' := s.locks[i], Next(s, NextStep<K, V>(i, s.locks[i].stage));
            if h.stage == Applied(0) then s'.locks == s.locks - {i} && s'.history == s.history
            else
              && i in s'.locks && s'.locks == s.locks[i := s'.locks[i]] && s'.locks[i].op == h.op && |s'.buckets| == |s.buckets|
              && (h.stage.Walked? <==> !h.stage.Applied? && s'.locks[i].stage.Applied?)
              && (!h.stage.Walked? ==> s'.history == s.history)
              && (h.stage.Applied? ==> s'.locks[i].stage.Applied?)
              && (h.stage.Walked? ==> s'.history == s.history + [(h.op, OnMap(m, h.op).1)])
              && StepsLeft(|s'.buckets[i]|, s'.locks[i].stage) < StepsLeft(|s.buckets[i]|, h.stage)
  {
    hide StandsFor, Replay, OnMap, Pending, Resized;
    assert HolderOk(s, i);
    if s.locks[i].stage.Walked? {
      ApplyRefines(s.buckets, s.hash, m, s.locks[i].op, s.locks[i].stage.end);
    }
  }

  /**
    Whatever the others hold, the thread at bucket i ends with steps of its own: the lock is free, and if it had not
    made its change yet, the history has its operation with the answer of the map.
   */
  lemma {:induction false} HolderFinishes<K(!new), V>(s: State<K, V>, i: nat, m0: map<K, V>, m: map<K, V>)
    returns (events: seq<Event<K, V>>, r: State<K, V>)
    requires Inv(s, m0, m) && i in s.locks
    ensures Run(s, events, r) && r.locks == s.locks - {i}
    ensures r.history == if s.locks[i].stage.Applied? then s.history
                         else s.history + [(s.locks[i].op, OnMap(m, s.locks[i].op).1)]
    decreases if i < |s.buckets| then StepsLeft(|s.buckets[i]|, s.locks[i].stage) else 0
  {
    hide Inv, Possible, Next, OnMap;
    GoesOn(s, i, m0, m);
    var e := NextStep<K, V>(i, s.locks[i].stage);
    var next := Next(s, e);
    var m' := InvStep(s, e, m0, m);
    if s.locks[i].stage == Applied(0) {
      RunOne(s, e, [], next);
      events, r := [e] + [], next;
    } else {
      var more;
      more, r := HolderFinishes(next, i, m0, m');
      RunOne(s, e, more, r);
      events := [e] + more;
      assert s.locks[i := next.locks[i]] - {i} == s.locks - {i};
    }
  }

  lemma RunOne<K(!new), V>(s: State<K, V>, e: Event<K, V>, more: seq<Event<K, V>>, r: State<K, V>)
    requires Possible(s, e) && (if more == [] then r == Next(s, e) else Run(Next(s, e), more, r))
    ensures Run(s, [e] + more, r)
  {
    assert ([e] + more)[1..] == more;
  }

  /** At any time an operation on a bucket that is not locked can be carried out, and gives the answer of the map. */
  lemma CanBeDone<K(!new), V>(s: State<K, V>, events: seq<Event<K, V>>, s': State<K, V>, m0: map<K, V>, op: Op<K, V>)
    returns (m: map<K, V>, more: seq<Event<K, V>>, r: State<K, V>)
    requires Init(s, m0) && Run(s, events, s') && s'.hash(op.key) % Max(1, |s'.buckets|) !in s'.locks
    ensures Replay(m0, s'.history) == Some(m) && Run(s', [Acquire(op)] + more, r)
    ensures r.history == s'.history + [(op, OnMap(m, op).1)] && r.locks == s'.locks
  {
    hide StandsFor, Replay, Next, OnMap;
    InitInv(s, m0);
    m := RunInv(s, events, s', m0, m0);
    HashInRange(s'.buckets, s'.hash, m, op.key);
    var i := s'.hash(op.key) % |s'.buckets|;
    var locked := Next(s', Acquire(op));
    var m' := InvStep(s', Acquire(op), m0, m);
    assert locked.locks == s'.locks[i := Holder(op, Walking(0))] && locked.history == s'.history by { AcquireIs(s', op); }
    more, r := HolderFinishes(locked, i, m0, m);
    RunOne(s', Acquire(op), more, r);
    assert s'.locks[i := Holder(op, Walking(0))] - {i} == s'.locks;
  }

  lemma AcquireIs<K(!new), V>(s: State<K, V>, op: Op<K, V>)
    requires Possible(s, Acquire(op))
    ensures Next(s, Acquire(op)).locks == s.locks[s.hash(op.key) % |s.buckets| := Holder(op, Walking(0))]
    ensures Next(s, Acquire(op)).history == s.history
  {
  }

  function Max(a: nat, b: nat): (m: nat)
    ensures m >= a && m >= b
  {
    if a < b then b else a
  }

  // The map told from the answers alone.

  /** The last insert or remove of this key that was answered with true. */
  function LastChange<K(==), V>(history: seq<(Op<K, V>, Answer<V>)>, key: K): (i: int)
    ensures -1 <= i < |history|
    ensures i >= 0 ==> history[i].0.key == key && history[i].1 == Done(true)
    ensures forall k :: i < k < |history| ==> !(history[k].0.key == key && history[k].1 == Done(true))
  {
    if history == [] then -1
    else if history[|history| - 1].0.key == key && history[|history| - 1].1 == Done(true) then |history| - 1
    else LastChange(history[..|history| - 1], key)
  }

  /**
    A key is in the map exactly if the last change of it that was answered with true was an insert, and then
    with the value of that insert; a key without such a change is as it was at first.
   */
  lemma {:induction false} HistoryTells<K, V>(m0: map<K, V>, history: seq<(Op<K, V>, Answer<V>)>, m: map<K, V>, key: K)
    requires Replay(m0, history) == Some(m)
    ensures var i := LastChange(history, key);
            if i < 0 then (key in m <==> key in m0) && (key in m ==> m[key] == m0[key])
            else if history[i].0.Insert? then key in m && m[key] == history[i].0.value
            else history[i].0.Remove? && key !in m
  {
    if history != [] {
      var front, last := history[..|history| - 1], history[|history| - 1];
      HistoryTells(m0, front, Replay(m0, front).value, key);
    }
  }
}
