/**
  SplitOrderMap of library/lockfree/include/SplitOrderList.h: buckets of singly linked nodes, changed in place.
  Each operation is shown as it runs under the lock of its bucket.
 */
module SplitOrderMap {
  import opened Options
  import opened Chains
  import opened HashBuckets

  class Node<K, V> {
    const key: K
    const value: V
    var next: Node?<K, V>

    constructor (key: K, value: V)
      ensures this.key == key && this.value == value && next == null
    {
      this.key, this.value, next := key, value, null;
    }
  }

  function Ref<K, V>(n: Node?<K, V>): Option<Node<K, V>> {
    if n == null then None else Some(n)
  }

  // How the nodes of all buckets hang together, over a snapshot of their next fields.

  ghost predicate AllHang<O>(heap: map<O, Option<O>>, heads: seq<Option<O>>, chains: seq<seq<O>>) {
    && |heads| == |chains|
    && forall i :: 0 <= i < |chains| ==> Hangs(heap, heads[i], chains[i])
  }

  /** No node is in two places. */
  ghost predicate Apart<O>(chains: seq<seq<O>>) {
    forall i, j, x, y | 0 <= i < |chains| && 0 <= j < |chains[i]| && 0 <= x < |chains| && 0 <= y < |chains[x]| ::
      chains[i][j] == chains[x][y] ==> i == x && j == y
  }

  lemma PushHangs<O>(heap: map<O, Option<O>>, heads: seq<Option<O>>, chains: seq<seq<O>>, i: nat, n: O)
    requires AllHang(heap, heads, chains) && i < |chains| && n !in heap
    ensures AllHang(heap[n := heads[i]], heads[i := Some(n)], chains[i := [n] + chains[i]])
  {
    var heap', heads', chains' := heap[n := heads[i]], heads[i := Some(n)], chains[i := [n] + chains[i]];
    forall x | 0 <= x < |chains| ensures Hangs(heap', heads'[x], chains'[x]) {
      assert Hangs(heap, heads[x], chains[x]) && n !in chains[x];
      hide Hangs;
      if x == i {
        PushOne(heap, heads[i], chains[i], n);
      } else {
        OtherHangs(heap, heads[x], chains[x], n, heads[i]);
      }
    }
  }

  /** The head of a bucket is moved past its first node. */
  lemma UnlinkHeadHangs<O>(heap: map<O, Option<O>>, heads: seq<Option<O>>, chains: seq<seq<O>>, i: nat)
    requires AllHang(heap, heads, chains) && i < |chains| && chains[i] != []
    ensures chains[i][0] in heap
    ensures AllHang(heap, heads[i := heap[chains[i][0]]], chains[i := Without(chains[i], 0)])
  {
    assert Hangs(heap, heads[i], chains[i]);
    var c := Without(chains[i], 0);
    assert forall j :: 0 <= j < |c| ==> c[j] == chains[i][j + 1];
    assert Hangs(heap, heap[chains[i][0]], c);
  }

  /** The node before the one at position j is made to point behind it. */
  lemma UnlinkHangs<O>(heap: map<O, Option<O>>, heads: seq<Option<O>>, chains: seq<seq<O>>, i: nat, j: nat)
    requires AllHang(heap, heads, chains) && Apart(chains) && i < |chains| && 0 < j < |chains[i]|
    ensures chains[i][j] in heap && chains[i][j - 1] in heap
    ensures AllHang(heap[chains[i][j - 1] := heap[chains[i][j]]], heads, chains[i := Without(chains[i], j)])
  {
    assert Hangs(heap, heads[i], chains[i]);
    var heap', chains' := heap[chains[i][j - 1] := heap[chains[i][j]]], chains[i := Without(chains[i], j)];
    forall x | 0 <= x < |chains| ensures Hangs(heap', heads[x], chains'[x]) {
      assert Hangs(heap, heads[x], chains[x]);
      hide Hangs;
      if x == i {
        UnlinkOne(heap, heads[i], chains[i], j);
      } else {
        assert forall y :: 0 <= y < |chains[x]| ==> chains[x][y] != chains[i][j - 1];
        OtherHangs(heap, heads[x], chains[x], chains[i][j - 1], heap[chains[i][j]]);
      }
    }
  }

  // What the nodes hold.

  ghost function Entries<K, V>(chain: seq<Node<K, V>>): seq<Entry<K, V>> {
    seq(|chain|, j requires 0 <= j < |chain| => Entry(chain[j].key, chain[j].value))
  }

  ghost function AllEntries<K, V>(chains: seq<seq<Node<K, V>>>): Buckets<K, V> {
    seq(|chains|, i requires 0 <= i < |chains| => Entries(chains[i]))
  }

  /** Nodes in different places are different: their keys or the buckets of their keys differ. */
  lemma PlacedApart<K(!new), V>(chains: seq<seq<Node<K, V>>>, hash: K -> nat)
    requires Placed(AllEntries(chains), hash)
    ensures Apart(chains)
  {
    var bs: Buckets<K, V> := AllEntries(chains);
    forall i, j, x, y | 0 <= i < |chains| && 0 <= j < |chains[i]| && 0 <= x < |chains| && 0 <= y < |chains[x]| &&
                        chains[i][j] == chains[x][y]
      ensures i == x && j == y
    {
      assert hash(bs[i][j].key) % |bs| == i && hash(bs[x][y].key) % |bs| == x;
      assert bs[i][j].key == bs[x][y].key;
    }
  }

  lemma PushEntries<K, V>(chains: seq<seq<Node<K, V>>>, i: nat, n: Node<K, V>)
    requires i < |chains|
    ensures AllEntries(chains[i := [n] + chains[i]]) ==
            AllEntries(chains)[i := [Entry(n.key, n.value)] + AllEntries(chains)[i]]
  {
    assert Entries([n] + chains[i]) == [Entry(n.key, n.value)] + Entries(chains[i]);
  }

  lemma DropEntry<K, V>(chains: seq<seq<Node<K, V>>>, i: nat, j: nat)
    requires i < |chains| && j < |chains[i]|
    ensures AllEntries(chains[i := Without(chains[i], j)]) ==
            AllEntries(chains)[i := Without(AllEntries(chains)[i], j)]
  {
    assert Entries(Without(chains[i], j)) == Without(Entries(chains[i]), j);
  }

  /** A key that the walk did not meet is not in the map; one that it met is, with the value of its node. */
  lemma WalkTells<K(!new), V>(chains: seq<seq<Node<K, V>>>, hash: K -> nat, m: map<K, V>, key: K, j: nat)
    requires StandsFor(AllEntries(chains), hash, m)
    requires |chains| > 0 && j <= |chains[hash(key) % |chains|]|
    requires forall k :: 0 <= k < j ==> chains[hash(key) % |chains|][k].key != key
    requires j < |chains[hash(key) % |chains|]| ==> chains[hash(key) % |chains|][j].key == key
    ensures var c := chains[hash(key) % |chains|];
            if j == |c| then key !in m else key in m && m[key] == c[j].value
  {
    var i := hash(key) % |chains|;
    var b: seq<Entry<K, V>> := AllEntries(chains)[i];
    assert forall k :: 0 <= k < |b| ==> b[k].key == chains[i][k].key && b[k].value == chains[i][k].value;
    if key in m {
      assert Holds(b, key);
    }
  }

  class SplitOrderMap<K(!new, ==), V> {
    const hash: K -> nat
    var table: array<Node?<K, V>>
    var size: nat
    var capacity: nat
    ghost var chains: seq<seq<Node<K, V>>>
    ghost var repr: set<Node<K, V>>
    ghost var contents: map<K, V>

    ghost function Heap(): map<Node<K, V>, Option<Node<K, V>>>
      reads this, repr
    {
      map n | n in repr :: Ref(n.next)
    }

    ghost function Heads(): seq<Option<Node<K, V>>>
      reads this, table
    {
      seq(table.Length, i requires 0 <= i < table.Length reads this, table => Ref(table[i]))
    }

    ghost predicate Valid()
      reads this, table, repr
    {
      && table.Length == capacity && capacity > 0 && AllHang(Heap(), Heads(), chains)
      && StandsFor(AllEntries(chains), hash, contents) && size == |contents|
    }

    constructor (initialCapacity: nat, hash: K -> nat)
      requires initialCapacity > 0
      ensures Valid() && contents == map[] && capacity == initialCapacity && this.hash == hash && fresh(table) && repr == {}
    {
      this.hash, size, capacity := hash, 0, initialCapacity;
      table := new Node?<K, V>[initialCapacity](_ => null);
      chains := seq(initialCapacity, i => []);
      contents, repr := map[], {};
    }

    function GetIndex(key: K): (index: nat)
      requires capacity > 0
      reads this`capacity
      ensures index < capacity
    {
      hash(key) % capacity
    }

    /** The walk along a bucket that every operation makes; found is the first node with the key. */
    method Walk(index: nat, key: K) returns (found: Node?<K, V>, prev: Node?<K, V>, ghost j: nat)
      requires Valid() && index < |chains|
      ensures j <= |chains[index]| && IsAt(found, chains[index], j) && (found != null ==> found.key == key)
      ensures if j == 0 then prev == null else IsAt(prev, chains[index], j - 1)
      ensures forall k :: 0 <= k < j ==> chains[index][k].key != key
    {
      hide *;
      BucketHangs(index);
      found, prev, j := table[index], null, 0;
      while found != null && found.key != key
        invariant j <= |chains[index]| && IsAt(found, chains[index], j)
        invariant if j == 0 then prev == null else IsAt(prev, chains[index], j - 1)
        invariant forall k :: 0 <= k < j ==> chains[index][k].key != key
        decreases |chains[index]| - j
      {
        BucketStep(found, index, j);
        prev := found;
        found := found.next;
        j := j + 1;
      }
    }

    /** insert: an existing value is kept. */
    method Insert(key: K, value: V) returns (inserted: bool)
      requires Valid()
      modifies this, table
      ensures Valid() && table == old(table) && capacity == old(capacity) && fresh(repr - old(repr))
      ensures inserted == (key !in old(contents))
      ensures contents == if inserted then old(contents)[key := value] else old(contents)
    {
      hide StandsFor, AllHang, AllEntries;
      var index := GetIndex(key);
      SameLength();
      var found, prev, j := Walk(index, key);
      WalkTells(chains, hash, contents, key, j);
      if found != null {
        return false;
      }
      var node := new Node(key, value);
      Push(index, node);
      inserted := true;
    }

    lemma SameLength()
      requires Valid()
      ensures |chains| == capacity == |AllEntries(chains)|
    {
    }

    /** The new node becomes the head of its bucket. */
    method Push(index: nat, node: Node<K, V>)
      requires Valid() && index == GetIndex(node.key) && node.key !in contents && node !in repr
      modifies this, table, node
      ensures Valid() && table == old(table) && capacity == old(capacity) && repr == old(repr) + {node}
      ensures contents == old(contents)[node.key := node.value]
    {
      hide StandsFor, AllHang, AllEntries;
      SameLength();
      PushHangs(Heap(), Heads(), chains, index, node);
      InsertStands(AllEntries(chains), hash, contents, node.key, node.value);
      PushEntries(chains, index, node);
      OneKeyMore(contents, node.key, node.value);
      node.next := table[index];
      table[index] := node;
      size := size + 1;
      chains := chains[index := [node] + chains[index]];
      repr := repr + {node};
      contents := contents[node.key := node.value];
      assert Heap() == old(Heap())[node := old(Heads())[index]];
      assert Heads() == old(Heads())[index := Some(node)];
    }

    /** remove: exactly the node with the key is unlinked. */
    method Remove(key: K) returns (removed: bool)
      requires Valid()
      modifies this, table, repr
      ensures Valid() && table == old(table) && capacity == old(capacity) && repr == old(repr)
      ensures removed == (key in old(contents)) && contents == old(contents) - {key}
    {
      hide StandsFor, AllHang, AllEntries;
      var index := GetIndex(key);
      SameLength();
      var current, prev, j := Walk(index, key);
      WalkTells(chains, hash, contents, key, j);
      if current == null {
        NoKeyLess(contents, key);
        return false;
      }
      Unlink(index, current, prev, j);
      removed := true;
    }

    method Unlink(index: nat, current: Node<K, V>, prev: Node?<K, V>, ghost j: nat)
      requires Valid() && index < |chains| == capacity && IsAt(current, chains[index], j) && current.key in contents
      requires if j == 0 then prev == null else IsAt(prev, chains[index], j - 1)
      modifies this, table, repr
      ensures Valid() && table == old(table) && capacity == old(capacity) && repr == old(repr)
      ensures contents == old(contents) - {current.key}
    {
      hide StandsFor, AllHang, AllEntries, Apart;
      SameLength();
      StandsApart();
      ghost var bs := AllEntries(chains);
      EntryAt(chains, index, j);
      RemoveStands(bs, hash, contents, index, j);
      DropEntry(chains, index, j);
      OneKeyLess(contents, current.key);
      ghost var heap: map<Node<K, V>, Option<Node<K, V>>>, heads: seq<Option<Node<K, V>>> := Heap(), Heads();
      if prev != null {
        UnlinkHangs(heap, heads, chains, index, j);
        heap := heap[prev := heap[current]];
        prev.next := current.next;
      } else {
        UnlinkHeadHangs(heap, heads, chains, index);
        heads := heads[index := heap[current]];
        table[index] := current.next;
      }
      size := size - 1;
      chains := chains[index := Without(chains[index], j)];
      contents := contents - {current.key};
      assert Heap() == heap && Heads() == heads;
    }

    lemma StandsApart()
      requires Valid()
      ensures Apart(chains)
    {
      PlacedApart(chains, hash);
    }

    method Find(key: K) returns (value: Option<V>)
      requires Valid()
      ensures value == if key in contents then Some(contents[key]) else None
    {
      hide StandsFor, AllHang, AllEntries;
      var index := GetIndex(key);
      SameLength();
      var current, prev, j := Walk(index, key);
      WalkTells(chains, hash, contents, key, j);
      value := if current == null then None else Some(current.value);
    }

    /** The inner loop of resize: copies of the nodes of one bucket go into the new table. */
    method CopyBucket(i: nat, other: SplitOrderMap<K, V>)
      requires Valid() && other.Valid() && i < |chains| && other.hash == hash
      requires other != this && other.table != table && other.repr !! repr
      requires TakenOver(AllEntries(chains), contents, other.contents, i, 0)
      modifies other, other.table
      ensures Valid() && other.Valid() && other.table == old(other.table) && other.capacity == old(other.capacity)
      ensures fresh(other.repr - old(other.repr))
      ensures TakenOver(AllEntries(chains), contents, other.contents, i + 1, 0)
    {
      hide *;
      ghost var j := 0;
      BucketLength(chains, i);
      BucketHangs(i);
      var current := table[i];
      while current != null
        invariant j <= |chains[i]| && IsAt(current, chains[i], j) && Valid() && other.Valid() && other.table == old(other.table)
        invariant fresh(other.repr - old(other.repr)) && other.capacity == old(other.capacity)
        invariant TakenOver(AllEntries(chains), contents, other.contents, i, j)
        decreases |chains[i]| - j
      {
        TakeOverOneHere(other.contents, current, i, j);
        BucketStep(current, i, j);
        other.Copy(current);
        current := current.next;
        j := j + 1;
      }
      EndOf(chains[i], j);
      NextBucket(AllEntries(chains), contents, other.contents, i);
    }

    /** A copy of a node goes into its bucket. */
    method Copy(current: Node<K, V>)
      requires Valid() && current.key !in contents
      modifies this, table
      ensures Valid() && table == old(table) && capacity == old(capacity) && fresh(repr - old(repr))
      ensures contents == old(contents)[current.key := current.value]
    {
      hide StandsFor, AllHang, AllEntries;
      var node := new Node(current.key, current.value);
      Push(GetIndex(node.key), node);
    }

    lemma BucketStep(current: Node<K, V>, i: nat, j: nat)
      requires Valid() && i < |chains| && IsAt(current, chains[i], j)
      ensures j < |chains[i]| && current == chains[i][j] && IsAt(current.next, chains[i], j + 1)
    {
      assert Hangs(Heap(), Heads()[i], chains[i]);
      assert chains[i][j] in Heap();
    }

    lemma BucketHangs(i: nat)
      requires Valid() && i < |chains|
      ensures |chains| == capacity == table.Length && IsAt(table[i], chains[i], 0)
    {
      assert Hangs(Heap(), Heads()[i], chains[i]);
    }

    lemma TakeOverOneHere(n: map<K, V>, node: Node<K, V>, i: nat, j: nat)
      requires Valid() && TakenOver(AllEntries(chains), contents, n, i, j) && i < |chains| && IsAt(node, chains[i], j)
      ensures node.key !in n
      ensures TakenOver(AllEntries(chains), contents, n[node.key := node.value], i, j + 1)
    {
      hide StandsFor, AllHang, TakenOver, AllEntries;
      SameLength();
      EntryAt(chains, i, j);
      TakeOverOne(AllEntries(chains), hash, contents, n, i, j);
    }

    /** The loop of resize: every bucket is copied into a new table. */
    method Rehashed(newCapacity: nat) returns (newTable: SplitOrderMap<K, V>)
      requires Valid() && newCapacity > 0
      ensures Valid() && newTable.Valid() && newTable.capacity == newCapacity && newTable.hash == hash
      ensures fresh(newTable) && fresh(newTable.table) && fresh(newTable.repr) && newTable.contents == contents
    {
      hide *;
      newTable := new SplitOrderMap(newCapacity, hash);
      NoneTakenOver(AllEntries(chains), contents);
      SameLength();
      for i := 0 to capacity
        invariant Valid() && newTable.Valid() && newTable.capacity == newCapacity && newTable.hash == hash
        invariant fresh(newTable) && fresh(newTable.table) && fresh(newTable.repr)
        invariant TakenOver(AllEntries(chains), contents, newTable.contents, i, 0)
      {
        CopyBucket(i, newTable);
      }
      AllTakenOverHere(newTable.contents);
    }

    lemma AllTakenOverHere(n: map<K, V>)
      requires Valid() && TakenOver(AllEntries(chains), contents, n, capacity, 0)
      ensures n == contents
    {
      hide StandsFor, AllHang, TakenOver, AllEntries;
      SameLength();
      AllTakenOver(AllEntries(chains), hash, contents, n);
    }

    /** resize, which no other thread may run beside: the map and the counter stay as they are. */
    method Resize(newCapacity: nat)
      requires Valid() && newCapacity > 0
      modifies this
      ensures Valid() && capacity == newCapacity && contents == old(contents) && size == old(size)
      ensures fresh(table) && fresh(repr)
    {
      hide StandsFor, AllHang, AllEntries;
      var newTable := Rehashed(newCapacity);
      table, capacity := newTable.table, newCapacity;
      chains, repr := newTable.chains, newTable.repr;
      assert Heap() == newTable.Heap() && Heads() == newTable.Heads();
    }

    method Contains(key: K) returns (found: bool)
      requires Valid()
      ensures found == (key in contents)
    {
      hide StandsFor, AllHang, AllEntries;
      var index := GetIndex(key);
      SameLength();
      var current, prev, j := Walk(index, key);
      WalkTells(chains, hash, contents, key, j);
      found := current != null;
    }
  }

  /** n is what the chain has at position j. */
  predicate IsAt<K, V>(n: Node?<K, V>, chain: seq<Node<K, V>>, j: nat) {
    Ref(n) == At(chain, j)
  }

  lemma EndOf<K, V>(chain: seq<Node<K, V>>, j: nat)
    requires j <= |chain| && IsAt<K, V>(null, chain, j)
    ensures j == |chain|
  {
  }

  lemma BucketLength<K, V>(chains: seq<seq<Node<K, V>>>, i: nat)
    requires i < |chains|
    ensures |AllEntries(chains)| == |chains| && |AllEntries(chains)[i]| == |chains[i]|
  {
  }

  lemma EntryAt<K, V>(chains: seq<seq<Node<K, V>>>, i: nat, j: nat)
    requires i < |chains| && j < |chains[i]|
    ensures |AllEntries(chains)| == |chains| && |AllEntries(chains)[i]| == |chains[i]|
    ensures AllEntries(chains)[i][j] == Entry(chains[i][j].key, chains[i][j].value)
  {
  }
}
