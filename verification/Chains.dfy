/**
  Singly linked chains of nodes, over a snapshot of the next fields of the nodes.
 */
module Chains {
  import opened Options

  /** What a chain has at position j. */
  function At<O>(chain: seq<O>, j: nat): Option<O> {
    if j < |chain| then Some(chain[j]) else None
  }

  ghost predicate Hangs<O>(heap: map<O, Option<O>>, head: Option<O>, chain: seq<O>) {
    head == At(chain, 0) && forall j :: 0 <= j < |chain| ==> chain[j] in heap && heap[chain[j]] == At(chain, j + 1)
  }

  ghost predicate Distinct<O>(chain: seq<O>) {
    forall x, y :: 0 <= x < y < |chain| ==> chain[x] != chain[y]
  }

  function Without<T>(b: seq<T>, j: nat): seq<T>
    requires j < |b|
  {
    b[..j] + b[j + 1..]
  }

  /** A write to a node outside of a chain leaves it as it is. */
  lemma OtherHangs<O>(heap: map<O, Option<O>>, head: Option<O>, chain: seq<O>, n: O, v: Option<O>)
    requires Hangs(heap, head, chain) && n !in chain
    ensures Hangs(heap[n := v], head, chain)
  {
  }

  lemma PushOne<O>(heap: map<O, Option<O>>, head: Option<O>, chain: seq<O>, n: O)
    requires Hangs(heap, head, chain) && n !in chain
    ensures Hangs(heap[n := head], Some(n), [n] + chain)
  {
    assert forall j :: 0 < j < |[n] + chain| ==> ([n] + chain)[j] == chain[j - 1];
  }

  lemma UnlinkOne<O>(heap: map<O, Option<O>>, head: Option<O>, chain: seq<O>, j: nat)
    requires Hangs(heap, head, chain) && 0 < j < |chain|
    requires Distinct(chain)
    ensures chain[j] in heap && Hangs(heap[chain[j - 1] := heap[chain[j]]], head, Without(chain, j))
  {
    var c := Without(chain, j);
    assert forall k :: 0 <= k < |c| ==> c[k] == chain[if k < j then k else k + 1];
  }

  function InsertedAfter<O>(chain: seq<O>, j: nat, n: O): seq<O>
    requires j < |chain|
  {
    chain[..j + 1] + [n] + chain[j + 1..]
  }

  lemma InsertedElements<O>(chain: seq<O>, j: nat, n: O)
    requires j < |chain|
    ensures |InsertedAfter(chain, j, n)| == |chain| + 1
    ensures forall k :: 0 <= k <= |chain| ==>
              InsertedAfter(chain, j, n)[k] == if k <= j then chain[k] else if k == j + 1 then n else chain[k - 1]
  {
  }

  /** A new node is put behind the one at position j. */
  lemma InsertOne<O>(heap: map<O, Option<O>>, head: Option<O>, chain: seq<O>, j: nat, n: O)
    requires Hangs(heap, head, chain) && j < |chain| && n !in chain && Distinct(chain)
    ensures chain[j] in heap
    ensures Hangs(heap[n := heap[chain[j]]][chain[j] := Some(n)], head, InsertedAfter(chain, j, n))
    ensures Distinct(InsertedAfter(chain, j, n))
  {
    InsertedElements(chain, j, n);
    InsertedDistinct(chain, j, n);
    var c, h := InsertedAfter(chain, j, n), heap[n := heap[chain[j]]][chain[j] := Some(n)];
    forall k | 0 <= k < |c| ensures c[k] in h && h[c[k]] == At(c, k + 1) {
      if k != j + 1 {
        var x := if k <= j then k else k - 1;
        assert c[k] == chain[x] && chain[x] in heap && chain[x] in chain && (x != j ==> chain[x] != chain[j]);
      }
    }
  }

  lemma InsertedDistinct<O>(chain: seq<O>, j: nat, n: O)
    requires j < |chain| && n !in chain && Distinct(chain)
    ensures Distinct(InsertedAfter(chain, j, n))
  {
    InsertedElements(chain, j, n);
    var c := InsertedAfter(chain, j, n);
    forall x, y | 0 <= x < y < |c| ensures c[x] != c[y] {
      var p, q := if x <= j then x else x - 1, if y <= j then y else y - 1;
      assert chain[p] in chain && chain[q] in chain;
      assert x != j + 1 && y != j + 1 ==> c[x] == chain[p] && c[y] == chain[q] && p < q;
    }
  }

  /** A node that points nowhere is put at the end. */
  lemma AppendOne<O>(heap: map<O, Option<O>>, head: Option<O>, chain: seq<O>, n: O)
    requires Hangs(heap, head, chain) && chain != [] && n in heap && n !in chain && heap[n] == None && Distinct(chain)
    ensures Hangs(heap[chain[|chain| - 1] := Some(n)], head, chain + [n]) && Distinct(chain + [n])
  {
    var j := |chain| - 1;
    InsertOne(heap, head, chain, j, n);
    assert InsertedAfter(chain, j, n) == chain + [n];
    assert heap[n := heap[chain[j]]] == heap;
  }
}
